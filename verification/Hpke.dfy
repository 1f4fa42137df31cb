/** HPKE setup in base and PSK mode (section 5.1 of RFC 9180), for one ciphersuite. */
module Hpke {
  import opened Bytes
  import opened Wrappers
  import opened HpkeContext
  import opened HpkeKdf
  import opened DhKem
  import R = HpkeRuns

  const AEAD_ID_EXPORT_ONLY: u16 := 0xFFFF

  datatype Mode = Base | PskMode

  datatype Psk = Psk(id: bytes, value: bytes)

  datatype Hpke = Hpke(kem: Kem, kdf: Kdf, aead: Option<Aead>) {

    /** `Hpke::new`: the suite that labels every derivation. */
    function Suite(): SuiteKdf {
      var aeadId: u16 := if aead.Some? then aead.value.id else AEAD_ID_EXPORT_ONLY;
      SuiteKdf(HpkeSuiteId(kem.kemId, kdf.id, aeadId), kdf)
    }
  }

  /** What both sides hold after setup. */
  datatype Context = Context(exporterSecret: bytes, encryption: Option<State>, suite: SuiteKdf)

  function ModeByte(mode: Mode): byte {
    if mode.Base? then 0 else 1
  }

  function BaseMode(psk: Option<Psk>): Mode {
    if psk.Some? then PskMode else Base
  }

  function CheckPsk(psk: Option<Psk>): HpkeResult<()> {
    if psk.Some? && |psk.value.value| < 32 then Err(InsufficientPskLength) else Ok(())
  }

  /** A missing PSK counts as an empty one. */
  function PskOf(psk: Option<Psk>): Psk {
    if psk.Some? then psk.value else Psk([], [])
  }

  function OrKdfError(out: Option<bytes>): HpkeResult<bytes> {
    if out.Some? then Ok(out.value) else Err(KdfError)
  }

  function KeyScheduleContext(mode: Mode, pskIdHash: bytes, infoHash: bytes): bytes {
    [ModeByte(mode)] + pskIdHash + infoHash
  }

  /** `key_schedule`. */
  function KeySchedule(h: Hpke, mode: Mode, shared: bytes, info: bytes, psk: Option<Psk>): HpkeResult<Context>
  {
    var _ :- CheckPsk(psk);
    var p := PskOf(psk);
    var k := h.Suite();
    var pskIdHash :- OrKdfError(LabeledExtract(k, [], PSK_ID_HASH, p.id));
    var infoHash :- OrKdfError(LabeledExtract(k, [], INFO_HASH, info));
    var secret :- OrKdfError(LabeledExtract(k, shared, SECRET, p.value));
    var ctx := KeyScheduleContext(mode, pskIdHash, infoHash);
    var encryption :- EncryptionPart(h, k, secret, ctx);
    var exporter :- OrKdfError(LabeledExpand(k, secret, EXP, ctx, k.kdf.extractSize));
    Ok(Context(exporter, encryption, k))
  }

  function EncryptionPart(h: Hpke, k: SuiteKdf, secret: bytes, ctx: bytes): HpkeResult<Option<State>> {
    if h.aead.None? then Ok(None)
    else
      var aead := h.aead.value;
      var key :- OrKdfError(LabeledExpand(k, secret, KEY, ctx, aead.keySize));
      var baseNonce :- OrKdfError(LabeledExpand(k, secret, BASE_NONCE, ctx, aead.nonceSize));
      var state :- NewState(baseNonce, aead, key);
      Ok(Some(state))
  }

  /** `setup_sender`, with the key pair that `generate` returned. */
  function SetupSender(h: Hpke, ephemeral: Option<KeyPair>, remote: bytes, info: bytes, psk: Option<Psk>)
    : HpkeResult<(bytes, Context)>
  {
    var kem := Encap(h.kem, ephemeral, remote);
    if kem.Err? then Err(KemError)
    else
      var ctx :- KeySchedule(h, BaseMode(psk), kem.value.0, info, psk);
      Ok((kem.value.1, ctx))
  }

  /** `setup_receiver`. */
  function SetupReceiver(h: Hpke, enc: bytes, local: KeyPair, info: bytes, psk: Option<Psk>): HpkeResult<Context>
  {
    var kem := Decap(h.kem, enc, local);
    if kem.Err? then Err(KemError)
    else KeySchedule(h, BaseMode(psk), kem.value, info, psk)
  }

  /** `Context::export`. */
  function Export(c: Context, exporterContext: bytes, len: nat): HpkeResult<bytes> {
    OrKdfError(LabeledExpand(c.suite, c.exporterSecret, SEC, exporterContext, len))
  }

  function ContextSeal(c: Context, aad: Option<bytes>, pt: bytes): HpkeResult<bytes> {
    if c.encryption.None? then Err(ExportOnlyMode) else SealStep(c.encryption.value, aad, pt).1
  }

  function ContextOpen(c: Context, aad: Option<bytes>, ct: bytes): HpkeResult<bytes> {
    if c.encryption.None? then Err(ExportOnlyMode) else OpenStep(c.encryption.value, aad, ct).1
  }

  /** Single-shot `seal`: `enc` and the ciphertext. */
  function Seal(h: Hpke, ephemeral: Option<KeyPair>, remote: bytes, info: bytes, psk: Option<Psk>,
                aad: Option<bytes>, pt: bytes): HpkeResult<(bytes, bytes)>
  {
    var (enc, ctx) :- SetupSender(h, ephemeral, remote, info, psk);
    var ct :- ContextSeal(ctx, aad, pt);
    Ok((enc, ct))
  }

  /** Single-shot `open`. */
  function Open(h: Hpke, enc: bytes, ct: bytes, local: KeyPair, info: bytes, psk: Option<Psk>,
                aad: Option<bytes>): HpkeResult<bytes>
  {
    var ctx :- SetupReceiver(h, enc, local, info, psk);
    ContextOpen(ctx, aad, ct)
  }

  // ------------------------------------------------------------------
  // Agreement
  // ------------------------------------------------------------------

  /** From the sender's `enc`, the receiver sets up the sender's context: the same AEAD key,
      base nonce, counter and exporter secret. A setup that fails after encapsulation fails
      in the same way on both sides. */
  lemma SetupAgrees(h: Hpke, ephemeral: KeyPair, local: KeyPair, info: bytes, psk: Option<Psk>)
    requires Commutes(h.kem.dh)
    requires IsKeyPair(h.kem.dh, ephemeral) && IsKeyPair(h.kem.dh, local)
    requires Encap(h.kem, Some(ephemeral), local.public).Ok?
    ensures match SetupSender(h, Some(ephemeral), local.public, info, psk)
            case Ok((enc, ctx)) => SetupReceiver(h, enc, local, info, psk) == Ok(ctx)
            case Err(e) => SetupReceiver(h, ephemeral.public, local, info, psk) == Err(e)
  {
    DecapUndoesEncap(h.kem, ephemeral, local);
  }

  /** Every export of the two sides is the same, or fails on both. */
  lemma ExportsAgree(h: Hpke, ephemeral: KeyPair, local: KeyPair, info: bytes, psk: Option<Psk>,
                     exporterContext: bytes, len: nat)
    requires Commutes(h.kem.dh)
    requires IsKeyPair(h.kem.dh, ephemeral) && IsKeyPair(h.kem.dh, local)
    requires SetupSender(h, Some(ephemeral), local.public, info, psk).Ok?
    ensures var (enc, sender) := SetupSender(h, Some(ephemeral), local.public, info, psk).value;
            var receiver := SetupReceiver(h, enc, local, info, psk);
            receiver.Ok? && Export(receiver.value, exporterContext, len) == Export(sender, exporterContext, len)
  {
    SetupAgrees(h, ephemeral, local, info, psk);
  }

  /** Single-shot opening returns the plaintext that was sealed. */
  lemma OpenUndoesSeal(h: Hpke, ephemeral: KeyPair, local: KeyPair, info: bytes, psk: Option<Psk>,
                       aad: Option<bytes>, pt: bytes)
    requires Commutes(h.kem.dh)
    requires IsKeyPair(h.kem.dh, ephemeral) && IsKeyPair(h.kem.dh, local)
    requires h.aead.Some? ==> OpensWhatItSeals(h.aead.value)
    requires Seal(h, Some(ephemeral), local.public, info, psk, aad, pt).Ok?
    ensures var (enc, ct) := Seal(h, Some(ephemeral), local.public, info, psk, aad, pt).value;
            Open(h, enc, ct, local, info, psk, aad) == Ok(pt)
  {
    SetupAgrees(h, ephemeral, local, info, psk);
    var (enc, ctx) := SetupSender(h, Some(ephemeral), local.public, info, psk).value;
    ScheduleUsesAead(h, BaseMode(psk), Encap(h.kem, Some(ephemeral), local.public).value.0, info, psk);
    var s := ctx.encryption.value;
    assert s.aead.open(s.key, s.aead.seal(s.key, pt, aad, CurrentNonce(s)).value, aad, CurrentNonce(s)) == Some(pt);
  }

  /** A context encrypts exactly when the suite has a cipher, starts at zero, and has key and
      nonce of the cipher's sizes. */
  lemma ScheduleUsesAead(h: Hpke, mode: Mode, shared: bytes, info: bytes, psk: Option<Psk>)
    requires KeySchedule(h, mode, shared, info, psk).Ok?
    ensures var c := KeySchedule(h, mode, shared, info, psk).value;
            && (c.encryption.Some? <==> h.aead.Some?)
            && (c.encryption.Some? ==>
                  var s := c.encryption.value;
                  && s.aead == h.aead.value && s.counter == 0
                  && |s.key| == h.aead.value.keySize && |s.baseNonce| == h.aead.value.nonceSize)
            && (psk.Some? ==> |psk.value.value| >= 32)
  {
  }

  /** A whole session: whatever the two sides call after setup, and whatever the network makes up,
      the receiver delivers a prefix of what the sender sealed. */
  lemma SessionDeliversPrefix(h: Hpke, ephemeral: KeyPair, local: KeyPair, info: bytes, psk: Option<Psk>,
                              calls: seq<R.Call>)
    requires Commutes(h.kem.dh)
    requires IsKeyPair(h.kem.dh, ephemeral) && IsKeyPair(h.kem.dh, local)
    requires h.aead.Some? && h.aead.value.nonceSize >= 8
    requires SetupSender(h, Some(ephemeral), local.public, info, psk).Ok?
    ensures var (enc, sender) := SetupSender(h, Some(ephemeral), local.public, info, psk).value;
            var receiver := SetupReceiver(h, enc, local, info, psk);
            && sender.encryption.Some? && receiver.Ok? && receiver.value.encryption.Some?
            && var w := R.World(sender.encryption.value, receiver.value.encryption.value, [], []);
               R.RunUnforged(w, calls) ==> R.Run(w, calls).delivered <= R.Deliveries(R.Run(w, calls).sealed)
  {
    SetupAgrees(h, ephemeral, local, info, psk);
    ScheduleUsesAead(h, BaseMode(psk), Encap(h.kem, Some(ephemeral), local.public).value.0, info, psk);
    var s := SetupSender(h, Some(ephemeral), local.public, info, psk).value.1.encryption.value;
    var w := R.World(s, s, [], []);
    if R.RunUnforged(w, calls) { R.DeliveredIsPrefix(w, calls); }
  }

  // ------------------------------------------------------------------
  // Independence of what is derived
  // ------------------------------------------------------------------

  ghost predicate IsExpandInput(suiteId: bytes, name: bytes, input: bytes) {
    exists info, len: nat :: input == ExpandInput(suiteId, name, info, len)
  }

  /** The same KDF, but with other outputs for the expansions under one label. */
  ghost function Altered(h: Hpke, name: bytes, f: (bytes, bytes, nat) -> Option<bytes>): Hpke {
    var suiteId := h.Suite().suiteId;
    h.(kdf := h.kdf.(expand := (key: bytes, input: bytes, len: nat) =>
      if IsExpandInput(suiteId, name, input) then f(key, input, len) else h.kdf.expand(key, input, len)))
  }

  lemma AlteredElsewhere(h: Hpke, name: bytes, f: (bytes, bytes, nat) -> Option<bytes>,
                         other: bytes, key: bytes, info: bytes, len: nat)
    requires name != other
    requires ExpandLabel(HpkeSuite(0, 0, 0), name) && ExpandLabel(HpkeSuite(0, 0, 0), other)
    ensures LabeledExpand(Altered(h, name, f).Suite(), key, other, info, len)
            == LabeledExpand(h.Suite(), key, other, info, len)
  {
    var s := SuiteOf(h);
    var input := ExpandInput(SuiteId(s), other, info, len);
    if IsExpandInput(SuiteId(s), name, input) {
      var i, l: nat :| input == ExpandInput(SuiteId(s), name, i, l);
      ExpandInputsSeparate(s, other, info, len, s, name, i, l);
    }
  }

  /** The AEAD key, the base nonce and the exporter secret are derived independently: changing
      the KDF at the inputs of one of them leaves the others as they were. */
  lemma DerivedIndependently(h: Hpke, mode: Mode, shared: bytes, info: bytes, psk: Option<Psk>,
                             name: bytes, f: (bytes, bytes, nat) -> Option<bytes>)
    requires name == KEY || name == BASE_NONCE || name == EXP || name == SEC
    requires KeySchedule(h, mode, shared, info, psk).Ok?
    requires KeySchedule(Altered(h, name, f), mode, shared, info, psk).Ok?
    ensures var c := KeySchedule(h, mode, shared, info, psk).value;
            var d := KeySchedule(Altered(h, name, f), mode, shared, info, psk).value;
            && (name != EXP ==> d.exporterSecret == c.exporterSecret)
            && (c.encryption.Some? ==>
                  && (name != KEY ==> d.encryption.value.key == c.encryption.value.key)
                  && (name != BASE_NONCE ==> d.encryption.value.baseNonce == c.encryption.value.baseNonce))
  {
    var p := PskOf(psk);
    var k := h.Suite();
    var pskIdHash := LabeledExtract(k, [], PSK_ID_HASH, p.id).value;
    var infoHash := LabeledExtract(k, [], INFO_HASH, info).value;
    var secret := LabeledExtract(k, shared, SECRET, p.value).value;
    var ctx := KeyScheduleContext(mode, pskIdHash, infoHash);
    if name != EXP { AlteredElsewhere(h, name, f, EXP, secret, ctx, h.kdf.extractSize); }
    if h.aead.Some? {
      if name != KEY { AlteredElsewhere(h, name, f, KEY, secret, ctx, h.aead.value.keySize); }
      if name != BASE_NONCE { AlteredElsewhere(h, name, f, BASE_NONCE, secret, ctx, h.aead.value.nonceSize); }
    }
  }

  // ------------------------------------------------------------------
  // Binding
  // ------------------------------------------------------------------

  ghost predicate ExtractsToSize(kdf: Kdf) {
    forall salt, ikm ::
      var out := kdf.extract(salt, ikm);
      out.Some? ==> |out.value| == kdf.extractSize
  }

  lemma ContextParts(m1: Mode, a1: bytes, b1: bytes, m2: Mode, a2: bytes, b2: bytes)
    requires |a1| == |a2| && KeyScheduleContext(m1, a1, b1) == KeyScheduleContext(m2, a2, b2)
    ensures m1 == m2 && a1 == a2 && b1 == b2
  {
    SplitConcat([ModeByte(m1)] + a1, b1, [ModeByte(m2)] + a2, b2);
    SplitConcat([ModeByte(m1)], a1, [ModeByte(m2)], a2);
  }

  /** The key schedule's own suite, as a value. */
  function SuiteOf(h: Hpke): Suite {
    HpkeSuite(h.kem.kemId, h.kdf.id, if h.aead.Some? then h.aead.value.id else AEAD_ID_EXPORT_ONLY)
  }

  /** The values that a key schedule passes through. */
  datatype Inner = Inner(pskIdHash: bytes, infoHash: bytes, secret: bytes, context: bytes)

  function InnerOf(h: Hpke, mode: Mode, shared: bytes, info: bytes, psk: Option<Psk>): Inner
    requires KeySchedule(h, mode, shared, info, psk).Ok?
  {
    var k, p := h.Suite(), PskOf(psk);
    var a, b := LabeledExtract(k, [], PSK_ID_HASH, p.id).value, LabeledExtract(k, [], INFO_HASH, info).value;
    Inner(a, b, LabeledExtract(k, shared, SECRET, p.value).value, KeyScheduleContext(mode, a, b))
  }

  /** Two key schedules had the same mode, shared secret, info and PSK, or made different extraction
      inputs of one of three kinds and got the same output. */
  ghost predicate InputsBound(h: Hpke, m1: Mode, shared1: bytes, info1: bytes, psk1: Option<Psk>,
                              m2: Mode, shared2: bytes, info2: bytes, psk2: Option<Psk>)
  {
    var id, p, q := h.Suite().suiteId, PskOf(psk1), PskOf(psk2);
    || (m1 == m2 && shared1 == shared2 && info1 == info2 && p == q)
    || ExtractCollision(h.kdf, [], ExtractInput(id, PSK_ID_HASH, p.id), [], ExtractInput(id, PSK_ID_HASH, q.id))
    || ExtractCollision(h.kdf, [], ExtractInput(id, INFO_HASH, info1), [], ExtractInput(id, INFO_HASH, info2))
    || ExtractCollision(h.kdf, shared1, ExtractInput(id, SECRET, p.value), shared2, ExtractInput(id, SECRET, q.value))
  }

  /** The secret and the context of the schedule bind them. */
  lemma InnerBinds(h: Hpke, m1: Mode, shared1: bytes, info1: bytes, psk1: Option<Psk>,
                   m2: Mode, shared2: bytes, info2: bytes, psk2: Option<Psk>)
    requires ExtractsToSize(h.kdf)
    requires KeySchedule(h, m1, shared1, info1, psk1).Ok? && KeySchedule(h, m2, shared2, info2, psk2).Ok?
    requires var x, y := InnerOf(h, m1, shared1, info1, psk1), InnerOf(h, m2, shared2, info2, psk2);
             x.secret == y.secret && x.context == y.context
    ensures InputsBound(h, m1, shared1, info1, psk1, m2, shared2, info2, psk2)
  {
    var x, y := InnerOf(h, m1, shared1, info1, psk1), InnerOf(h, m2, shared2, info2, psk2);
    var k, s, p, q := h.Suite(), SuiteOf(h), PskOf(psk1), PskOf(psk2);
    ContextParts(m1, x.pskIdHash, x.infoHash, m2, y.pskIdHash, y.infoHash);
    ExtractBinds(k, s, PSK_ID_HASH, [], p.id, [], q.id);
    ExtractBinds(k, s, INFO_HASH, [], info1, [], info2);
    ExtractBinds(k, s, SECRET, shared1, p.value, shared2, q.value);
  }

  /** The inputs of two schedules under one label have the same expansion. */
  ghost predicate OutputsCollide(h: Hpke, name: bytes, x: Inner, y: Inner, len: nat) {
    var id := h.Suite().suiteId;
    ExpandCollision(h.kdf, x.secret, ExpandInput(id, name, x.context, len),
                    y.secret, ExpandInput(id, name, y.context, len), len)
  }

  lemma ScheduleBinds(h: Hpke, name: bytes, len: nat, m1: Mode, shared1: bytes, info1: bytes, psk1: Option<Psk>,
                      m2: Mode, shared2: bytes, info2: bytes, psk2: Option<Psk>)
    requires ExtractsToSize(h.kdf) && ExpandLabel(SuiteOf(h), name)
    requires KeySchedule(h, m1, shared1, info1, psk1).Ok? && KeySchedule(h, m2, shared2, info2, psk2).Ok?
    requires var x, y := InnerOf(h, m1, shared1, info1, psk1), InnerOf(h, m2, shared2, info2, psk2);
             && LabeledExpand(h.Suite(), x.secret, name, x.context, len).Some?
             && LabeledExpand(h.Suite(), x.secret, name, x.context, len)
                == LabeledExpand(h.Suite(), y.secret, name, y.context, len)
    ensures || InputsBound(h, m1, shared1, info1, psk1, m2, shared2, info2, psk2)
            || OutputsCollide(h, name, InnerOf(h, m1, shared1, info1, psk1), InnerOf(h, m2, shared2, info2, psk2), len)
  {
    var x, y := InnerOf(h, m1, shared1, info1, psk1), InnerOf(h, m2, shared2, info2, psk2);
    ExpandBinds(h.Suite(), SuiteOf(h), name, x.secret, x.context, y.secret, y.context, len);
    if x.secret == y.secret && x.context == y.context {
      InnerBinds(h, m1, shared1, info1, psk1, m2, shared2, info2, psk2);
    }
  }

  /** The exporter secret binds everything that went into the setup: two setups that end with
      the same one had the same mode, shared secret, info and PSK, or the two runs made
      different KDF inputs of one of four kinds and got the same output. */
  lemma ExporterBindsInputs(h: Hpke, m1: Mode, shared1: bytes, info1: bytes, psk1: Option<Psk>,
                            m2: Mode, shared2: bytes, info2: bytes, psk2: Option<Psk>)
    requires ExtractsToSize(h.kdf)
    requires KeySchedule(h, m1, shared1, info1, psk1).Ok? && KeySchedule(h, m2, shared2, info2, psk2).Ok?
    requires KeySchedule(h, m1, shared1, info1, psk1).value.exporterSecret
          == KeySchedule(h, m2, shared2, info2, psk2).value.exporterSecret
    ensures || InputsBound(h, m1, shared1, info1, psk1, m2, shared2, info2, psk2)
            || OutputsCollide(h, EXP, InnerOf(h, m1, shared1, info1, psk1), InnerOf(h, m2, shared2, info2, psk2),
                              h.kdf.extractSize)
  {
    ScheduleBinds(h, EXP, h.kdf.extractSize, m1, shared1, info1, psk1, m2, shared2, info2, psk2);
  }

  /** So does the AEAD key. */
  lemma KeyBindsInputs(h: Hpke, m1: Mode, shared1: bytes, info1: bytes, psk1: Option<Psk>,
                       m2: Mode, shared2: bytes, info2: bytes, psk2: Option<Psk>)
    requires ExtractsToSize(h.kdf) && h.aead.Some?
    requires KeySchedule(h, m1, shared1, info1, psk1).Ok? && KeySchedule(h, m2, shared2, info2, psk2).Ok?
    requires KeySchedule(h, m1, shared1, info1, psk1).value.encryption.value.key
          == KeySchedule(h, m2, shared2, info2, psk2).value.encryption.value.key
    ensures || InputsBound(h, m1, shared1, info1, psk1, m2, shared2, info2, psk2)
            || OutputsCollide(h, KEY, InnerOf(h, m1, shared1, info1, psk1), InnerOf(h, m2, shared2, info2, psk2),
                              h.aead.value.keySize)
  {
    ScheduleBinds(h, KEY, h.aead.value.keySize, m1, shared1, info1, psk1, m2, shared2, info2, psk2);
  }

  /** And the base nonce. */
  lemma NonceBindsInputs(h: Hpke, m1: Mode, shared1: bytes, info1: bytes, psk1: Option<Psk>,
                         m2: Mode, shared2: bytes, info2: bytes, psk2: Option<Psk>)
    requires ExtractsToSize(h.kdf) && h.aead.Some?
    requires KeySchedule(h, m1, shared1, info1, psk1).Ok? && KeySchedule(h, m2, shared2, info2, psk2).Ok?
    requires KeySchedule(h, m1, shared1, info1, psk1).value.encryption.value.baseNonce
          == KeySchedule(h, m2, shared2, info2, psk2).value.encryption.value.baseNonce
    ensures || InputsBound(h, m1, shared1, info1, psk1, m2, shared2, info2, psk2)
            || OutputsCollide(h, BASE_NONCE, InnerOf(h, m1, shared1, info1, psk1), InnerOf(h, m2, shared2, info2, psk2),
                              h.aead.value.nonceSize)
  {
    ScheduleBinds(h, BASE_NONCE, h.aead.value.nonceSize, m1, shared1, info1, psk1, m2, shared2, info2, psk2);
  }

  /** Two exports of one suite with the same result had the same exporter secret and context, or
      collide. */
  lemma ExportBinds(s: Suite, c1: Context, x1: bytes, c2: Context, x2: bytes, len: nat)
    requires s.HpkeSuite? && c1.suite == c2.suite && c1.suite.suiteId == SuiteId(s)
    requires Export(c1, x1, len).Ok? && Export(c1, x1, len) == Export(c2, x2, len)
    ensures || (c1.exporterSecret == c2.exporterSecret && x1 == x2)
            || ExpandCollision(c1.suite.kdf, c1.exporterSecret, ExpandInput(SuiteId(s), SEC, x1, len),
                               c2.exporterSecret, ExpandInput(SuiteId(s), SEC, x2, len), len)
  {
    ExpandBinds(c1.suite, s, SEC, c1.exporterSecret, x1, c2.exporterSecret, x2, len);
  }
}
