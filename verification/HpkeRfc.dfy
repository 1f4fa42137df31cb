/** The model against the pseudocode of RFC 9180, with labels as text and integers by position. */
module HpkeRfc {
  import opened Bytes
  import opened Wrappers
  import opened HpkeContext
  import opened DhKem
  import opened Hpke
  import HpkeNonce
  import K = HpkeKdf

  // ------------------------------------------------------------------
  // Section 4: labelled extract and expand
  // ------------------------------------------------------------------

  /** I2OSP: byte `i` is the digit of its power of 256. */
  function I2osp(n: nat, w: nat): bytes {
    seq(w, i requires 0 <= i < w => n / Pow256(w - 1 - i) % 256)
  }

  function LabeledExtract(kdf: K.Kdf, suiteId: bytes, salt: bytes, text: string, ikm: bytes): Option<bytes> {
    kdf.extract(salt, Ascii("HPKE-v1") + suiteId + Ascii(text) + ikm)
  }

  function LabeledExpand(kdf: K.Kdf, suiteId: bytes, prk: bytes, text: string, info: bytes, len: nat): Option<bytes> {
    kdf.expand(prk, I2osp(len, 2) + Ascii("HPKE-v1") + suiteId + Ascii(text) + info, len)
  }

  lemma I2ospIs(n: nat, w: nat)
    ensures I2osp(n, w) == ToBE(n, w)
  {
    forall i | 0 <= i < w ensures I2osp(n, w)[i] == ToBE(n, w)[i] { BigEndianAt(n, w, i); }
  }

  lemma PrefixTexts()
    ensures K.HPKE_V1 == Ascii("HPKE-v1") && K.SUITE_HPKE == Ascii("HPKE") && K.SUITE_KEM == Ascii("KEM")
  {
  }

  lemma ExtractLabelTexts()
    ensures K.PSK_ID_HASH == Ascii("psk_id_hash") && K.INFO_HASH == Ascii("info_hash") && K.SECRET == Ascii("secret")
  {
  }

  lemma ExpandLabelTexts()
    ensures K.KEY == Ascii("key") && K.BASE_NONCE == Ascii("base_nonce")
    ensures K.EXP == Ascii("exp") && K.SEC == Ascii("sec")
  {
  }

  lemma KemLabelTexts()
    ensures K.EAE_PRK == Ascii("eae_prk") && K.DKP_PRK == Ascii("dkp_prk")
    ensures K.SHARED_SECRET == Ascii("shared_secret") && K.CANDIDATE == Ascii("candidate") && K.SK == Ascii("sk")
  {
  }

  lemma ExtractIs(k: K.SuiteKdf, salt: bytes, name: bytes, text: string, ikm: bytes)
    requires name == Ascii(text)
    ensures K.LabeledExtract(k, salt, name, ikm) == LabeledExtract(k.kdf, k.suiteId, salt, text, ikm)
  {
    PrefixTexts();
  }

  lemma ExpandIs(k: K.SuiteKdf, key: bytes, name: bytes, text: string, info: bytes, len: nat)
    requires name == Ascii(text) && len < 0x1_0000
    ensures K.LabeledExpand(k, key, name, info, len) == LabeledExpand(k.kdf, k.suiteId, key, text, info, len)
  {
    PrefixTexts();
    I2ospIs(len, 2);
  }

  // ------------------------------------------------------------------
  // Section 4.1: the key encapsulation
  // ------------------------------------------------------------------

  function KemSuite(kemId: u16): bytes {
    Ascii("KEM") + I2osp(kemId, 2)
  }

  lemma KemSuiteIs(kem: Kem)
    ensures kem.Suite() == K.SuiteKdf(KemSuite(kem.kemId), kem.kdf)
  {
    PrefixTexts();
    I2ospIs(kem.kemId, 2);
  }

  function ExtractAndExpand(kem: Kem, dh: bytes, kemContext: bytes): Option<bytes> {
    var eaePrk := LabeledExtract(kem.kdf, KemSuite(kem.kemId), [], "eae_prk", dh);
    if eaePrk.None? then None
    else LabeledExpand(kem.kdf, KemSuite(kem.kemId), eaePrk.value, "shared_secret", kemContext, kem.secretSize)
  }

  lemma SharedIs(kem: Kem, dh: bytes, ctx: bytes)
    requires kem.secretSize < 0x1_0000
    ensures K.LabeledExtractThenExpand(kem.Suite(), dh, ctx, kem.secretSize) == ExtractAndExpand(kem, dh, ctx)
  {
    KemLabelTexts();
    KemSuiteIs(kem);
    var k := kem.Suite();
    ExtractIs(k, [], K.EAE_PRK, "eae_prk", dh);
    var prk := K.LabeledExtract(k, [], K.EAE_PRK, dh);
    if prk.Some? { ExpandIs(k, prk.value, K.SHARED_SECRET, "shared_secret", ctx, kem.secretSize); }
  }

  /** Encap(pkR) and Decap(enc, skR): the shared secret is extracted and expanded from DH(skE, pkR),
      or DH(skR, pkE), with context enc || pkRm. */
  lemma KemIsRfc(kem: Kem, ephemeral: KeyPair, remote: bytes, enc: bytes, local: KeyPair)
    requires kem.secretSize < 0x1_0000
    ensures Encap(kem, Some(ephemeral), remote) ==
            var dh := kem.dh.dh(ephemeral.secret, remote);
            if dh.None? then Err(DhFailed)
            else
              var shared := ExtractAndExpand(kem, dh.value, ephemeral.public + remote);
              if shared.None? then Err(KdfFailed) else Ok((shared.value, ephemeral.public))
    ensures Decap(kem, enc, local) ==
            var dh := kem.dh.dh(local.secret, enc);
            if dh.None? then Err(DhFailed)
            else
              var shared := ExtractAndExpand(kem, dh.value, enc + local.public);
              if shared.None? then Err(KdfFailed) else Ok(shared.value)
  {
    var a, b := kem.dh.dh(ephemeral.secret, remote), kem.dh.dh(local.secret, enc);
    if a.Some? { SharedIs(kem, a.value, ephemeral.public + remote); }
    if b.Some? { SharedIs(kem, b.value, enc + local.public); }
  }

  // ------------------------------------------------------------------
  // Section 7.1.3: key pairs from key material
  // ------------------------------------------------------------------

  /** The bytes of candidate number `i`, before the bitmask. */
  function CandidateBytes(kem: Kem, prk: bytes, i: byte): Option<bytes> {
    LabeledExpand(kem.kdf, KemSuite(kem.kemId), prk, "candidate", [i], kem.dh.secretKeySize)
  }

  /** A candidate is those bytes with the bitmask on the first one only. */
  lemma CandidateIsRfc(kem: Kem, prk: bytes, mask: byte, i: byte)
    requires ExpandsToLength(kem.kdf) && 0 < kem.dh.secretKeySize < 0x1_0000
    ensures var c, raw := Candidate(kem, prk, mask, i), CandidateBytes(kem, prk, i);
            && (c.Some? <==> raw.Some?)
            && (c.Some? ==>
                  && |c.value| == |raw.value| == kem.dh.secretKeySize
                  && c.value[0] == AndByte(raw.value[0], mask) && c.value[1..] == raw.value[1..])
  {
    KemLabelTexts();
    KemSuiteIs(kem);
    ExpandIs(kem.Suite(), prk, K.CANDIDATE, "candidate", [i], kem.dh.secretKeySize);
  }

  /** A mask of low bits leaves the first byte modulo a power of two. */
  lemma MaskIsModulo(b: byte, bits: nat)
    requires bits <= 8
    ensures Pow2(bits) <= 256
    ensures AndByte(b, Pow2(bits) - 1) == b % Pow2(bits)
  {
    BitPowers(bits);
    AndMask(b, bits);
  }

  lemma {:induction false} BitPowers(bits: nat)
    requires bits <= 8
    ensures Pow2(bits) * Pow2(8 - bits) == 256 && Pow2(bits) <= 256
  {
    if bits == 0 {
      assert Pow2(8) == 256;
    } else {
      BitPowers(bits - 1);
      assert Pow2(9 - bits) == 2 * Pow2(8 - bits);
      Halve(Pow2(bits - 1), Pow2(8 - bits));
    }
  }

  lemma Halve(p: nat, q: nat)
    requires p * (2 * q) == 256 && q >= 1
    ensures (2 * p) * q == 256 && 2 * p <= 256
  {
    MulAtLeast(q, 2 * p);
    assert (2 * p) * q == q * (2 * p);
  }

  /** DeriveKeyPair(ikm): the same key material, and without a bitmask the same secret key. */
  lemma DeriveIsRfc(kem: Kem, ikm: bytes, tries: nat)
    requires ExpandsToLength(kem.kdf) && 0 < kem.dh.secretKeySize < 0x1_0000 && tries <= 256
    ensures var prk := LabeledExtract(kem.kdf, KemSuite(kem.kemId), [], "dkp_prk", ikm);
            && (prk.None? ==> DerivedSecret(kem, ikm, tries) == Err(KdfFailed))
            && (prk.Some? && kem.dh.bitmask.Some? ==>
                  DerivedSecret(kem, ikm, tries) == Search(kem, prk.value, kem.dh.bitmask.value, 0, tries))
            && (prk.Some? && kem.dh.bitmask.None? ==>
                  var sk := LabeledExpand(kem.kdf, KemSuite(kem.kemId), prk.value, "sk", [], kem.dh.secretKeySize);
                  DerivedSecret(kem, ikm, tries)
                  == if sk.None? then Err(KdfFailed)
                     else if kem.dh.toPublic(sk.value).None? then Err(DhFailed) else Ok(sk.value))
  {
    KemLabelTexts();
    KemSuiteIs(kem);
    ExtractIs(kem.Suite(), [], K.DKP_PRK, "dkp_prk", ikm);
    var prk := K.LabeledExtract(kem.Suite(), [], K.DKP_PRK, ikm);
    if prk.Some? { ExpandIs(kem.Suite(), prk.value, K.SK, "sk", [], kem.dh.secretKeySize); }
  }

  // ------------------------------------------------------------------
  // Section 5.1: the key schedule
  // ------------------------------------------------------------------

  /** The suite of a ciphersuite, with 0xFFFF for export only. */
  function HpkeSuite(h: Hpke): bytes {
    Ascii("HPKE") + I2osp(h.kem.kemId, 2) + I2osp(h.kdf.id, 2)
    + I2osp(if h.aead.Some? then h.aead.value.id else 0xFFFF, 2)
  }

  lemma HpkeSuiteIs(h: Hpke)
    ensures h.Suite() == K.SuiteKdf(HpkeSuite(h), h.kdf)
  {
    PrefixTexts();
    I2ospIs(h.kem.kemId, 2);
    I2ospIs(h.kdf.id, 2);
    I2ospIs(if h.aead.Some? then h.aead.value.id else 0xFFFF, 2);
  }

  /** `secret` and `key_schedule_context`: mode 0 without a PSK, mode 1 with one. */
  datatype Schedule = Schedule(secret: bytes, context: bytes)

  function ScheduleOf(h: Hpke, shared: bytes, info: bytes, psk: Option<Psk>): Option<Schedule> {
    var suite := HpkeSuite(h);
    var pskId, pskValue := if psk.Some? then psk.value.id else [], if psk.Some? then psk.value.value else [];
    var pskIdHash := LabeledExtract(h.kdf, suite, [], "psk_id_hash", pskId);
    var infoHash := LabeledExtract(h.kdf, suite, [], "info_hash", info);
    var secret := LabeledExtract(h.kdf, suite, shared, "secret", pskValue);
    if pskIdHash.None? || infoHash.None? || secret.None? then None
    else Some(Schedule(secret.value, [if psk.Some? then 1 else 0] + pskIdHash.value + infoHash.value))
  }

  lemma InnerIs(h: Hpke, shared: bytes, info: bytes, psk: Option<Psk>)
    requires KeySchedule(h, BaseMode(psk), shared, info, psk).Ok?
    ensures var x := InnerOf(h, BaseMode(psk), shared, info, psk);
            ScheduleOf(h, shared, info, psk) == Some(Schedule(x.secret, x.context))
  {
    var k, p := h.Suite(), PskOf(psk);
    HpkeSuiteIs(h);
    ExtractLabelTexts();
    ExtractIs(k, [], K.PSK_ID_HASH, "psk_id_hash", p.id);
    ExtractIs(k, [], K.INFO_HASH, "info_hash", info);
    ExtractIs(k, shared, K.SECRET, "secret", p.value);
  }

  /** The context that KeySchedule of the RFC ends with: key, base nonce, exporter secret, counter zero. */
  ghost predicate IsRfcContext(h: Hpke, shared: bytes, info: bytes, psk: Option<Psk>, c: Context) {
    var s, id := ScheduleOf(h, shared, info, psk), HpkeSuite(h);
    && s.Some? && c.suite == h.Suite()
    && LabeledExpand(h.kdf, id, s.value.secret, "exp", s.value.context, h.kdf.extractSize) == Some(c.exporterSecret)
    && (c.encryption.Some? <==> h.aead.Some?)
    && (c.encryption.Some? ==>
          var e := c.encryption.value;
          && e.aead == h.aead.value && e.counter == 0
          && LabeledExpand(h.kdf, id, s.value.secret, "key", s.value.context, h.aead.value.keySize) == Some(e.key)
          && LabeledExpand(h.kdf, id, s.value.secret, "base_nonce", s.value.context, h.aead.value.nonceSize)
             == Some(e.baseNonce))
  }

  /** All lengths of the suite fit the two bytes that the RFC gives them. */
  ghost predicate SizesFit(h: Hpke) {
    && h.kdf.extractSize < 0x1_0000 && h.kem.secretSize < 0x1_0000
    && (h.aead.Some? ==> h.aead.value.keySize < 0x1_0000 && h.aead.value.nonceSize < 0x1_0000)
  }

  /** The key schedule is that of the RFC. A PSK of fewer than 32 bytes is refused, and no other is for
      its length. */
  lemma KeyScheduleIsRfc(h: Hpke, shared: bytes, info: bytes, psk: Option<Psk>)
    requires SizesFit(h)
    ensures KeySchedule(h, BaseMode(psk), shared, info, psk) == Err(InsufficientPskLength)
            <==> psk.Some? && |psk.value.value| < 32
    ensures KeySchedule(h, BaseMode(psk), shared, info, psk).Ok? ==>
              IsRfcContext(h, shared, info, psk, KeySchedule(h, BaseMode(psk), shared, info, psk).value)
  {
    if KeySchedule(h, BaseMode(psk), shared, info, psk).Ok? {
      InnerIs(h, shared, info, psk);
      HpkeSuiteIs(h);
      ExpandLabelTexts();
      var k, x := h.Suite(), InnerOf(h, BaseMode(psk), shared, info, psk);
      ExpandIs(k, x.secret, K.EXP, "exp", x.context, h.kdf.extractSize);
      if h.aead.Some? {
        ExpandIs(k, x.secret, K.KEY, "key", x.context, h.aead.value.keySize);
        ExpandIs(k, x.secret, K.BASE_NONCE, "base_nonce", x.context, h.aead.value.nonceSize);
      }
    }
  }

  /** SetupBaseS and SetupPSKS: the context comes from DH(skE, pkR), the two public keys, info and PSK. */
  lemma SetupSenderIsRfc(h: Hpke, ephemeral: KeyPair, remote: bytes, info: bytes, psk: Option<Psk>)
    requires SizesFit(h) && SetupSender(h, Some(ephemeral), remote, info, psk).Ok?
    ensures var (enc, c) := SetupSender(h, Some(ephemeral), remote, info, psk).value;
            var dh := h.kem.dh.dh(ephemeral.secret, remote);
            && enc == ephemeral.public && dh.Some?
            && var shared := ExtractAndExpand(h.kem, dh.value, ephemeral.public + remote);
               shared.Some? && IsRfcContext(h, shared.value, info, psk, c)
  {
    KemIsRfc(h.kem, ephemeral, remote, [], ephemeral);
    KeyScheduleIsRfc(h, Encap(h.kem, Some(ephemeral), remote).value.0, info, psk);
  }

  /** SetupBaseR and SetupPSKR. */
  lemma SetupReceiverIsRfc(h: Hpke, enc: bytes, local: KeyPair, info: bytes, psk: Option<Psk>)
    requires SizesFit(h) && SetupReceiver(h, enc, local, info, psk).Ok?
    ensures var c := SetupReceiver(h, enc, local, info, psk).value;
            var dh := h.kem.dh.dh(local.secret, enc);
            && dh.Some?
            && var shared := ExtractAndExpand(h.kem, dh.value, enc + local.public);
               shared.Some? && IsRfcContext(h, shared.value, info, psk, c)
  {
    KemIsRfc(h.kem, local, [], enc, local);
    KeyScheduleIsRfc(h, Decap(h.kem, enc, local).value, info, psk);
  }

  /** Section 5.3: Context.Export. */
  lemma ExportIsRfc(h: Hpke, c: Context, exporterContext: bytes, len: nat)
    requires c.suite == h.Suite() && len < 0x1_0000
    ensures var out := LabeledExpand(h.kdf, HpkeSuite(h), c.exporterSecret, "sec", exporterContext, len);
            Export(c, exporterContext, len) == if out.None? then Err(KdfError) else Ok(out.value)
  {
    HpkeSuiteIs(h);
    ExpandLabelTexts();
    ExpandIs(c.suite, c.exporterSecret, K.SEC, "sec", exporterContext, len);
  }

  lemma FirstNonce(base: bytes)
    ensures HpkeNonce.Nonce(base, 0) == base
  {
    forall i | 0 <= i < |base| ensures HpkeNonce.Nonce(base, 0)[i] == base[i] {
      var p := Pow256(|base| - 1 - i);
      DivModUnique(0, p, 0, 0);
      XorZero(base[i]);
    }
  }

  /** Section 6.1: a single-shot ciphertext is sealed with the key and base nonce of the sender's
      setup, over the given additional data. */
  lemma SealIsRfc(h: Hpke, ephemeral: Option<KeyPair>, remote: bytes, info: bytes, psk: Option<Psk>,
                  aad: Option<bytes>, pt: bytes, enc: bytes, ct: bytes)
    requires Seal(h, ephemeral, remote, info, psk, aad, pt) == Ok((enc, ct))
    ensures SetupSender(h, ephemeral, remote, info, psk).Ok?
    ensures var (e, c) := SetupSender(h, ephemeral, remote, info, psk).value;
            && e == enc && c.encryption.Some?
            && var s := c.encryption.value;
               s.aead.seal(s.key, pt, aad, s.baseNonce) == Some(ct)
  {
    var c := SetupSender(h, ephemeral, remote, info, psk).value.1;
    ScheduleUsesAead(h, BaseMode(psk), Encap(h.kem, ephemeral, remote).value.0, info, psk);
    FirstNonce(c.encryption.value.baseNonce);
  }

  /** And opened with those of the receiver's. */
  lemma OpenIsRfc(h: Hpke, enc: bytes, ct: bytes, local: KeyPair, info: bytes, psk: Option<Psk>,
                  aad: Option<bytes>, pt: bytes)
    requires Open(h, enc, ct, local, info, psk, aad) == Ok(pt)
    ensures SetupReceiver(h, enc, local, info, psk).Ok?
    ensures var c := SetupReceiver(h, enc, local, info, psk).value;
            c.encryption.Some? && var s := c.encryption.value;
            s.aead.open(s.key, ct, aad, s.baseNonce) == Some(pt)
  {
    var c := SetupReceiver(h, enc, local, info, psk).value;
    ScheduleUsesAead(h, BaseMode(psk), Decap(h.kem, enc, local).value, info, psk);
    FirstNonce(c.encryption.value.baseNonce);
  }
}
