/** The Diffie-Hellman key encapsulation (section 4.1 of RFC 9180) and key derivation
    (section 7.1.3). */
module DhKem {
  import opened Bytes
  import opened Wrappers
  import opened HpkeKdf

  /** A Diffie-Hellman group, by its functions. */
  datatype Dh = Dh(
    secretKeySize: nat,
    bitmask: Option<byte>,
    toPublic: bytes -> Option<bytes>,
    dh: (bytes, bytes) -> Option<bytes>)

  datatype DhKemError = KdfFailed | DhFailed | KeyDerivation

  type KemResult<+T> = Result<T, DhKemError>

  datatype Kem = Kem(kemId: u16, secretSize: nat, kdf: Kdf, dh: Dh) {
    function Suite(): SuiteKdf { SuiteKdf(KemSuiteId(kemId), kdf) }
  }

  datatype KeyPair = KeyPair(secret: bytes, public: bytes)

  ghost predicate IsKeyPair(dh: Dh, k: KeyPair) {
    dh.toPublic(k.secret) == Some(k.public)
  }

  /** Both sides of an exchange compute the same secret. */
  ghost predicate Commutes(dh: Dh) {
    forall a: KeyPair, b: KeyPair {:trigger dh.dh(a.secret, b.public)} ::
      IsKeyPair(dh, a) && IsKeyPair(dh, b) ==> dh.dh(a.secret, b.public) == dh.dh(b.secret, a.public)
  }

  /** `encap` with the key pair that `generate` returned, if it did: shared secret and `enc`. */
  function Encap(kem: Kem, ephemeral: Option<KeyPair>, remote: bytes): KemResult<(bytes, bytes)> {
    if ephemeral.None? then Err(DhFailed)
    else
      var k := ephemeral.value;
      var ss := kem.dh.dh(k.secret, remote);
      if ss.None? then Err(DhFailed)
      else
        var shared := LabeledExtractThenExpand(kem.Suite(), ss.value, k.public + remote, kem.secretSize);
        if shared.None? then Err(KdfFailed) else Ok((shared.value, k.public))
  }

  function Decap(kem: Kem, enc: bytes, local: KeyPair): KemResult<bytes> {
    var ss := kem.dh.dh(local.secret, enc);
    if ss.None? then Err(DhFailed)
    else
      var shared := LabeledExtractThenExpand(kem.Suite(), ss.value, enc + local.public, kem.secretSize);
      if shared.None? then Err(KdfFailed) else Ok(shared.value)
  }

  /** Decapsulation returns the encapsulated secret. */
  lemma DecapUndoesEncap(kem: Kem, ephemeral: KeyPair, local: KeyPair)
    requires Commutes(kem.dh) && IsKeyPair(kem.dh, ephemeral) && IsKeyPair(kem.dh, local)
    requires Encap(kem, Some(ephemeral), local.public).Ok?
    ensures var (shared, enc) := Encap(kem, Some(ephemeral), local.public).value;
            Decap(kem, enc, local) == Ok(shared)
  {
    assert kem.dh.dh(ephemeral.secret, local.public) == kem.dh.dh(local.secret, ephemeral.public);
  }

  /** What a shared secret comes from: a Diffie-Hellman output and the two public keys. */
  ghost predicate SharedBound(kem: Kem, dh1: bytes, ctx1: bytes, dh2: bytes, ctx2: bytes) {
    var id, n := KemSuiteId(kem.kemId), kem.secretSize;
    var prk1 := kem.kdf.extract([], ExtractInput(id, EAE_PRK, dh1));
    var prk2 := kem.kdf.extract([], ExtractInput(id, EAE_PRK, dh2));
    || (dh1 == dh2 && ctx1 == ctx2)
    || ExtractCollision(kem.kdf, [], ExtractInput(id, EAE_PRK, dh1), [], ExtractInput(id, EAE_PRK, dh2))
    || (prk1.Some? && prk2.Some? &&
        ExpandCollision(kem.kdf, prk1.value, ExpandInput(id, SHARED_SECRET, ctx1, n),
                        prk2.value, ExpandInput(id, SHARED_SECRET, ctx2, n), n))
  }

  lemma SharedSecretBinds(kem: Kem, dh1: bytes, ctx1: bytes, dh2: bytes, ctx2: bytes)
    requires LabeledExtractThenExpand(kem.Suite(), dh1, ctx1, kem.secretSize).Some?
    requires LabeledExtractThenExpand(kem.Suite(), dh1, ctx1, kem.secretSize)
          == LabeledExtractThenExpand(kem.Suite(), dh2, ctx2, kem.secretSize)
    ensures SharedBound(kem, dh1, ctx1, dh2, ctx2)
  {
    var k, s := kem.Suite(), KemSuite(kem.kemId);
    var prk1, prk2 := LabeledExtract(k, [], EAE_PRK, dh1).value, LabeledExtract(k, [], EAE_PRK, dh2).value;
    ExpandBinds(k, s, SHARED_SECRET, prk1, ctx1, prk2, ctx2, kem.secretSize);
    if prk1 == prk2 { ExtractBinds(k, s, EAE_PRK, [], dh1, [], dh2); }
  }

  /** Two encapsulations with the same shared secret had the same Diffie-Hellman output and public
      keys, or show a KDF collision between their inputs. */
  lemma EncapBinds(kem: Kem, e1: KeyPair, r1: bytes, e2: KeyPair, r2: bytes)
    requires Encap(kem, Some(e1), r1).Ok? && Encap(kem, Some(e2), r2).Ok?
    requires Encap(kem, Some(e1), r1).value.0 == Encap(kem, Some(e2), r2).value.0
    ensures var dh1, dh2 := kem.dh.dh(e1.secret, r1), kem.dh.dh(e2.secret, r2);
            dh1.Some? && dh2.Some? && SharedBound(kem, dh1.value, e1.public + r1, dh2.value, e2.public + r2)
  {
    SharedSecretBinds(kem, kem.dh.dh(e1.secret, r1).value, e1.public + r1, kem.dh.dh(e2.secret, r2).value, e2.public + r2);
  }

  /** So it is for two decapsulations. */
  lemma DecapBinds(kem: Kem, enc1: bytes, l1: KeyPair, enc2: bytes, l2: KeyPair)
    requires Decap(kem, enc1, l1).Ok? && Decap(kem, enc1, l1) == Decap(kem, enc2, l2)
    ensures var dh1, dh2 := kem.dh.dh(l1.secret, enc1), kem.dh.dh(l2.secret, enc2);
            dh1.Some? && dh2.Some? && SharedBound(kem, dh1.value, enc1 + l1.public, dh2.value, enc2 + l2.public)
  {
    SharedSecretBinds(kem, kem.dh.dh(l1.secret, enc1).value, enc1 + l1.public,
                      kem.dh.dh(l2.secret, enc2).value, enc2 + l2.public);
  }

  // ------------------------------------------------------------------
  // Key derivation with rejection sampling
  // ------------------------------------------------------------------

  /** The masked candidate with this number, unless expanding it fails. */
  function Candidate(kem: Kem, prk: bytes, mask: byte, i: byte): (c: Option<bytes>)
    requires ExpandsToLength(kem.kdf) && kem.dh.secretKeySize > 0
  {
    var c := LabeledExpand(kem.Suite(), prk, CANDIDATE, [i], kem.dh.secretKeySize);
    if c.None? then None else
    assert |c.value| == kem.dh.secretKeySize;
    Some(c.value[0 := AndByte(c.value[0], mask)])
  }

  /** Expanding yields as many bytes as asked for. */
  ghost predicate ExpandsToLength(kdf: Kdf) {
    forall key, info, len ::
      var out := kdf.expand(key, info, len);
      out.Some? ==> |out.value| == len
  }

  /** Candidate `i` is produced, and `to_public` does not accept it as a secret key. */
  ghost predicate Rejected(kem: Kem, prk: bytes, mask: byte, i: byte)
    requires ExpandsToLength(kem.kdf) && kem.dh.secretKeySize > 0
  {
    var c := Candidate(kem, prk, mask, i);
    c.Some? && kem.dh.toPublic(c.value).None?
  }

  /** The search over candidate numbers from `i` up to, not including, `tries`. */
  ghost function Search(kem: Kem, prk: bytes, mask: byte, i: nat, tries: nat): KemResult<bytes>
    requires ExpandsToLength(kem.kdf) && kem.dh.secretKeySize > 0 && i <= tries <= 256
    decreases tries - i
  {
    if i == tries then Err(KeyDerivation)
    else
      var c := Candidate(kem, prk, mask, i);
      if c.None? then Err(KdfFailed)
      else if kem.dh.toPublic(c.value).Some? then Ok(c.value)
      else Search(kem, prk, mask, i + 1, tries)
  }

  /** `derive_with_rejection_sampling`: numbers 0 to 254. */
  method DeriveWithRejectionSampling(kem: Kem, prk: bytes, mask: byte) returns (r: KemResult<KeyPair>)
    requires ExpandsToLength(kem.kdf) && kem.dh.secretKeySize > 0
    ensures r.Ok? ==> Search(kem, prk, mask, 0, 255) == Ok(r.value.secret) && IsKeyPair(kem.dh, r.value)
    ensures r.Err? ==> Search(kem, prk, mask, 0, 255) == Err(r.error)
  {
    for i := 0 to 255
      invariant Search(kem, prk, mask, 0, 255) == Search(kem, prk, mask, i, 255)
    {
      var n: byte := i;
      var c := LabeledExpand(kem.Suite(), prk, CANDIDATE, [n], kem.dh.secretKeySize);
      if c.None? { return Err(KdfFailed); }
      var secret := c.value;
      secret := secret[0 := AndByte(secret[0], mask)];
      var public := kem.dh.toPublic(secret);
      if public.Some? { return Ok(KeyPair(secret, public.value)); }
    }
    r := Err(KeyDerivation);
  }

  /** `derive_without_rejection_sampling`. */
  function DeriveDirectly(kem: Kem, prk: bytes): KemResult<KeyPair> {
    var secret := LabeledExpand(kem.Suite(), prk, SK, [], kem.dh.secretKeySize);
    if secret.None? then Err(KdfFailed)
    else
      var public := kem.dh.toPublic(secret.value);
      if public.None? then Err(DhFailed) else Ok(KeyPair(secret.value, public.value))
  }

  /** The secret key that `derive` finds: with or without a bitmask. */
  ghost function DerivedSecret(kem: Kem, ikm: bytes, tries: nat): KemResult<bytes>
    requires ExpandsToLength(kem.kdf) && kem.dh.secretKeySize > 0 && tries <= 256
  {
    var prk := LabeledExtract(kem.Suite(), [], DKP_PRK, ikm);
    if prk.None? then Err(KdfFailed)
    else if kem.dh.bitmask.Some? then Search(kem, prk.value, kem.dh.bitmask.value, 0, tries)
    else
      var pair :- DeriveDirectly(kem, prk.value);
      Ok(pair.secret)
  }

  /** `derive`: a key pair from key material. */
  method Derive(kem: Kem, ikm: bytes) returns (r: KemResult<KeyPair>)
    requires ExpandsToLength(kem.kdf) && kem.dh.secretKeySize > 0
    ensures r.Ok? ==> DerivedSecret(kem, ikm, 255) == Ok(r.value.secret) && IsKeyPair(kem.dh, r.value)
    ensures r.Err? ==> DerivedSecret(kem, ikm, 255) == Err(r.error)
  {
    var prk := LabeledExtract(kem.Suite(), [], DKP_PRK, ikm);
    if prk.None? { return Err(KdfFailed); }
    if kem.dh.bitmask.Some? {
      r := DeriveWithRejectionSampling(kem, prk.value, kem.dh.bitmask.value);
    } else {
      r := DeriveDirectly(kem, prk.value);
    }
  }

  /** The key found is the first usable candidate: every lower number was rejected. */
  lemma {:induction false} SearchFindsFirst(kem: Kem, prk: bytes, mask: byte, i: nat, tries: nat, secret: bytes)
    requires ExpandsToLength(kem.kdf) && kem.dh.secretKeySize > 0 && i <= tries <= 256
    ensures Search(kem, prk, mask, i, tries) == Ok(secret)
            <==> exists n: byte :: i <= n < tries && Candidate(kem, prk, mask, n) == Some(secret)
                   && kem.dh.toPublic(secret).Some?
                   && forall j: byte :: i <= j < n ==> Rejected(kem, prk, mask, j)
    decreases tries - i
  {
    if i < tries {
      SearchFindsFirst(kem, prk, mask, i + 1, tries, secret);
      var here: byte := i;
      var c := Candidate(kem, prk, mask, here);
      if c.Some? && kem.dh.toPublic(c.value).None? {
        assert Rejected(kem, prk, mask, here);
      } else {
        assert !Rejected(kem, prk, mask, here);
      }
    }
  }

  lemma {:induction false} SearchExtends(kem: Kem, prk: bytes, mask: byte, i: nat)
    requires ExpandsToLength(kem.kdf) && kem.dh.secretKeySize > 0 && i <= 255
    ensures Search(kem, prk, mask, i, 255) == Err(KeyDerivation)
            <==> forall j: byte :: i <= j < 255 ==> Rejected(kem, prk, mask, j)
    ensures Search(kem, prk, mask, i, 255) != Err(KeyDerivation) ==>
              Search(kem, prk, mask, i, 256) == Search(kem, prk, mask, i, 255)
    ensures Search(kem, prk, mask, i, 255) == Err(KeyDerivation) ==>
              Search(kem, prk, mask, i, 256) == Search(kem, prk, mask, 255, 256)
    decreases 255 - i
  {
    if i < 255 {
      SearchExtends(kem, prk, mask, i + 1);
      var here: byte := i;
      var c := Candidate(kem, prk, mask, here);
      assert Rejected(kem, prk, mask, here) <==> c.Some? && kem.dh.toPublic(c.value).None?;
    }
  }

  /** The RFC allows one try more, number 255. The two searches agree exactly when an earlier
      number decides, or number 255 is rejected as well. */
  lemma AgreesWithRfcIff(kem: Kem, prk: bytes, mask: byte)
    requires ExpandsToLength(kem.kdf) && kem.dh.secretKeySize > 0
    ensures Search(kem, prk, mask, 0, 255) == Search(kem, prk, mask, 0, 256)
            <==> (exists j: byte :: j < 255 && !Rejected(kem, prk, mask, j)) || Rejected(kem, prk, mask, 255)
  {
    SearchExtends(kem, prk, mask, 0);
  }

  /** A KDF that repeats the last byte of its input, and a group that accepts the key 255 only. */
  function RepeatLast(key: bytes, info: bytes, len: nat): Option<bytes> {
    Some(seq(len, _ => if info == [] then 0 else info[|info| - 1]))
  }

  function OnlyLast(secret: bytes): Option<bytes> {
    if secret == [255] then Some(secret) else None
  }

  lemma RepeatedByte(k: SuiteKdf, prk: bytes, name: bytes, i: byte)
    requires k.kdf.expand == RepeatLast
    ensures LabeledExpand(k, prk, name, [i], 1) == Some([i])
  {
    var info := ExpandInput(k.suiteId, name, [i], 1);
    assert info[|info| - 1] == i;
    assert RepeatLast(prk, info, 1).value == [i];
  }

  /** With these, candidate `i` is the key `i`. */
  lemma LastTryOnly(kem: Kem, prk: bytes, i: byte)
    requires kem.kdf.expand == RepeatLast && kem.dh.toPublic == OnlyLast && kem.dh.secretKeySize == 1
    ensures ExpandsToLength(kem.kdf)
    ensures Candidate(kem, prk, 255, i) == Some([i]) && (Rejected(kem, prk, 255, i) <==> i < 255)
  {
    RepeatedByte(kem.Suite(), prk, CANDIDATE, i);
    FullMask(i);
    assert [i][0 := i] == [i];
    assert i < 255 ==> [i][0] != [255][0];
  }

  lemma FullMask(i: byte)
    ensures AndByte(i, 255) == i
  {
    assert Pow2(8) == 256;
    AndOnes(i, 255, 8);
  }

  /** The two searches do differ: the RFC finds a key at number 255, which the source never tries. */
  lemma SearchesDiffer(prk: bytes) returns (kem: Kem)
    ensures ExpandsToLength(kem.kdf) && kem.dh.secretKeySize > 0
    ensures Search(kem, prk, 255, 0, 255) != Search(kem, prk, 255, 0, 256)
  {
    kem := Kem(0, 1, Kdf(0, 1, (salt, ikm) => None, RepeatLast), Dh(1, None, OnlyLast, (secret, public) => None));
    LastTryOnly(kem, prk, 255);
    forall j: byte ensures Rejected(kem, prk, 255, j) <==> j < 255 { LastTryOnly(kem, prk, j); }
    AgreesWithRfcIff(kem, prk, 255);
  }
}
