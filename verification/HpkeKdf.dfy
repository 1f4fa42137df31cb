/** The labelled key derivation of HPKE (section 4 of RFC 9180) and the separation of its inputs. */
module HpkeKdf {
  import opened Bytes
  import opened Wrappers

  /** A key derivation function: extract from salt and input, expand from key, info and length. */
  datatype Kdf = Kdf(
    id: u16,
    extractSize: nat,
    extract: (bytes, bytes) -> Option<bytes>,
    expand: (bytes, bytes, nat) -> Option<bytes>)

  datatype SuiteKdf = SuiteKdf(suiteId: bytes, kdf: Kdf)

  // ASCII, one constant per label

  const HPKE_V1: bytes := [72, 80, 75, 69, 45, 118, 49]
  const SUITE_HPKE: bytes := [72, 80, 75, 69]
  const SUITE_KEM: bytes := [75, 69, 77]
  const PSK_ID_HASH: bytes := [112, 115, 107, 95, 105, 100, 95, 104, 97, 115, 104]
  const INFO_HASH: bytes := [105, 110, 102, 111, 95, 104, 97, 115, 104]
  const SECRET: bytes := [115, 101, 99, 114, 101, 116]
  const KEY: bytes := [107, 101, 121]
  const BASE_NONCE: bytes := [98, 97, 115, 101, 95, 110, 111, 110, 99, 101]
  const EXP: bytes := [101, 120, 112]
  const SEC: bytes := [115, 101, 99]
  const EAE_PRK: bytes := [101, 97, 101, 95, 112, 114, 107]
  const DKP_PRK: bytes := [100, 107, 112, 95, 112, 114, 107]
  const SHARED_SECRET: bytes := [115, 104, 97, 114, 101, 100, 95, 115, 101, 99, 114, 101, 116]
  const CANDIDATE: bytes := [99, 97, 110, 100, 105, 100, 97, 116, 101]
  const SK: bytes := [115, 107]

  /** The suite identifier of `Hpke::new`. */
  function HpkeSuiteId(kemId: u16, kdfId: u16, aeadId: u16): bytes {
    SUITE_HPKE + ToBE(kemId, 2) + ToBE(kdfId, 2) + ToBE(aeadId, 2)
  }

  /** The suite identifier of `DhKem::new`. */
  function KemSuiteId(kemId: u16): bytes {
    SUITE_KEM + ToBE(kemId, 2)
  }

  function ExtractInput(suiteId: bytes, name: bytes, ikm: bytes): bytes {
    HPKE_V1 + suiteId + name + ikm
  }

  /** The requested length is cut to 16 bits, as `len as u16` does. */
  function ExpandInput(suiteId: bytes, name: bytes, info: bytes, len: nat): bytes {
    ToBE(len % 0x1_0000, 2) + HPKE_V1 + suiteId + name + info
  }

  function LabeledExtract(k: SuiteKdf, salt: bytes, name: bytes, ikm: bytes): Option<bytes> {
    k.kdf.extract(salt, ExtractInput(k.suiteId, name, ikm))
  }

  function LabeledExpand(k: SuiteKdf, key: bytes, name: bytes, info: bytes, len: nat): Option<bytes> {
    k.kdf.expand(key, ExpandInput(k.suiteId, name, info, len), len)
  }

  function LabeledExtractThenExpand(k: SuiteKdf, ikm: bytes, ctx: bytes, len: nat): Option<bytes> {
    var prk := LabeledExtract(k, [], EAE_PRK, ikm);
    if prk.None? then None else LabeledExpand(k, prk.value, SHARED_SECRET, ctx, len)
  }

  // ------------------------------------------------------------------
  // Input separation
  // ------------------------------------------------------------------

  /** A suite: the key encapsulation's own, or the key schedule's. */
  datatype Suite = KemSuite(kemId: u16) | HpkeSuite(kemId: u16, kdfId: u16, aeadId: u16)

  function SuiteId(s: Suite): bytes {
    match s
    case KemSuite(kem) => KemSuiteId(kem)
    case HpkeSuite(kem, kdf, aead) => HpkeSuiteId(kem, kdf, aead)
  }

  /** The labels that each side uses for extracting and for expanding. */
  predicate ExtractLabel(s: Suite, name: bytes) {
    if s.KemSuite? then name == EAE_PRK || name == DKP_PRK
    else name == PSK_ID_HASH || name == INFO_HASH || name == SECRET
  }

  predicate ExpandLabel(s: Suite, name: bytes) {
    if s.KemSuite? then name == SHARED_SECRET || name == CANDIDATE || name == SK
    else name == KEY || name == BASE_NONCE || name == EXP || name == SEC
  }

  lemma SplitConcat(a: bytes, x: bytes, b: bytes, y: bytes)
    requires |a| == |b| && a + x == b + y
    ensures a == b && x == y
  {
    assert a == (a + x)[..|a|] && b == (b + y)[..|b|];
    assert x == (a + x)[|a|..] && y == (b + y)[|b|..];
  }

  /** Removes equally long fronts from two four-part concatenations. */
  lemma Peel(p: bytes, u: bytes, a: bytes, x: bytes, q: bytes, v: bytes, b: bytes, y: bytes)
    requires |p| == |q| && p + u + a + x == q + v + b + y
    ensures p == q && u + (a + x) == v + (b + y)
  {
    assert p + u + a + x == p + (u + (a + x));
    assert q + v + b + y == q + (v + (b + y));
    SplitConcat(p, u + (a + x), q, v + (b + y));
  }

  lemma IdInjective(m: u16, n: u16)
    requires ToBE(m, 2) == ToBE(n, 2)
    ensures m == n
  {
    assert Pow256(2) == 256 * Pow256(1) == 0x1_0000;
    ToBEInjective(m, n, 2);
  }

  /** Suite identifiers are prefix-free: they determine the suite, whatever follows. */
  lemma SuiteIdPrefixFree(s: Suite, x: bytes, t: Suite, y: bytes)
    requires SuiteId(s) + x == SuiteId(t) + y
    ensures s == t && x == y
  {
    var p, q := SuiteId(s), SuiteId(t);
    assert (p + x)[0] == p[0] && (q + y)[0] == q[0];
    SplitConcat(p, x, q, y);
    if s.KemSuite? {
      SplitConcat(SUITE_KEM, ToBE(s.kemId, 2), SUITE_KEM, ToBE(t.kemId, 2));
      IdInjective(s.kemId, t.kemId);
    } else {
      HpkeSuiteIdInjective(s, t);
    }
  }

  lemma HpkeSuiteIdInjective(s: Suite, t: Suite)
    requires s.HpkeSuite? && t.HpkeSuite? && SuiteId(s) == SuiteId(t)
    ensures s == t
  {
    var a, b, c := ToBE(s.kemId, 2), ToBE(s.kdfId, 2), ToBE(s.aeadId, 2);
    var d, e, f := ToBE(t.kemId, 2), ToBE(t.kdfId, 2), ToBE(t.aeadId, 2);
    SplitConcat(SUITE_HPKE + a + b, c, SUITE_HPKE + d + e, f);
    SplitConcat(SUITE_HPKE + a, b, SUITE_HPKE + d, e);
    SplitConcat(SUITE_HPKE, a, SUITE_HPKE, d);
    IdInjective(s.kemId, t.kemId);
    IdInjective(s.kdfId, t.kdfId);
    IdInjective(s.aeadId, t.aeadId);
  }

  /** Two labels that differ within their common length. */
  predicate Differ(a: bytes, b: bytes) {
    |a| >= 2 && |b| >= 2 && (a[0] != b[0] || a[1] != b[1])
  }

  lemma DifferentLabelsDiffer(a: bytes, x: bytes, b: bytes, y: bytes)
    requires Differ(a, b)
    ensures a + x != b + y
  {
    assert (a + x)[0] == a[0] && (b + y)[0] == b[0];
    assert (a + x)[1] == a[1] && (b + y)[1] == b[1];
  }

  lemma ExtractLabelsDiffer(s: Suite, a: bytes, b: bytes)
    requires ExtractLabel(s, a) && ExtractLabel(s, b) && a != b
    ensures Differ(a, b)
  {
  }

  lemma ExpandLabelsDiffer(s: Suite, a: bytes, b: bytes)
    requires ExpandLabel(s, a) && ExpandLabel(s, b) && a != b
    ensures Differ(a, b)
  {
  }

  /** Every extraction input determines its suite, its label and its key material. */
  lemma ExtractInputsSeparate(s: Suite, a: bytes, x: bytes, t: Suite, b: bytes, y: bytes)
    requires ExtractLabel(s, a) && ExtractLabel(t, b)
    requires ExtractInput(SuiteId(s), a, x) == ExtractInput(SuiteId(t), b, y)
    ensures s == t && a == b && x == y
  {
    Peel(HPKE_V1, SuiteId(s), a, x, HPKE_V1, SuiteId(t), b, y);
    SuiteIdPrefixFree(s, a + x, t, b + y);
    if a != b {
      ExtractLabelsDiffer(s, a, b);
      DifferentLabelsDiffer(a, x, b, y);
    }
    SplitConcat(a, x, b, y);
  }

  /** Every expansion input determines its suite, label and info, and the length up to 2^16. */
  lemma ExpandInputsSeparate(s: Suite, a: bytes, x: bytes, m: nat, t: Suite, b: bytes, y: bytes, n: nat)
    requires ExpandLabel(s, a) && ExpandLabel(t, b)
    requires ExpandInput(SuiteId(s), a, x, m) == ExpandInput(SuiteId(t), b, y, n)
    ensures s == t && a == b && x == y && m % 0x1_0000 == n % 0x1_0000
  {
    var p, q := ToBE(m % 0x1_0000, 2), ToBE(n % 0x1_0000, 2);
    Peel(p + HPKE_V1, SuiteId(s), a, x, q + HPKE_V1, SuiteId(t), b, y);
    SplitConcat(p, HPKE_V1, q, HPKE_V1);
    IdInjective(m % 0x1_0000, n % 0x1_0000);
    SuiteIdPrefixFree(s, a + x, t, b + y);
    if a != b {
      ExpandLabelsDiffer(s, a, b);
      DifferentLabelsDiffer(a, x, b, y);
    }
    SplitConcat(a, x, b, y);
  }

  /** No input is used for both: extraction and expansion never meet. */
  lemma ExtractNeverExpand(s: Suite, a: bytes, x: bytes, t: Suite, b: bytes, y: bytes, n: nat)
    ensures ExtractInput(SuiteId(s), a, x) != ExpandInput(SuiteId(t), b, y, n)
  {
    assert ExtractInput(SuiteId(s), a, x)[2] == HPKE_V1[2];
    assert ExpandInput(SuiteId(t), b, y, n)[2] == HPKE_V1[0];
  }

  /** The length field wraps: requests that differ by 2^16 bytes share an input. */
  lemma LengthsWrap(suiteId: bytes, name: bytes, info: bytes, len: nat)
    ensures ExpandInput(suiteId, name, info, len) == ExpandInput(suiteId, name, info, len + 0x1_0000)
  {
    assert (len + 0x1_0000) % 0x1_0000 == len % 0x1_0000;
  }

  // ------------------------------------------------------------------
  // Binding
  // ------------------------------------------------------------------

  /** Two different KDF inputs with the same output. */
  ghost predicate ExtractCollision(kdf: Kdf, s1: bytes, i1: bytes, s2: bytes, i2: bytes) {
    (s1, i1) != (s2, i2) && kdf.extract(s1, i1).Some? && kdf.extract(s1, i1) == kdf.extract(s2, i2)
  }

  ghost predicate ExpandCollision(kdf: Kdf, k1: bytes, i1: bytes, k2: bytes, i2: bytes, len: nat) {
    (k1, i1) != (k2, i2) && kdf.expand(k1, i1, len).Some? && kdf.expand(k1, i1, len) == kdf.expand(k2, i2, len)
  }

  /** Under one label, equal extractions come from equal salt and key material, or collide. */
  lemma ExtractBinds(k: SuiteKdf, s: Suite, name: bytes, salt1: bytes, ikm1: bytes, salt2: bytes, ikm2: bytes)
    requires k.suiteId == SuiteId(s) && ExtractLabel(s, name)
    requires LabeledExtract(k, salt1, name, ikm1).Some?
    requires LabeledExtract(k, salt1, name, ikm1) == LabeledExtract(k, salt2, name, ikm2)
    ensures || (salt1 == salt2 && ikm1 == ikm2)
            || ExtractCollision(k.kdf, salt1, ExtractInput(k.suiteId, name, ikm1),
                                salt2, ExtractInput(k.suiteId, name, ikm2))
  {
    if ExtractInput(k.suiteId, name, ikm1) == ExtractInput(k.suiteId, name, ikm2) {
      ExtractInputsSeparate(s, name, ikm1, s, name, ikm2);
    }
  }

  /** Under one label, equal expansions come from equal keys and contexts, or collide. */
  lemma ExpandBinds(k: SuiteKdf, s: Suite, name: bytes, key1: bytes, ctx1: bytes, key2: bytes, ctx2: bytes, len: nat)
    requires k.suiteId == SuiteId(s) && ExpandLabel(s, name)
    requires LabeledExpand(k, key1, name, ctx1, len).Some?
    requires LabeledExpand(k, key1, name, ctx1, len) == LabeledExpand(k, key2, name, ctx2, len)
    ensures || (key1 == key2 && ctx1 == ctx2)
            || ExpandCollision(k.kdf, key1, ExpandInput(k.suiteId, name, ctx1, len),
                               key2, ExpandInput(k.suiteId, name, ctx2, len), len)
  {
    if ExpandInput(k.suiteId, name, ctx1, len) == ExpandInput(k.suiteId, name, ctx2, len) {
      ExpandInputsSeparate(s, name, ctx1, len, s, name, ctx2, len);
    }
  }
}
