/** Bytes, fixed-width big-endian integers and the bit operations of the
    machine integers that the repository's codecs and nonces are written in. */
module Bytes {

  type byte = x: int | 0 <= x < 256

  type bytes = seq<byte>

  type u16 = n: nat | n < 0x1_0000

  const U64_SIZE: nat := 0x1_0000_0000_0000_0000

  type u64 = n: nat | n < U64_SIZE

  function Min(a: int, b: int): int { if a <= b then a else b }

  // ------------------------------------------------------------------
  // Powers
  // ------------------------------------------------------------------

  function Pow2(k: nat): (p: nat)
    ensures p >= 1
  {
    if k == 0 then 1 else 2 * Pow2(k - 1)
  }

  function Pow256(w: nat): (p: nat)
    ensures p >= 1
  {
    if w == 0 then 1 else 256 * Pow256(w - 1)
  }

  lemma {:induction false} Pow256Monotonic(a: nat, b: nat)
    requires a <= b
    ensures Pow256(a) <= Pow256(b)
    decreases b - a
  {
    if a < b { Pow256Monotonic(a, b - 1); }
  }

  // ------------------------------------------------------------------
  // Big-endian integers (to_be_bytes, from_be_bytes)
  // ------------------------------------------------------------------

  /** The low `w` bytes of `n`, most significant first. */
  function ToBE(n: nat, w: nat): (bs: bytes)
    ensures |bs| == w
  {
    if w == 0 then [] else ToBE(n / 256, w - 1) + [n % 256]
  }

  function FromBE(bs: bytes): nat {
    if bs == [] then 0 else 256 * FromBE(bs[..|bs| - 1]) + bs[|bs| - 1]
  }

  lemma {:induction false} FromBEBound(bs: bytes)
    ensures FromBE(bs) < Pow256(|bs|)
  {
    if bs != [] { FromBEBound(bs[..|bs| - 1]); }
  }

  lemma {:induction false} FromToBE(n: nat, w: nat)
    requires n < Pow256(w)
    ensures FromBE(ToBE(n, w)) == n
  {
    if w > 0 {
      FromToBE(n / 256, w - 1);
      assert ToBE(n, w)[..w - 1] == ToBE(n / 256, w - 1);
    }
  }

  lemma {:induction false} ToFromBE(bs: bytes)
    ensures ToBE(FromBE(bs), |bs|) == bs
  {
    if bs != [] {
      ToFromBE(bs[..|bs| - 1]);
      assert FromBE(bs) / 256 == FromBE(bs[..|bs| - 1]);
    }
  }

  lemma OneByte(b: byte)
    ensures ToBE(b, 1) == [b] && FromBE([b]) == b && Pow256(1) == 256
  {
    var high, none: bytes := b / 256, [];
    assert high == 0 && b % 256 == b;
    assert ToBE(high, 0) == none;
    assert [b][..0] == none && FromBE(none) == 0;
  }

  /** Position by position: byte `i` is the digit of its power of 256. */
  lemma {:induction false} BigEndianAt(n: nat, w: nat, i: nat)
    requires i < w
    ensures ToBE(n, w)[i] == n / Pow256(w - 1 - i) % 256
  {
    if i < w - 1 {
      BigEndianAt(n / 256, w - 1, i);
      DivDiv(n, Pow256(w - 2 - i));
    }
  }

  lemma DivDiv(n: nat, d: nat)
    requires d > 0
    ensures n / 256 / d == n / (256 * d)
  {
    var q := n / 256 / d;
    var r := n / 256 % d;
    assert n == 256 * (q * d + r) + n % 256;
    assert q * (256 * d) + (256 * r + n % 256) == n;
    DivModUnique(n, 256 * d, q, 256 * r + n % 256);
  }

  // ------------------------------------------------------------------
  // Text
  // ------------------------------------------------------------------

  /** The bytes of an ASCII text. */
  function Ascii(text: string): (bs: bytes)
    ensures |bs| == |text|
  {
    seq(|text|, i requires 0 <= i < |text| => text[i] as int % 256)
  }

  lemma ToBEInjective(m: nat, n: nat, w: nat)
    requires m < Pow256(w) && n < Pow256(w)
    requires ToBE(m, w) == ToBE(n, w)
    ensures m == n
  {
    FromToBE(m, w);
    FromToBE(n, w);
  }

  // ------------------------------------------------------------------
  // Bit operations, one bit at a time
  // ------------------------------------------------------------------

  function Or(a: nat, b: nat): nat {
    if a == 0 && b == 0 then 0
    else (if a % 2 == 1 || b % 2 == 1 then 1 else 0) + 2 * Or(a / 2, b / 2)
  }

  function And(a: nat, b: nat): nat {
    if a == 0 && b == 0 then 0
    else (if a % 2 == 1 && b % 2 == 1 then 1 else 0) + 2 * And(a / 2, b / 2)
  }

  function Xor(a: nat, b: nat): nat {
    if a == 0 && b == 0 then 0
    else (if a % 2 != b % 2 then 1 else 0) + 2 * Xor(a / 2, b / 2)
  }

  /** `a & !b`. */
  function AndNot(a: nat, b: nat): nat {
    if a == 0 then 0
    else (if a % 2 == 1 && b % 2 == 0 then 1 else 0) + 2 * AndNot(a / 2, b / 2)
  }

  /** The number of bits up to the highest one: 32 minus `leading_zeros` of a `u32`. */
  function BitLength(n: nat): nat {
    if n == 0 then 0 else 1 + BitLength(n / 2)
  }

  /** The lowest bit apart from the others. */
  lemma LowestBit(a: nat, i: nat, b: nat, j: nat)
    requires i < 2 && j < 2
    ensures Xor(2 * a + i, 2 * b + j) == (if i != j then 1 else 0) + 2 * Xor(a, b)
    ensures Or(2 * a + i, 2 * b + j) == (if i == 1 || j == 1 then 1 else 0) + 2 * Or(a, b)
    ensures And(2 * a + i, 2 * b + j) == (if i == 1 && j == 1 then 1 else 0) + 2 * And(a, b)
    ensures AndNot(2 * a + i, 2 * b + j) == (if i == 1 && j == 0 then 1 else 0) + 2 * AndNot(a, b)
  {
    assert (2 * a + i) / 2 == a && (2 * b + j) / 2 == b;
    assert (2 * a + i) % 2 == i && (2 * b + j) % 2 == j;
  }

  lemma {:induction false} BitLengthBound(n: nat, k: nat)
    ensures BitLength(n) <= k <==> n < Pow2(k)
    decreases k
  {
    if n > 0 && k > 0 { BitLengthBound(n / 2, k - 1); }
  }

  lemma {:induction false} OrZero(b: nat)
    ensures Or(0, b) == b && Or(b, 0) == b
  {
    if b > 0 { OrZero(b / 2); }
  }

  /** Bits above position `k` and bits below it do not meet: `|` adds them. */
  lemma {:induction false} OrDisjoint(high: nat, low: nat, k: nat)
    requires low < Pow2(k)
    ensures Or(low, high * Pow2(k)) == low + high * Pow2(k)
    ensures Or(high * Pow2(k), low) == low + high * Pow2(k)
  {
    if k == 0 {
      OrZero(high);
    } else {
      var h := high * Pow2(k - 1);
      assert high * Pow2(k) == 2 * h;
      OrDisjoint(high, low / 2, k - 1);
    }
  }

  lemma {:induction false} AndMask(n: nat, k: nat)
    ensures And(n, Pow2(k) - 1) == n % Pow2(k)
    decreases k
  {
    if k == 0 {
      AndZero(n);
    } else {
      AndMask(n / 2, k - 1);
      AndMaskStep(n / 2, n % 2, Pow2(k - 1));
    }
  }

  lemma AndMaskStep(h: nat, i: nat, p: nat)
    requires i < 2 && p > 0 && And(h, p - 1) == h % p
    ensures And(2 * h + i, 2 * p - 1) == (2 * h + i) % (2 * p)
  {
    LowestBit(h, i, p - 1, 1);
    ModDouble(h, i, p);
  }

  lemma AndOnes(n: nat, ones: nat, k: nat)
    requires ones == Pow2(k) - 1 && n < Pow2(k)
    ensures And(n, ones) == n
  {
    AndMask(n, k);
  }

  lemma {:induction false} AndZero(n: nat)
    ensures And(n, 0) == 0
  {
    if n > 0 { AndZero(n / 2); }
  }

  lemma ModDouble(h: nat, i: nat, p: nat)
    requires i < 2 && p > 0
    ensures (2 * h + i) % (2 * p) == i + 2 * (h % p)
  {
    var q, r := h / p, h % p;
    assert h == q * p + r;
    assert q * (2 * p) == 2 * (q * p);
    DivModUnique(2 * h + i, 2 * p, q, 2 * r + i);
  }

  lemma MulAtLeast(k: int, d: nat)
    requires k >= 1
    ensures k * d >= d
  {
  }

  lemma DivModUnique(n: nat, d: nat, q: nat, r: nat)
    requires d > 0 && r < d && n == q * d + r
    ensures n / d == q && n % d == r
  {
    var q', r' := n / d, n % d;
    assert q' * d + r' == n;
    if q' > q {
      assert (q' - q) * d == r - r';
      MulAtLeast(q' - q, d);
    } else if q' < q {
      assert (q - q') * d == r' - r;
      MulAtLeast(q - q', d);
    }
  }

  lemma {:induction false} XorInvolution(a: nat, b: nat)
    ensures Xor(Xor(a, b), b) == a
  {
    if a > 0 || b > 0 {
      var x, i, y, j := a / 2, a % 2, b / 2, b % 2;
      XorInvolution(x, y);
      LowestBit(x, i, y, j);
      LowestBit(Xor(x, y), if i != j then 1 else 0, y, j);
    }
  }

  lemma {:induction false} XorBound(a: nat, b: nat, k: nat)
    requires a < Pow2(k) && b < Pow2(k)
    ensures Xor(a, b) < Pow2(k)
    decreases k
  {
    if k > 0 { XorBound(a / 2, b / 2, k - 1); }
  }

  lemma {:induction false} XorZero(a: nat)
    ensures Xor(a, 0) == a
  {
    if a > 0 { XorZero(a / 2); }
  }

  lemma XorInjective(a: nat, b: nat, c: nat)
    requires Xor(a, b) == Xor(a, c)
    ensures b == c
  {
    XorCommutes(a, b);
    XorCommutes(a, c);
    XorInvolution(b, a);
    XorInvolution(c, a);
  }

  lemma {:induction false} XorCommutes(a: nat, b: nat)
    ensures Xor(a, b) == Xor(b, a)
  {
    if a > 0 || b > 0 { XorCommutes(a / 2, b / 2); }
  }

  lemma {:induction false} AndBound(a: nat, b: nat)
    ensures And(a, b) <= a
  {
    if a > 0 || b > 0 { AndBound(a / 2, b / 2); }
  }

  function XorByte(a: byte, b: byte): byte {
    assert Pow2(8) == 256;
    XorBound(a, b, 8);
    Xor(a, b)
  }

  lemma {:induction false} OrBound(a: nat, b: nat, k: nat)
    requires a < Pow2(k) && b < Pow2(k)
    ensures Or(a, b) < Pow2(k)
    decreases k
  {
    if k > 0 { OrBound(a / 2, b / 2, k - 1); }
  }

  function OrByte(a: byte, b: byte): byte {
    assert Pow2(8) == 256;
    OrBound(a, b, 8);
    Or(a, b)
  }

  function AndByte(a: byte, b: byte): byte {
    AndBound(a, b);
    And(a, b)
  }
}
