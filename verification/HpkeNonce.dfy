/** The per-message nonce of an HPKE context (section 5.2 of RFC 9180). */
module HpkeNonce {
  import opened Bytes

  /** Byte `j` of the little-endian form. */
  function LittleEndianByte(n: nat, j: nat): byte {
    n / Pow256(j) % 256
  }

  /** `compute_nonce` as a value: the counter's bytes are folded in from the end, at most
      eight of them. */
  function Nonce(base: bytes, counter: u64): (nonce: bytes)
    ensures |nonce| == |base|
  {
    seq(|base|, i requires 0 <= i < |base| =>
      var j := |base| - 1 - i;
      if j < 8 then XorByte(base[i], LittleEndianByte(counter, j)) else base[i])
  }

  /** `compute_nonce`: a copy of the base nonce, changed in place from its last byte on. */
  method ComputeNonce(base: bytes, counter: u64) returns (nonce: bytes)
    ensures nonce == Nonce(base, counter)
  {
    var n := |base|;
    var a := new byte[n](i requires 0 <= i < n => base[i]);
    for j := 0 to Min(n, 8)
      invariant forall i :: 0 <= i < n - j ==> a[i] == base[i]
      invariant forall i :: n - j <= i < n ==> a[i] == Nonce(base, counter)[i]
    {
      a[n - 1 - j] := XorByte(a[n - 1 - j], LittleEndianByte(counter, j));
    }
    nonce := a[..];
  }

  /** `base xor I2OSP(counter, |base|)`, byte by byte. */
  function RfcNonce(base: bytes, counter: nat): bytes {
    seq(|base|, i requires 0 <= i < |base| => XorByte(base[i], ToBE(counter, |base|)[i]))
  }

  lemma {:induction false} BigEndianByte(n: nat, w: nat, i: nat)
    requires i < w
    ensures ToBE(n, w)[i] == LittleEndianByte(n, w - 1 - i)
  {
    if i < w - 1 {
      BigEndianByte(n / 256, w - 1, i);
      DivDiv(n, Pow256(w - 2 - i));
    }
  }

  lemma PowersOf256()
    ensures Pow256(8) == U64_SIZE
  {
    assert Pow256(2) == 0x1_0000;
    assert Pow256(4) == 0x1_0000_0000;
    assert Pow256(6) == 0x1_0000_0000_0000;
  }

  lemma HighBytesAreZero(counter: u64, j: nat)
    requires j >= 8
    ensures LittleEndianByte(counter, j) == 0
  {
    PowersOf256();
    Pow256Monotonic(8, j);
    DivModUnique(counter, Pow256(j), 0, counter);
  }

  /** The reversed loop is the RFC's big-endian XOR, at every nonce length. */
  lemma NonceIsRfc(base: bytes, counter: u64)
    ensures Nonce(base, counter) == RfcNonce(base, counter)
  {
    forall i | 0 <= i < |base| ensures Nonce(base, counter)[i] == RfcNonce(base, counter)[i] {
      BigEndianByte(counter, |base|, i);
      var j := |base| - 1 - i;
      if j >= 8 {
        HighBytesAreZero(counter, j);
        XorZero(base[i]);
      }
    }
  }

  /** Equal nonces come from counters that agree in the nonce's width. */
  lemma SameNonceSameBytes(base: bytes, a: u64, b: u64)
    requires Nonce(base, a) == Nonce(base, b)
    ensures ToBE(a, |base|) == ToBE(b, |base|)
  {
    NonceIsRfc(base, a);
    NonceIsRfc(base, b);
    var x, y := ToBE(a, |base|), ToBE(b, |base|);
    forall i | 0 <= i < |base| ensures x[i] == y[i] {
      assert RfcNonce(base, a)[i] == RfcNonce(base, b)[i];
      XorInjective(base[i], x[i], y[i]);
    }
  }

  /** With at least eight bytes, different counters give different nonces. */
  lemma NonceInjective(base: bytes, a: u64, b: u64)
    requires |base| >= 8 && Nonce(base, a) == Nonce(base, b)
    ensures a == b
  {
    SameNonceSameBytes(base, a, b);
    PowersOf256();
    Pow256Monotonic(8, |base|);
    ToBEInjective(a, b, |base|);
  }

  lemma {:induction false} OverflowIsZero(w: nat)
    ensures ToBE(Pow256(w), w) == ToBE(0, w)
  {
    if w > 0 { OverflowIsZero(w - 1); }
  }

  lemma ShortPowerFits(w: nat)
    requires w < 8
    ensures 0 < Pow256(w) < U64_SIZE
  {
    PowersOf256();
    Pow256Monotonic(w, 7);
    assert Pow256(8) == 256 * Pow256(7);
  }

  /** Eight bytes are needed: a shorter nonce repeats within the counter's range. */
  lemma NonceInjectiveIff(base: bytes)
    ensures (forall a: u64, b: u64 :: Nonce(base, a) == Nonce(base, b) ==> a == b) <==> |base| >= 8
  {
    if |base| >= 8 {
      forall a: u64, b: u64 | Nonce(base, a) == Nonce(base, b) ensures a == b {
        NonceInjective(base, a, b);
      }
    } else {
      var w := |base|;
      ShortPowerFits(w);
      var wrapped: u64 := Pow256(w);
      var zero: u64 := 0;
      OverflowIsZero(w);
      NonceIsRfc(base, wrapped);
      NonceIsRfc(base, zero);
      assert Nonce(base, wrapped) == Nonce(base, zero);
    }
  }
}
