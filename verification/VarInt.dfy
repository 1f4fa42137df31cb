/** Variable-size length headers (section 2.1.2 of RFC 9420). */
module VarInt {
  import opened Bytes
  import opened CodecResult

  const VARINT_MAX: nat := 0x3FFF_FFFF

  /** `VarInt::try_from(usize)`. */
  function TryFrom(n: nat): (r: Result<nat>) {
    if n <= VARINT_MAX then Ok(n) else Err(VarIntOutOfRange)
  }

  /** `count_bytes_to_encode_int`; the precondition is the negation of its panic branch. */
  function CountBytes(n: nat): nat
    requires BitLength(n) <= 30
  {
    var usedBits := BitLength(n);
    if usedBits <= 6 then 1 else if usedBits <= 14 then 2 else 4
  }

  lemma PowersOfTwo()
    ensures Pow2(2) == 4 && Pow2(6) == 64 && Pow2(7) == 128 && Pow2(8) == 256
    ensures Pow2(14) == 0x4000 && Pow2(16) == 0x1_0000 && Pow2(22) == 0x40_0000
    ensures Pow2(24) == 0x100_0000 && Pow2(30) == 0x4000_0000
  {
    assert Pow2(4) == 16;
    assert Pow2(10) == 1024;
    assert Pow2(12) == 4096;
    assert Pow2(18) == 0x4_0000;
    assert Pow2(20) == 0x10_0000;
    assert Pow2(26) == 0x400_0000;
    assert Pow2(28) == 0x1000_0000;
  }

  /** The three header lengths, by value range. */
  lemma CountBytesRanges(n: nat)
    ensures n <= VARINT_MAX <==> BitLength(n) <= 30
    ensures n <= VARINT_MAX ==>
              CountBytes(n) == if n < 0x40 then 1 else if n < 0x4000 then 2 else 4
  {
    PowersOfTwo();
    BitLengthBound(n, 6);
    BitLengthBound(n, 14);
    BitLengthBound(n, 30);
  }

  /** `VarInt::mls_encode`: the big-endian bytes with the length class set in the top bits. */
  function Encode(n: nat): (header: bytes)
    requires n <= VARINT_MAX
  {
    CountBytesRanges(n);
    var be := ToBE(n, 4);
    match CountBytes(n)
    case 1 => be[3..]
    case 2 => be[2 := OrByte(be[2], 0x40)][2..]
    case _ => be[0 := OrByte(be[0], 0x80)]
  }

  /** Reads `count` more bytes into the accumulator, as `u32` shifts. */
  function FoldBytes(acc: nat, input: bytes, count: nat): Result<(nat, bytes)>
    decreases count
  {
    if count == 0 then Ok((acc, input))
    else if input == [] then Err(UnexpectedEOF)
    else FoldBytes(Or(acc * 256 % 0x1_0000_0000, input[0]), input[1..], count - 1)
  }

  /** `VarInt::mls_decode`. The call of `CountBytes` is safe: no input reaches the panic branch. */
  function Decode(input: bytes): (r: Result<(nat, bytes)>)
    ensures r.Ok? ==> r.value.0 <= VARINT_MAX && |r.value.1| < |input|
    ensures !r.Diverges?
  {
    if input == [] then Err(UnexpectedEOF)
    else
      var first := input[0];
      var prefix := first / 64;
      if prefix >= 3 then Err(InvalidVarIntPrefix(prefix))
      else
        var count := Pow2(prefix);
        FoldBytesValue(And(first, 0x3f), input[1..], count, first);
        var (n, rest) :- FoldBytes(And(first, 0x3f), input[1..], count - 1);
        CountBytesRanges(n);
        if CountBytes(n) == count then Ok((n, rest)) else Err(VarIntMinimumLengthEncoding)
  }

  lemma OrShift(acc: nat, b: byte)
    requires acc < 0x40_0000
    ensures Or(acc * 256 % 0x1_0000_0000, b) == acc * 256 + b
  {
    var h := acc * 256;
    assert h % 0x1_0000_0000 == h;
    assert Or(h, b) == h + b by {
      assert Pow2(8) == 256;
      OrDisjoint(acc, b, 8);
    }
  }

  /** What the fold reads for the three header lengths. */
  lemma FoldBytesValue(acc: nat, input: bytes, count: nat, first: byte)
    requires acc == And(first, 0x3f)
    requires count == 1 || count == 2 || count == 4
    ensures acc == first % 64
    ensures |input| < count - 1 ==> FoldBytes(acc, input, count - 1) == Err(UnexpectedEOF)
    ensures count == 1 ==> FoldBytes(acc, input, 0) == Ok((acc, input))
    ensures count == 2 && |input| >= 1 ==>
              FoldBytes(acc, input, 1) == Ok((acc * 256 + input[0], input[1..]))
    ensures count == 4 && |input| >= 3 ==>
              FoldBytes(acc, input, 3)
              == Ok((((acc * 256 + input[0]) * 256 + input[1]) * 256 + input[2], input[3..]))
  {
    PowersOfTwo();
    AndMask(first, 6);
    if |input| >= 1 && count > 1 {
      OrShift(acc, input[0]);
      var acc1 := acc * 256 + input[0];
      var in1 := input[1..];
      if count == 2 {
        assert FoldBytes(acc1, in1, 0) == Ok((acc1, in1));
      } else if |input| >= 2 {
        OrShift(acc1, in1[0]);
        var acc2 := acc1 * 256 + in1[0];
        var in2 := in1[1..];
        if |input| >= 3 {
          OrShift(acc2, in2[0]);
          assert in2[1..] == input[3..];
          assert FoldBytes(acc2 * 256 + in2[0], in2[1..], 0).Ok?;
          assert FoldBytes(acc2, in2, 1).Ok?;
        } else {
          assert FoldBytes(acc2, in2, 1) == Err(UnexpectedEOF);
        }
        assert FoldBytes(acc1, in1, 2) == FoldBytes(acc2, in2, 1);
      } else {
        assert FoldBytes(acc1, in1, 2) == Err(UnexpectedEOF);
      }
    }
  }

  lemma OrTopBit(b: byte, k: nat)
    requires (k == 6 && b < 64) || (k == 7 && b < 128)
    ensures OrByte(b, if k == 6 then 0x40 else 0x80) == b + if k == 6 then 0x40 else 0x80
  {
    PowersOfTwo();
    OrDisjoint(1, b, k);
  }

  /** The header bytes in arithmetic form. */
  function Header(n: nat): bytes
    requires n <= VARINT_MAX
  {
    if n < 0x40 then [n]
    else if n < 0x4000 then [0x40 + n / 0x100, n % 0x100]
    else [0x80 + n / 0x100_0000, n / 0x1_0000 % 0x100, n / 0x100 % 0x100, n % 0x100]
  }

  /** `Encode` from the big-endian bytes of a number. */
  lemma EncodeMarks(n: nat, a: byte, b: byte, c: byte, d: byte)
    requires n <= VARINT_MAX && ToBE(n, 4) == [a, b, c, d]
    requires a < 0x40 && (n < 0x4000 ==> c < 0x40)
    ensures Encode(n) == if n < 0x40 then [d] else if n < 0x4000 then [0x40 + c, d] else [0x80 + a, b, c, d]
  {
    CountBytesRanges(n);
    if 0x40 <= n < 0x4000 { OrTopBit(c, 6); }
    if 0x4000 <= n { OrTopBit(a, 7); }
  }

  lemma EncodeBytes(n: nat)
    requires n <= VARINT_MAX
    ensures Encode(n) == Header(n)
  {
    BigEndian4(n);
    SmallBytes(n);
    EncodeMarks(n, n / 0x100_0000, n / 0x1_0000 % 0x100, n / 0x100 % 0x100, n % 0x100);
  }

  lemma SmallBytes(n: nat)
    ensures n <= VARINT_MAX ==> n / 0x100_0000 < 0x40
    ensures n < 0x4000 ==> n / 0x100 % 0x100 == n / 0x100 < 0x40
    ensures n < 0x40 ==> n % 0x100 == n
  {
  }

  lemma BigEndian4(n: nat)
    requires n <= VARINT_MAX
    ensures ToBE(n, 4) == [n / 0x100_0000, n / 0x1_0000 % 0x100, n / 0x100 % 0x100, n % 0x100]
  {
    var n1, n2, n3 := n / 256, n / 256 / 256, n / 256 / 256 / 256;
    assert n2 == n / 0x1_0000 && n3 == n / 0x100_0000;
    assert ToBE(n3, 1) == ToBE(n3 / 256, 0) + [n3 % 256] == [n3];
    assert ToBE(n2, 2) == ToBE(n3, 1) + [n2 % 256];
    assert ToBE(n1, 3) == ToBE(n2, 2) + [n1 % 256];
  }

  /** Header length by first byte. */
  function HeaderLength(first: byte): nat {
    if first < 0x40 then 1 else if first < 0x80 then 2 else 4
  }

  /** The number that a header of `HeaderLength` bytes spells, minimal or not. */
  function HeaderValue(input: bytes): (n: nat)
    requires input != [] && input[0] < 0xc0 && |input| >= HeaderLength(input[0])
    ensures n <= VARINT_MAX
  {
    if input[0] < 0x40 then input[0]
    else if input[0] < 0x80 then (input[0] as int - 0x40) * 256 + input[1]
    else (((input[0] as int - 0x80) * 256 + input[1]) * 256 + input[2]) * 256 + input[3]
  }

  lemma FoldIsHeaderValue(input: bytes)
    requires input != [] && input[0] < 0xc0
    ensures Pow2(input[0] / 64) == HeaderLength(input[0])
    ensures FoldBytes(And(input[0], 0x3f), input[1..], HeaderLength(input[0]) - 1) ==
            if |input| < HeaderLength(input[0]) then Err(UnexpectedEOF)
            else Ok((HeaderValue(input), input[HeaderLength(input[0])..]))
  {
    var first := input[0];
    var count := HeaderLength(first);
    assert first / 64 == 0 || first / 64 == 1 || first / 64 == 2;
    FoldBytesValue(And(first, 0x3f), input[1..], count, first);
    if |input| >= count {
      assert input[1..][count - 1..] == input[count..];
    }
  }

  /** Decoding in arithmetic form. */
  lemma DecodeBytes(input: bytes)
    requires input != []
    ensures input[0] >= 0xc0 ==> Decode(input) == Err(InvalidVarIntPrefix(3))
    ensures input[0] < 0xc0 ==>
              var count := HeaderLength(input[0]);
              Decode(input) ==
              if |input| < count then Err(UnexpectedEOF)
              else if HeaderLengthOf(HeaderValue(input)) == count then Ok((HeaderValue(input), input[count..]))
              else Err(VarIntMinimumLengthEncoding)
  {
    if input[0] < 0xc0 {
      FoldIsHeaderValue(input);
      if |input| >= HeaderLength(input[0]) { CountBytesRanges(HeaderValue(input)); }
    }
  }

  function HeaderLengthOf(n: nat): nat {
    if n < 0x40 then 1 else if n < 0x4000 then 2 else 4
  }

  /** The number that the header of a number spells. */
  lemma ValueOfHeader(n: nat, rest: bytes)
    requires n <= VARINT_MAX
    ensures var input := Header(n) + rest;
            && input[0] < 0xc0 && HeaderLength(input[0]) == HeaderLengthOf(n) == |Header(n)|
            && HeaderValue(input) == n
  {
    if n >= 0x4000 { Rebuild4(n); }
  }

  /** Decoding undoes encoding, whatever follows the header. */
  lemma RoundTrip(n: nat, rest: bytes)
    requires n <= VARINT_MAX
    ensures Decode(Encode(n) + rest) == Ok((n, rest))
  {
    EncodeBytes(n);
    var header := Header(n);
    ValueOfHeader(n, rest);
    DecodeBytes(header + rest);
    assert (header + rest)[|header|..] == rest;
  }

  lemma Rebuild4(n: nat)
    requires n <= VARINT_MAX
    ensures ((n / 0x100_0000 * 256 + n / 0x1_0000 % 0x100) * 256 + n / 0x100 % 0x100) * 256 + n % 0x100 == n
  {
    var n1, n2, n3 := n / 256, n / 256 / 256, n / 256 / 256 / 256;
    assert n2 == n / 0x1_0000 && n3 == n / 0x100_0000;
  }

  lemma HeaderOfTwo(a: byte, b: byte)
    requires a < 0x40 && a * 256 + b >= 0x40
    ensures Header(a * 256 + b) == [0x40 + a, b]
  {
    var n: nat := a * 256 + b;
    assert n / 0x100 == a && n % 0x100 == b;
  }

  lemma HeaderOfFour(a: byte, b: byte, c: byte, d: byte)
    requires a < 0x40 && ((a * 256 + b) * 256 + c) * 256 + d >= 0x4000
    ensures Header(((a * 256 + b) * 256 + c) * 256 + d) == [0x80 + a, b, c, d]
  {
    Split4(a, b, c, d);
  }

  /** A header that is as long as its number needs is the header of that number. */
  lemma HeaderOfValue(input: bytes)
    requires input != [] && input[0] < 0xc0 && |input| >= HeaderLength(input[0])
    requires HeaderLengthOf(HeaderValue(input)) == HeaderLength(input[0])
    ensures Header(HeaderValue(input)) == input[..HeaderLength(input[0])]
  {
    if input[0] < 0x40 {
    } else if input[0] < 0x80 {
      HeaderOfTwo(input[0] - 0x40, input[1]);
    } else {
      HeaderOfFour(input[0] - 0x80, input[1], input[2], input[3]);
    }
  }

  /** Only minimal headers are accepted: what was consumed is the encoding of the result. */
  lemma Canonical(input: bytes)
    requires Decode(input).Ok?
    ensures input == Encode(Decode(input).value.0) + Decode(input).value.1
  {
    DecodeBytes(input);
    HeaderOfValue(input);
    EncodeBytes(HeaderValue(input));
    var count := HeaderLength(input[0]);
    assert input == input[..count] + input[count..];
  }

  lemma Split4(a: byte, b: byte, c: byte, d: byte)
    ensures var n: int := ((a * 256 + b) * 256 + c) * 256 + d;
            n / 0x100_0000 == a && n / 0x1_0000 % 0x100 == b && n / 0x100 % 0x100 == c && n % 0x100 == d
  {
    var n: int := ((a * 256 + b) * 256 + c) * 256 + d;
    assert n / 256 == (a * 256 + b) * 256 + c;
    assert n / 256 / 256 == a * 256 + b;
    assert n / 0x1_0000 == n / 256 / 256;
    assert n / 0x100_0000 == n / 256 / 256 / 256;
  }

  /** Headers and lengths are in bijection: the accepted inputs are exactly those that start
      with the header of some length, and that length is the result. */
  lemma AcceptsExactlyHeaders(input: bytes, n: nat, rest: bytes)
    ensures Decode(input) == Ok((n, rest)) <==> n <= VARINT_MAX && input == Encode(n) + rest
  {
    if Decode(input) == Ok((n, rest)) {
      Canonical(input);
    } else if n <= VARINT_MAX && input == Encode(n) + rest {
      RoundTrip(n, rest);
    }
  }

  /** No header is a prefix of another one. */
  lemma PrefixFree(m: nat, n: nat, more: bytes)
    requires m <= VARINT_MAX && n <= VARINT_MAX
    requires Encode(n) == Encode(m) + more
    ensures m == n && more == []
  {
    RoundTrip(n, []);
    RoundTrip(m, more);
    assert Encode(n) + [] == Encode(m) + more;
  }
}
