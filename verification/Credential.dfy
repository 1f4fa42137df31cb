/** The hand-written credential codec: a type number selects the payload's codec. */
module Credential {
  import opened Bytes
  import opened CodecResult
  import opened Schema
  import opened Codec
  import opened CodecLaws

  const BASIC: u16 := 1
  const X509: u16 := 2

  datatype Credential =
    | Basic(identifier: bytes)
    | Chain(certificates: seq<bytes>)
    | Custom(customType: u16, data: bytes)

  /** `credential_type`. */
  function TypeOf(c: Credential): u16 {
    match c
    case Basic(_) => BASIC
    case Chain(_) => X509
    case Custom(t, _) => t
  }

  /** A derived struct with one byte string: a basic credential, or one certificate. */
  const BYTE_STRUCT: Schema := Pair(ByteVec, Unit)
  const CERTIFICATE_CHAIN: Schema := Pair(Vector(BYTE_STRUCT), Unit)

  function ChainValue(certificates: seq<bytes>): Value {
    VPair(VSeq(seq(|certificates|, i requires 0 <= i < |certificates| => VPair(VBytes(certificates[i]), VUnit))), VUnit)
  }

  function FromChainValue(v: Value): seq<bytes>
    requires HasType(CERTIFICATE_CHAIN, v)
  {
    seq(|v.fst.items|, i requires 0 <= i < |v.fst.items| => CertificateBytes(v.fst.items[i]))
  }

  function CertificateBytes(v: Value): bytes
    requires HasType(BYTE_STRUCT, v)
  {
    v.fst.bytes
  }

  lemma ChainTyped(certificates: seq<bytes>)
    ensures HasType(CERTIFICATE_CHAIN, ChainValue(certificates))
    ensures FromChainValue(ChainValue(certificates)) == certificates
  {
  }

  lemma ChainFromValue(v: Value)
    requires HasType(CERTIFICATE_CHAIN, v)
    ensures ChainValue(FromChainValue(v)) == v
  {
    var w := ChainValue(FromChainValue(v));
    assert w.snd == v.snd;
    assert |w.fst.items| == |v.fst.items|;
    forall i | 0 <= i < |v.fst.items| ensures w.fst.items[i] == v.fst.items[i] {
      assert HasType(BYTE_STRUCT, v.fst.items[i]);
    }
    assert w.fst.items == v.fst.items;
  }

  // ------------------------------------------------------------------
  // Operations
  // ------------------------------------------------------------------

  /** The codec that encoding uses for the payload, by variant. */
  function PayloadSchema(c: Credential): Schema {
    match c
    case Basic(_) => BYTE_STRUCT
    case Chain(_) => CERTIFICATE_CHAIN
    case Custom(_, _) => ByteVec
  }

  function Payload(c: Credential): (v: Value)
    ensures HasType(PayloadSchema(c), v)
  {
    match c
    case Basic(id) => VPair(VBytes(id), VUnit)
    case Chain(certificates) => ChainTyped(certificates); ChainValue(certificates)
    case Custom(_, data) => VBytes(data)
  }

  function SizeOf(c: Credential): nat {
    2 + Size(PayloadSchema(c), Payload(c))
  }

  function EncodeCredential(c: Credential): Result<bytes> {
    var x :- Encode(PayloadSchema(c), Payload(c));
    Ok(ToBE(TypeOf(c), 2) + x)
  }

  /** Decoding selects the payload's codec by type number. */
  function DecodeCredential(input: bytes): Result<(Credential, bytes)> {
    var (head, tail) :- Take(input, 2);
    FromBEBound(head);
    assert Pow256(2) == 256 * Pow256(1) == 0x1_0000;
    var t: u16 := FromBE(head);
    if t == BASIC then
      var (v, rest) :- Decode(BYTE_STRUCT, tail);
      Ok((Basic(v.fst.bytes), rest))
    else if t == X509 then
      var (v, rest) :- Decode(CERTIFICATE_CHAIN, tail);
      DecodeTyped(CERTIFICATE_CHAIN, tail);
      Ok((Chain(FromChainValue(v)), rest))
    else
      var (v, rest) :- Decode(ByteVec, tail);
      Ok((Credential.Custom(t, v.bytes), rest))
  }

  // ------------------------------------------------------------------
  // Laws
  // ------------------------------------------------------------------

  /** The constructor's warning, as a condition: a custom credential does not take the number
      of a built-in one. */
  predicate Proper(c: Credential) {
    c.Custom? ==> c.customType != 1 && c.customType != 2
  }

  lemma SizeIsExact(c: Credential)
    requires EncodeCredential(c).Ok?
    ensures |EncodeCredential(c).value| == SizeOf(c)
  {
    SizeExact(PayloadSchema(c), Payload(c));
  }

  lemma TypeRoundTrip(c: Credential, tail: bytes)
    ensures Take(ToBE(TypeOf(c), 2) + tail, 2) == Ok((ToBE(TypeOf(c), 2), tail))
    ensures FromBE(ToBE(TypeOf(c), 2)) == TypeOf(c)
  {
    TakeRoundTrip(ToBE(TypeOf(c), 2), tail);
    assert Pow256(2) == 256 * Pow256(1) == 0x1_0000;
    FromToBE(TypeOf(c), 2);
  }

  lemma RoundTripProper(c: Credential, rest: bytes)
    requires EncodeCredential(c).Ok? && Proper(c)
    ensures DecodeCredential(EncodeCredential(c).value + rest) == Ok((c, rest))
  {
    var x := Encode(PayloadSchema(c), Payload(c)).value;
    var head := ToBE(TypeOf(c), 2);
    assert head + x + rest == head + (x + rest);
    TypeRoundTrip(c, x + rest);
    RoundTrip(PayloadSchema(c), Payload(c), rest);
    if c.Chain? { ChainTyped(c.certificates); }
  }

  /** Exactly the proper credentials survive encoding and decoding. */
  lemma RoundTripIff(c: Credential, rest: bytes)
    requires EncodeCredential(c).Ok?
    ensures DecodeCredential(EncodeCredential(c).value + rest) == Ok((c, rest)) <==> Proper(c)
  {
    if Proper(c) {
      RoundTripProper(c, rest);
    } else {
      var x := Encode(ByteVec, VBytes(c.data)).value;
      assert ToBE(c.customType, 2) + x + rest == ToBE(c.customType, 2) + (x + rest);
      TypeRoundTrip(c, x + rest);
    }
  }

  /** A custom credential numbered as a basic one is read as the basic one with its data. */
  lemma CustomBasicIsBasic(data: bytes)
    ensures EncodeCredential(Credential.Custom(1, data)) == EncodeCredential(Basic(data))
  {
    if WithHeader(data).Ok? {
      assert WithHeader(data).value + [] == WithHeader(data).value;
    }
  }

  lemma DecodedParts(input: bytes, c: Credential, rest: bytes)
    requires DecodeCredential(input) == Ok((c, rest))
    ensures Proper(c) && |input| >= 2 && FromBE(input[..2]) == TypeOf(c)
    ensures Decode(PayloadSchema(c), input[2..]) == Ok((Payload(c), rest))
  {
    var v := Decode(PayloadSchema(c), input[2..]).value.0;
    DecodeTyped(PayloadSchema(c), input[2..]);
    if c.Chain? { ChainFromValue(v); }
  }

  /** Whatever is accepted is proper, and is the encoding of the result. */
  lemma CanonicalCredential(input: bytes, c: Credential, rest: bytes)
    requires DecodeCredential(input) == Ok((c, rest))
    ensures Proper(c) && EncodeCredential(c).Ok? && input == EncodeCredential(c).value + rest
  {
    DecodedParts(input, c, rest);
    var head, tail := input[..2], input[2..];
    ToFromBE(head);
    Canonical(PayloadSchema(c), tail, Payload(c), rest);
    var x := Encode(PayloadSchema(c), Payload(c)).value;
    assert input == head + tail;
    assert head + (x + rest) == head + x + rest;
  }
}
