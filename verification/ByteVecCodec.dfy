/** The optimised byte-string codec against the generic vector codec at `u8`. */
module ByteVecCodec {
  import opened Bytes
  import opened CodecResult
  import opened Schema
  import opened Codec

  const U8: Schema := UInt(1)

  function AsItems(bs: bytes): (items: seq<Value>)
    ensures |items| == |bs|
    ensures forall i :: 0 <= i < |bs| ==> items[i] == VInt(bs[i])
  {
    seq(|bs|, i requires 0 <= i < |bs| => VInt(bs[i]))
  }

  lemma ItemsAreBytes(bs: bytes)
    ensures HasTypes(U8, AsItems(bs))
  {
    forall i | 0 <= i < |bs| ensures HasType(U8, AsItems(bs)[i]) { OneByte(bs[i]); }
  }

  lemma AsItemsTail(bs: bytes)
    requires bs != []
    ensures AsItems(bs) == [VInt(bs[0])] + AsItems(bs[1..]) && AsItems(bs)[1..] == AsItems(bs[1..])
  {
  }

  lemma {:induction false} GenericItems(bs: bytes)
    ensures HasTypes(U8, AsItems(bs))
    ensures EncodeItems(U8, AsItems(bs)) == Ok(bs)
    ensures SizeItems(U8, AsItems(bs)) == |bs|
    ensures DecodeItems(U8, bs) == Ok(AsItems(bs))
    decreases |bs|
  {
    ItemsAreBytes(bs);
    if bs == [] {
      assert AsItems(bs) == [];
    } else {
      AsItemsTail(bs);
      OneByte(bs[0]);
      GenericItems(bs[1..]);
      assert bs == [bs[0]] + bs[1..];
      assert bs[..1] == [bs[0]];
      assert Decode(U8, bs) == Ok((VInt(bs[0]), bs[1..]));
    }
  }

  /** Same size, same bytes, same failures. */
  lemma FastPathEncodes(bs: bytes)
    ensures HasType(Vector(U8), VSeq(AsItems(bs)))
    ensures Size(ByteVec, VBytes(bs)) == Size(Vector(U8), VSeq(AsItems(bs)))
    ensures Encode(ByteVec, VBytes(bs)) == Encode(Vector(U8), VSeq(AsItems(bs)))
  {
    GenericItems(bs);
  }

  /** Same values, same rest, same errors. */
  lemma FastPathDecodes(input: bytes)
    ensures Decode(ByteVec, input).Ok? ==>
              var (v, rest) := Decode(ByteVec, input).value;
              v.VBytes? && Decode(Vector(U8), input) == Ok((VSeq(AsItems(v.bytes)), rest))
    ensures !Decode(ByteVec, input).Ok? ==> Decode(Vector(U8), input) == Decode(ByteVec, input)
  {
    if Split(input).Ok? {
      GenericItems(Split(input).value.0);
    }
  }
}
