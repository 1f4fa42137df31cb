/** The codec as the source runs it: encoders append to a writer, decoders consume a reader,
    and collections are loops. Each is proved against the functions of `Codec`. */
module CodecLoops {
  import opened Bytes
  import opened CodecResult
  import opened Schema
  import opened Codec
  import VarInt

  /** The `Vec<u8>` that encoders append to. */
  class Writer {
    var out: bytes

    constructor ()
      ensures out == []
    {
      out := [];
    }

    method Extend(bs: bytes)
      modifies this
      ensures out == old(out) + bs
    {
      out := out + bs;
    }
  }

  /** `VarInt::mls_encode`: the four big-endian bytes are marked in place, and the tail that
      carries the number is appended. */
  method EncodeHeader(n: nat, w: Writer)
    requires n <= VarInt.VARINT_MAX
    modifies w
    ensures w.out == old(w.out) + VarInt.Encode(n)
  {
    var be := ToBE(n, 4);
    var a := new byte[4](i requires 0 <= i < 4 => be[i]);
    assert a[..] == be;
    VarInt.CountBytesRanges(n);
    var count := VarInt.CountBytes(n);
    if count == 1 {
      w.Extend(a[3..]);
    } else if count == 2 {
      a[2] := OrByte(a[2], 0x40);
      w.Extend(a[2..]);
    } else {
      a[0] := OrByte(a[0], 0x80);
      w.Extend(a[..]);
    }
  }

  /** `VarInt::mls_decode`: the remaining bytes are shifted into the number one by one. */
  method DecodeHeader(input: bytes) returns (r: Result<nat>, rest: bytes)
    ensures VarInt.Decode(input).Ok? ==> r == Ok(VarInt.Decode(input).value.0) && rest == VarInt.Decode(input).value.1
    ensures VarInt.Decode(input).Err? ==> r == Err(VarInt.Decode(input).error)
    ensures !r.Diverges?
  {
    rest := input;
    if input == [] { return Err(UnexpectedEOF), rest; }
    var first := input[0];
    rest := input[1..];
    var prefix := first / 64;
    if prefix >= 3 { return Err(InvalidVarIntPrefix(prefix)), rest; }
    var count := Pow2(prefix);
    var n: nat := And(first, 0x3f);
    VarInt.FoldIsHeaderValue(input);
    ghost var fold := VarInt.FoldBytes(n, rest, count - 1);
    for i := 1 to count
      invariant VarInt.FoldBytes(n, rest, count - i) == fold
    {
      if rest == [] { return Err(UnexpectedEOF), rest; }
      n := Or(n * 256 % 0x1_0000_0000, rest[0]);
      rest := rest[1..];
    }
    VarInt.CountBytesRanges(n);
    r := if VarInt.CountBytes(n) == count then Ok(n) else Err(VarIntMinimumLengthEncoding);
  }

  /** What an encoder does to its writer: all of the encoding, or a failure that has only
      added bytes. */
  ghost predicate Wrote(expected: Result<bytes>, before: bytes, after: bytes, r: Result<()>) {
    match expected
    case Ok(bs) => r == Ok(()) && after == before + bs
    case Err(e) => r == Err(e) && before <= after
    case Diverges => false
  }

  /** `mls_encode` of a collection without preallocation, and the codecs around it. */
  method EncodeBuffered(s: Schema, v: Value, w: Writer) returns (r: Result<()>)
    requires HasType(s, v)
    modifies w
    ensures Wrote(Encode(s, v), old(w.out), w.out, r)
    decreases s
  {
    r := Ok(());
    match s
    case UInt(width) => w.Extend(ToBE(v.n, width));
    case Array(_) => w.Extend(v.bytes);
    case ByteVec => r := EncodeByteVec(v.bytes, w);
    case Unit =>
    case Pair(a, b) =>
      r := EncodeBuffered(a, v.fst, w);
      if r.Ok? { r := EncodeBuffered(b, v.snd, w); }
    case Opt(t) =>
      if v.VSome? {
        w.Extend([1]);
        r := EncodeBuffered(t, v.v, w);
      } else {
        w.Extend([0]);
      }
    case Enum(width, variants) =>
      w.Extend(ToBE(variants[v.tag].discriminant, width));
      r := EncodeBuffered(variants[v.tag].payload, v.payload, w);
    case Vector(_) =>
      r := EncodeCollectionBuffered(s, v, w);
    case MapOf(_) =>
      r := EncodeCollectionBuffered(s, v, w);
  }

  method EncodeByteVec(bs: bytes, w: Writer) returns (r: Result<()>)
    modifies w
    ensures Wrote(WithHeader(bs), old(w.out), w.out, r)
  {
    var n := VarInt.TryFrom(|bs|);
    if !n.Ok? { return Err(n.error); }
    EncodeHeader(n.value, w);
    w.Extend(bs);
    r := Ok(());
  }

  function ElementOf(s: Schema): Schema
    requires s.Vector? || s.MapOf?
  {
    if s.Vector? then s.elem else s.entry
  }

  ghost predicate Extends(whole: Result<bytes>, done: bytes, todo: Result<bytes>) {
    match todo
    case Ok(bs) => whole == Ok(done + bs)
    case Err(e) => whole == Err(e)
    case Diverges => false
  }

  lemma ItemsStep(e: Schema, items: seq<Value>, i: nat, done: bytes)
    requires HasTypes(e, items) && i < |items|
    requires Extends(EncodeItems(e, items), done, EncodeItems(e, items[i..]))
    ensures Encode(e, items[i]).Ok? ==>
              Extends(EncodeItems(e, items), done + Encode(e, items[i]).value, EncodeItems(e, items[i + 1..]))
    ensures !Encode(e, items[i]).Ok? ==> EncodeItems(e, items) == Encode(e, items[i])
  {
    assert items[i..][0] == items[i] && items[i..][1..] == items[i + 1..];
    if Encode(e, items[i]).Ok? && EncodeItems(e, items[i + 1..]).Ok? {
      var x, y := Encode(e, items[i]).value, EncodeItems(e, items[i + 1..]).value;
      assert done + (x + y) == done + x + y;
    }
  }

  lemma ItemsStart(e: Schema, items: seq<Value>)
    requires HasTypes(e, items)
    ensures Extends(EncodeItems(e, items), [], EncodeItems(e, items[0..]))
    ensures EncodeItems(e, items[|items|..]) == Ok([])
  {
    assert items[0..] == items;
    if EncodeItems(e, items).Ok? { assert [] + EncodeItems(e, items).value == EncodeItems(e, items).value; }
  }

  method EncodeCollectionBuffered(s: Schema, v: Value, w: Writer) returns (r: Result<()>)
    requires (s.Vector? || s.MapOf?) && HasType(s, v)
    modifies w
    ensures Wrote(Encode(s, v), old(w.out), w.out, r)
    decreases s, 0
  {
    var e, items := ElementOf(s), v.items;
    var buffer := new Writer();
    ItemsStart(e, items);
    for i := 0 to |items|
      invariant fresh(buffer) && w.out == old(w.out)
      invariant Extends(EncodeItems(e, items), buffer.out, EncodeItems(e, items[i..]))
    {
      ItemsStep(e, items, i, buffer.out);
      r := EncodeBuffered(e, items[i], buffer);
      if !r.Ok? { return; }
    }
    assert buffer.out + [] == buffer.out;
    r := EncodeByteVec(buffer.out, w);
  }

  /** `mls_encode` of a collection with preallocation, and the codecs around it. */
  method EncodeInPlace(s: Schema, v: Value, w: Writer) returns (r: Result<()>)
    requires HasType(s, v)
    modifies w
    ensures Wrote(EncodePreallocated(s, v), old(w.out), w.out, r)
    decreases s, 1
  {
    r := Ok(());
    match s
    case UInt(width) => w.Extend(ToBE(v.n, width));
    case Array(_) => w.Extend(v.bytes);
    case ByteVec => r := EncodeByteVec(v.bytes, w);
    case Unit =>
    case Pair(a, b) =>
      r := EncodeInPlace(a, v.fst, w);
      if r.Ok? { r := EncodeInPlace(b, v.snd, w); }
    case Opt(t) =>
      if v.VSome? {
        w.Extend([1]);
        r := EncodeInPlace(t, v.v, w);
      } else {
        w.Extend([0]);
      }
    case Enum(width, variants) =>
      w.Extend(ToBE(variants[v.tag].discriminant, width));
      r := EncodeInPlace(variants[v.tag].payload, v.payload, w);
    case Vector(_) =>
      r := EncodeCollectionInPlace(s, v, w);
    case MapOf(_) =>
      r := EncodeCollectionInPlace(s, v, w);
  }

  lemma ItemsInPlaceStep(e: Schema, items: seq<Value>, i: nat, done: bytes)
    requires HasTypes(e, items) && i < |items|
    requires Extends(EncodePreallocatedItems(e, items), done, EncodePreallocatedItems(e, items[i..]))
    ensures EncodePreallocated(e, items[i]).Ok? ==>
              Extends(EncodePreallocatedItems(e, items), done + EncodePreallocated(e, items[i]).value,
                      EncodePreallocatedItems(e, items[i + 1..]))
    ensures !EncodePreallocated(e, items[i]).Ok? ==>
              EncodePreallocatedItems(e, items) == EncodePreallocated(e, items[i])
  {
    assert items[i..][0] == items[i] && items[i..][1..] == items[i + 1..];
    var first, others := EncodePreallocated(e, items[i]), EncodePreallocatedItems(e, items[i + 1..]);
    if first.Ok? && others.Ok? {
      assert done + (first.value + others.value) == done + first.value + others.value;
    }
  }

  lemma ItemsInPlaceStart(e: Schema, items: seq<Value>)
    requires HasTypes(e, items)
    ensures Extends(EncodePreallocatedItems(e, items), [], EncodePreallocatedItems(e, items[0..]))
    ensures EncodePreallocatedItems(e, items[|items|..]) == Ok([])
  {
    assert items[0..] == items;
    var r := EncodePreallocatedItems(e, items);
    if r.Ok? { assert [] + r.value == r.value; }
  }

  method EncodeItemsInPlace(e: Schema, items: seq<Value>, w: Writer) returns (r: Result<()>)
    requires HasTypes(e, items)
    modifies w
    ensures Wrote(EncodePreallocatedItems(e, items), old(w.out), w.out, r)
    decreases e, 2
  {
    ghost var done: bytes := [];
    ItemsInPlaceStart(e, items);
    for i := 0 to |items|
      invariant w.out == old(w.out) + done
      invariant Extends(EncodePreallocatedItems(e, items), done, EncodePreallocatedItems(e, items[i..]))
    {
      ItemsInPlaceStep(e, items, i, done);
      r := EncodeInPlace(e, items[i], w);
      if !r.Ok? { return; }
      done := done + EncodePreallocated(e, items[i]).value;
    }
    assert done + [] == done;
    r := Ok(());
  }

  method EncodeCollectionInPlace(s: Schema, v: Value, w: Writer) returns (r: Result<()>)
    requires (s.Vector? || s.MapOf?) && HasType(s, v)
    modifies w
    ensures Wrote(EncodePreallocated(s, v), old(w.out), w.out, r)
    decreases s, 0
  {
    var e, items := ElementOf(s), v.items;
    var n := VarInt.TryFrom(SizeItems(e, items));
    if !n.Ok? { return Err(n.error); }
    EncodeHeader(n.value, w);
    r := EncodeItemsInPlace(e, items, w);
    if r.Ok? {
      ghost var content := EncodePreallocatedItems(e, items).value;
      assert old(w.out) + VarInt.Encode(n.value) + content == old(w.out) + (VarInt.Encode(n.value) + content);
    }
  }

  /** What a decoder returns: the value and the advanced reader, or the failure. */
  ghost predicate Read(expected: Result<(Value, bytes)>, r: Result<Value>, rest: bytes) {
    match expected
    case Ok((v, tail)) => r == Ok(v) && rest == tail
    case Err(e) => r == Err(e)
    case Diverges => r == Diverges
  }

  /** `mls_decode_split_on_collection`: reads the header, then takes the content off the reader. */
  method SplitReader(input: bytes) returns (r: Result<bytes>, rest: bytes)
    ensures Split(input).Ok? ==> r == Ok(Split(input).value.0) && rest == Split(input).value.1
    ensures Split(input).Err? ==> r == Err(Split(input).error)
    ensures !r.Diverges?
  {
    var len;
    len, rest := DecodeHeader(input);
    if len.Err? { return Err(len.error), rest; }
    if len.value > |rest| { return Err(UnexpectedEOF), rest; }
    r, rest := Ok(rest[..len.value]), rest[len.value..];
  }

  /** `mls_decode`, with the collection loops of vectors and maps. */
  method DecodeReader(s: Schema, input: bytes) returns (r: Result<Value>, rest: bytes)
    ensures Read(Decode(s, input), r, rest)
    decreases s, 0
  {
    rest := input;
    match s
    case UInt(width) =>
      if width > |input| { return Err(UnexpectedEOF), input; }
      r, rest := Ok(VInt(FromBE(input[..width]))), input[width..];
    case Array(len) =>
      if len > |input| { return Err(UnexpectedEOF), input; }
      r, rest := Ok(VBytes(input[..len])), input[len..];
    case ByteVec =>
      var content, tail := SplitReader(input);
      if content.Err? { return Err(content.error), tail; }
      r, rest := Ok(VBytes(content.value)), tail;
    case Unit => r := Ok(VUnit);
    case Pair(a, b) =>
      r, rest := DecodeReader(a, input);
      if r.Ok? {
        var x := r.value;
        r, rest := DecodeReader(b, rest);
        if r.Ok? { r := Ok(VPair(x, r.value)); }
      }
    case Opt(t) =>
      if input == [] { return Err(UnexpectedEOF), input; }
      if input[0] == 0 {
        r, rest := Ok(VNone), input[1..];
      } else if input[0] == 1 {
        r, rest := DecodeReader(t, input[1..]);
        if r.Ok? { r := Ok(VSome(r.value)); }
      } else {
        r := Err(OptionOutOfRange(input[0]));
      }
    case Enum(width, variants) =>
      if width > |input| { return Err(UnexpectedEOF), input; }
      var tag := FindVariant(variants, FromBE(input[..width]));
      if tag == |variants| { return Err(UnsupportedEnumDiscriminant), input; }
      r, rest := DecodeReader(variants[tag].payload, input[width..]);
      if r.Ok? { r := Ok(VEnum(tag, r.value)); }
    case Vector(e) =>
      var content, tail := SplitReader(input);
      if content.Err? { return Err(content.error), tail; }
      var items := DecodeVecLoop(e, content.value);
      if !items.Ok? { return items.PropagateFailure(), tail; }
      r, rest := Ok(VSeq(items.value)), tail;
    case MapOf(e) =>
      var content, tail := SplitReader(input);
      if content.Err? { return Err(content.error), tail; }
      var entries := DecodeMapLoop(e, content.value);
      if !entries.Ok? { return entries.PropagateFailure(), tail; }
      r, rest := Ok(VSeq(entries.value)), tail;
  }

  /** Items already decoded, in front of what the rest of the content gives. */
  ghost function Prepend(items: seq<Value>, more: Result<seq<Value>>): Result<seq<Value>> {
    if more.Ok? then Ok(items + more.value) else more
  }

  lemma PrependStep(e: Schema, data: bytes, items: seq<Value>)
    requires data != [] && Decode(e, data).Ok? && |Decode(e, data).value.1| < |data|
    ensures var (x, rest) := Decode(e, data).value;
            Prepend(items, DecodeItems(e, data)) == Prepend(items + [x], DecodeItems(e, rest))
  {
    var (x, rest) := Decode(e, data).value;
    var more := DecodeItems(e, rest);
    if more.Ok? { assert items + ([x] + more.value) == items + [x] + more.value; }
  }

  method DecodeVecLoop(e: Schema, content: bytes) returns (r: Result<seq<Value>>)
    ensures r == DecodeItems(e, content)
    decreases e, 1
  {
    var data, items := content, [];
    if DecodeItems(e, content).Ok? {
      assert [] + DecodeItems(e, content).value == DecodeItems(e, content).value;
    }
    while data != []
      invariant DecodeItems(e, content) == Prepend(items, DecodeItems(e, data))
      decreases |data|
    {
      var x, rest := DecodeReader(e, data);
      if !x.Ok? { return x.PropagateFailure(); }
      if |rest| >= |data| { return Diverges; }
      PrependStep(e, data, items);
      data, items := rest, items + [x.value];
    }
    assert items + [] == items;
    r := Ok(items);
  }

  method DecodeMapLoop(e: Schema, content: bytes) returns (r: Result<seq<Value>>)
    ensures DecodeItems(e, content).Ok? ==> r == Ok(InsertAll([], DecodeItems(e, content).value))
    ensures !DecodeItems(e, content).Ok? ==> r == DecodeItems(e, content)
    decreases e, 1
  {
    var data, entries := content, [];
    while data != []
      invariant DecodeItems(e, content).Ok? == DecodeItems(e, data).Ok?
      invariant DecodeItems(e, data).Ok? ==>
                  InsertAll([], DecodeItems(e, content).value) == InsertAll(entries, DecodeItems(e, data).value)
      invariant !DecodeItems(e, data).Ok? ==> DecodeItems(e, content) == DecodeItems(e, data)
      decreases |data|
    {
      var x, rest := DecodeReader(e, data);
      if !x.Ok? { return x.PropagateFailure(); }
      if |rest| >= |data| { return Diverges; }
      if DecodeItems(e, rest).Ok? {
        var tail := DecodeItems(e, rest).value;
        assert ([x.value] + tail)[0] == x.value && ([x.value] + tail)[1..] == tail;
      }
      data, entries := rest, Insert(entries, x.value);
    }
    r := Ok(entries);
  }
}
