/** Laws of the codec that hold for every schema. */
module CodecLaws {
  import opened Bytes
  import opened CodecResult
  import opened Schema
  import opened Codec
  import VarInt

  // ------------------------------------------------------------------
  // Exact size
  // ------------------------------------------------------------------

  /** The computed length is the number of bytes written. */
  lemma {:induction false} SizeExact(s: Schema, v: Value)
    requires HasType(s, v) && Encode(s, v).Ok?
    ensures |Encode(s, v).value| == Size(s, v)
    decreases s, 0, 0
  {
    match s
    case UInt(_) =>
    case Array(_) =>
    case ByteVec => HeaderSize(|v.bytes|);
    case Unit =>
    case Pair(a, b) => SizeExact(a, v.fst); SizeExact(b, v.snd);
    case Opt(t) => if v.VSome? { SizeExact(t, v.v); }
    case Vector(e) => ItemsSizeExact(e, v.items); HeaderSize(SizeItems(e, v.items));
    case MapOf(e) => ItemsSizeExact(e, v.items); HeaderSize(SizeItems(e, v.items));
    case Enum(_, variants) => SizeExact(variants[v.tag].payload, v.payload);
  }

  lemma {:induction false} ItemsSizeExact(e: Schema, items: seq<Value>)
    requires HasTypes(e, items) && EncodeItems(e, items).Ok?
    ensures |EncodeItems(e, items).value| == SizeItems(e, items)
    decreases e, 1, |items|
  {
    if items != [] {
      SizeExact(e, items[0]);
      ItemsSizeExact(e, items[1..]);
    }
  }

  lemma HeaderSize(n: nat)
    requires n <= VarInt.VARINT_MAX
    ensures |VarInt.Encode(n)| + n == CollectionSize(n)
  {
    VarInt.EncodeBytes(n);
    VarInt.CountBytesRanges(n);
  }

  // ------------------------------------------------------------------
  // When encoding succeeds
  // ------------------------------------------------------------------

  /** Every collection inside `v`, at every depth, has content of at most 2^30 - 1 bytes. */
  ghost predicate Fits(s: Schema, v: Value)
    requires HasType(s, v)
    decreases s
  {
    match s
    case ByteVec => |v.bytes| <= VarInt.VARINT_MAX
    case Pair(a, b) => Fits(a, v.fst) && Fits(b, v.snd)
    case Opt(t) => v.VSome? ==> Fits(t, v.v)
    case Vector(e) =>
      && SizeItems(e, v.items) <= VarInt.VARINT_MAX
      && (forall i :: 0 <= i < |v.items| ==> Fits(e, v.items[i]))
    case MapOf(e) =>
      && SizeItems(e, v.items) <= VarInt.VARINT_MAX
      && (forall i :: 0 <= i < |v.items| ==> Fits(e, v.items[i]))
    case Enum(_, variants) => Fits(variants[v.tag].payload, v.payload)
    case _ => true
  }

  ghost predicate AllFit(e: Schema, items: seq<Value>)
    requires HasTypes(e, items)
  {
    forall i :: 0 <= i < |items| ==> Fits(e, items[i])
  }

  /** Encoding succeeds exactly on the values that fit. */
  lemma {:induction false} EncodeOkIffFits(s: Schema, v: Value)
    requires HasType(s, v)
    ensures Encode(s, v).Ok? <==> Fits(s, v)
    decreases s, 0, 0
  {
    match s
    case UInt(_) =>
    case Array(_) =>
    case ByteVec =>
    case Unit =>
    case Pair(a, b) => EncodeOkIffFits(a, v.fst); EncodeOkIffFits(b, v.snd);
    case Opt(t) => if v.VSome? { EncodeOkIffFits(t, v.v); }
    case Vector(e) => CollectionOkIffFits(e, v.items);
    case MapOf(e) => CollectionOkIffFits(e, v.items);
    case Enum(_, variants) => EncodeOkIffFits(variants[v.tag].payload, v.payload);
  }

  lemma AllFitCons(e: Schema, items: seq<Value>)
    requires HasTypes(e, items) && items != []
    ensures AllFit(e, items) <==> Fits(e, items[0]) && AllFit(e, items[1..])
  {
    assert items == [items[0]] + items[1..];
  }

  lemma {:induction false} CollectionOkIffFits(e: Schema, items: seq<Value>)
    requires HasTypes(e, items)
    ensures EncodeItems(e, items).Ok? <==> AllFit(e, items)
    ensures EncodeItems(e, items).Ok? ==> |EncodeItems(e, items).value| == SizeItems(e, items)
    decreases e, 1, |items|
  {
    if items != [] {
      EncodeOkIffFits(e, items[0]);
      CollectionOkIffFits(e, items[1..]);
      AllFitCons(e, items);
      if EncodeItems(e, items).Ok? { ItemsSizeExact(e, items); }
    }
  }

  /** A value that does not encode also has a computed size beyond the limit. */
  lemma {:induction false} FailureShowsInSize(s: Schema, v: Value)
    requires HasType(s, v) && !Encode(s, v).Ok?
    ensures Size(s, v) > VarInt.VARINT_MAX
    decreases s, 0, 0
  {
    match s
    case ByteVec =>
    case Pair(a, b) =>
      if !Encode(a, v.fst).Ok? { FailureShowsInSize(a, v.fst); } else { FailureShowsInSize(b, v.snd); }
    case Opt(t) => FailureShowsInSize(t, v.v);
    case Vector(e) => ItemsFailureShowsInSize(e, v.items);
    case MapOf(e) => ItemsFailureShowsInSize(e, v.items);
    case Enum(_, variants) => FailureShowsInSize(variants[v.tag].payload, v.payload);
  }

  lemma {:induction false} ItemsFailureShowsInSize(e: Schema, items: seq<Value>)
    requires HasTypes(e, items)
    requires EncodeItems(e, items).Ok? ==> |EncodeItems(e, items).value| > VarInt.VARINT_MAX
    ensures SizeItems(e, items) > VarInt.VARINT_MAX
    decreases e, 1, |items|
  {
    if EncodeItems(e, items).Ok? {
      ItemsSizeExact(e, items);
    } else if !Encode(e, items[0]).Ok? {
      FailureShowsInSize(e, items[0]);
    } else {
      ItemsFailureShowsInSize(e, items[1..]);
    }
  }

  // ------------------------------------------------------------------
  // The two collection encoders agree
  // ------------------------------------------------------------------

  /** Trusting the computed sizes changes nothing: same bytes, same failures. */
  lemma {:induction false} PreallocatedAgrees(s: Schema, v: Value)
    requires HasType(s, v)
    ensures EncodePreallocated(s, v) == Encode(s, v)
    decreases s, 0, 0
  {
    match s
    case UInt(_) =>
    case Array(_) =>
    case ByteVec =>
    case Unit =>
    case Pair(a, b) => PreallocatedAgrees(a, v.fst); PreallocatedAgrees(b, v.snd);
    case Opt(t) => if v.VSome? { PreallocatedAgrees(t, v.v); }
    case Vector(e) => PreallocatedCollectionAgrees(e, v.items);
    case MapOf(e) => PreallocatedCollectionAgrees(e, v.items);
    case Enum(_, variants) => PreallocatedAgrees(variants[v.tag].payload, v.payload);
  }

  lemma PreallocatedCollectionAgrees(e: Schema, items: seq<Value>)
    requires HasTypes(e, items)
    ensures EncodePreallocatedItems(e, items) == EncodeItems(e, items)
    ensures EncodeItems(e, items).Ok? ==> |EncodeItems(e, items).value| == SizeItems(e, items)
    decreases e, 2, |items|
  {
    PreallocatedItemsAgree(e, items);
    if EncodeItems(e, items).Ok? { ItemsSizeExact(e, items); }
  }

  lemma {:induction false} PreallocatedItemsAgree(e: Schema, items: seq<Value>)
    requires HasTypes(e, items)
    ensures EncodePreallocatedItems(e, items) == EncodeItems(e, items)
    decreases e, 1, |items|
  {
    if items != [] {
      PreallocatedAgrees(e, items[0]);
      PreallocatedItemsAgree(e, items[1..]);
    }
  }

  // ------------------------------------------------------------------
  // Round trip
  // ------------------------------------------------------------------

  lemma {:induction false} PositiveSize(s: Schema, v: Value)
    requires HasType(s, v) && Positive(s)
    ensures Size(s, v) >= 1
  {
    match s
    case Pair(a, b) =>
      if Positive(a) { PositiveSize(a, v.fst); } else { PositiveSize(b, v.snd); }
    case ByteVec => CollectionSizePositive(|v.bytes|);
    case Vector(e) => CollectionSizePositive(SizeItems(e, v.items));
    case MapOf(e) => CollectionSizePositive(SizeItems(e, v.items));
    case _ =>
  }

  lemma CollectionSizePositive(n: nat)
    ensures CollectionSize(n) >= 1 + n
  {
    VarInt.CountBytesRanges(n);
  }

  lemma SplitRoundTrip(content: bytes, rest: bytes)
    requires |content| <= VarInt.VARINT_MAX
    ensures Split(WithHeader(content).value + rest) == Ok((content, rest))
  {
    var header := VarInt.Encode(|content|);
    assert header + content + rest == header + (content + rest);
    VarInt.RoundTrip(|content|, content + rest);
    assert (content + rest)[..|content|] == content;
    assert (content + rest)[|content|..] == rest;
  }

  lemma TakeRoundTrip(bs: bytes, rest: bytes)
    ensures Take(bs + rest, |bs|) == Ok((bs, rest))
  {
    assert (bs + rest)[..|bs|] == bs;
    assert (bs + rest)[|bs|..] == rest;
  }

  /** Decoding undoes encoding, and leaves exactly what follows. */
  lemma {:induction false} RoundTrip(s: Schema, v: Value, rest: bytes)
    requires WellFormed(s) && HasType(s, v) && Encode(s, v).Ok?
    ensures Decode(s, Encode(s, v).value + rest) == Ok((v, rest))
    decreases s, 1, 0
  {
    match s
    case UInt(w) => FromToBE(v.n, w); TakeRoundTrip(ToBE(v.n, w), rest);
    case Array(_) => TakeRoundTrip(v.bytes, rest);
    case ByteVec => SplitRoundTrip(v.bytes, rest);
    case Unit => assert [] + rest == rest;
    case Pair(a, b) =>
      var x, y := Encode(a, v.fst).value, Encode(b, v.snd).value;
      assert x + y + rest == x + (y + rest);
      RoundTrip(a, v.fst, y + rest);
      RoundTrip(b, v.snd, rest);
    case Opt(t) =>
      if v.VNone? {
        TakeRoundTrip([0], rest);
      } else {
        var x := Encode(t, v.v).value;
        assert [1] + x + rest == [1] + (x + rest);
        TakeRoundTrip([1], x + rest);
        RoundTrip(t, v.v, rest);
      }
    case Vector(e) =>
      SplitRoundTrip(EncodeItems(e, v.items).value, rest);
      ItemsRoundTrip(e, v.items);
    case MapOf(e) =>
      SplitRoundTrip(EncodeItems(e, v.items).value, rest);
      ItemsRoundTrip(e, v.items);
      InsertAllDistinct([], v.items);
      assert [] + v.items == v.items;
    case Enum(w, variants) => EnumRoundTrip(s, v, rest);
  }

  lemma {:induction false} EnumRoundTrip(s: Schema, v: Value, rest: bytes)
    requires WellFormed(s) && HasType(s, v) && Encode(s, v).Ok? && s.Enum?
    ensures Decode(s, Encode(s, v).value + rest) == Ok((v, rest))
    decreases s, 0, 0
  {
    var variants, w := s.variants, s.discriminantWidth;
    var arm := variants[v.tag];
    var d := ToBE(arm.discriminant, w);
    var x := Encode(arm.payload, v.payload).value;
    assert d + x + rest == d + (x + rest);
    TakeRoundTrip(d, x + rest);
    FromToBE(arm.discriminant, w);
    assert FindVariant(variants, arm.discriminant) == v.tag;
    RoundTrip(arm.payload, v.payload, rest);
  }

  lemma {:induction false} ItemsRoundTrip(e: Schema, items: seq<Value>)
    requires WellFormed(e) && Positive(e) && HasTypes(e, items) && EncodeItems(e, items).Ok?
    ensures DecodeItems(e, EncodeItems(e, items).value) == Ok(items)
    decreases e, 2, |items|
  {
    if items != [] {
      var x, y := Encode(e, items[0]).value, EncodeItems(e, items[1..]).value;
      SizeExact(e, items[0]);
      PositiveSize(e, items[0]);
      RoundTrip(e, items[0], y);
      ItemsRoundTrip(e, items[1..]);
      assert [items[0]] + items[1..] == items;
    }
  }

  /** Inserting entries with new, distinct keys one by one appends them. */
  lemma {:induction false} InsertAllDistinct(entries: seq<Value>, items: seq<Value>)
    requires DistinctKeys(entries + items)
    ensures InsertAll(entries, items) == entries + items
    decreases |items|
  {
    if items == [] {
      assert entries + items == entries;
    } else {
      var all := entries + items;
      assert all[|entries|] == items[0];
      assert forall i :: 0 <= i < |entries| ==> all[i] == entries[i];
      assert IndexOf(entries, Key(items[0])) == |entries|;
      assert entries + [items[0]] + items[1..] == entries + items;
      InsertAllDistinct(entries + [items[0]], items[1..]);
    }
  }

  // ------------------------------------------------------------------
  // Typing and canonical form of what is decoded
  // ------------------------------------------------------------------

  /** Decoding yields values of the schema's type, from any input whatever. */
  lemma {:induction false} DecodeTyped(s: Schema, input: bytes)
    requires Decode(s, input).Ok?
    ensures HasType(s, Decode(s, input).value.0)
    decreases s, 0, 0
  {
    match s
    case UInt(w) => FromBEBound(input[..w]);
    case Array(_) =>
    case ByteVec =>
    case Unit =>
    case Pair(a, b) => DecodeTyped(a, input); DecodeTyped(b, Decode(a, input).value.1);
    case Opt(t) => if input[0] == 1 { DecodeTyped(t, input[1..]); }
    case Vector(e) => ItemsTyped(e, Split(input).value.0);
    case MapOf(e) =>
      var content := Split(input).value.0;
      ItemsTyped(e, content);
      InsertAllTyped(e, [], DecodeItems(e, content).value);
    case Enum(w, variants) =>
      DecodeTyped(variants[FindVariant(variants, FromBE(input[..w]))].payload, input[w..]);
  }

  lemma {:induction false} ItemsTyped(e: Schema, content: bytes)
    requires DecodeItems(e, content).Ok?
    ensures HasTypes(e, DecodeItems(e, content).value)
    decreases e, 1, |content|
  {
    if content != [] {
      DecodeTyped(e, content);
      ItemsTyped(e, Decode(e, content).value.1);
    }
  }

  lemma {:induction false} InsertAllTyped(e: Schema, entries: seq<Value>, items: seq<Value>)
    requires HasTypes(e, entries) && HasTypes(e, items) && DistinctKeys(entries)
    ensures HasTypes(e, InsertAll(entries, items)) && DistinctKeys(InsertAll(entries, items))
    decreases |items|
  {
    if items != [] {
      InsertAllTyped(e, Insert(entries, items[0]), items[1..]);
    }
  }

  lemma SplitParts(input: bytes)
    requires Split(input).Ok?
    ensures VarInt.Decode(input).Ok?
    ensures var (content, rest) := Split(input).value;
            VarInt.Decode(input).value == (|content|, content + rest) && |content| <= VarInt.VARINT_MAX
  {
    var (len, tail) := VarInt.Decode(input).value;
    assert tail == tail[..len] + tail[len..];
  }

  lemma SplitCanonical(input: bytes)
    requires Split(input).Ok?
    ensures var (content, rest) := Split(input).value;
            WithHeader(content).Ok? && input == WithHeader(content).value + rest
  {
    SplitParts(input);
    VarInt.Canonical(input);
    var (content, rest) := Split(input).value;
    var header := VarInt.Encode(|content|);
    assert header + (content + rest) == header + content + rest;
  }

  ghost predicate IsEncoding(s: Schema, v: Value, input: bytes, rest: bytes) {
    HasType(s, v) && Encode(s, v).Ok? && input == Encode(s, v).value + rest
  }

  /** Without maps there is one encoding per value: the bytes that a successful decode consumed
      are the encoding of its result. */
  lemma {:induction false} Canonical(s: Schema, input: bytes, v: Value, rest: bytes)
    requires Compiles(s) && MapFree(s) && Decode(s, input) == Ok((v, rest))
    ensures HasType(s, v) && Encode(s, v).Ok? && input == Encode(s, v).value + rest
    decreases s, 1, 0
  {
    DecodeTyped(s, input);
    match s
    case UInt(w) => ToFromBE(input[..w]);
    case Array(_) =>
    case ByteVec => SplitCanonical(input);
    case Unit =>
    case Pair(_, _) => PairCanonical(s, input, v, rest);
    case Opt(_) => OptCanonical(s, input, v, rest);
    case Vector(_) => VectorCanonical(s, input, v, rest);
    case Enum(_, _) => EnumCanonical(s, input, v, rest);
  }

  lemma OptDecodeParts(t: Schema, input: bytes, v: Value, rest: bytes)
    requires Decode(Opt(t), input) == Ok((v, rest))
    ensures |input| >= 1 && (v.VNone? || v.VSome?)
    ensures v.VNone? ==> input[0] == 0 && rest == input[1..]
    ensures v.VSome? ==> input[0] == 1 && Decode(t, input[1..]) == Ok((v.v, rest))
  {
  }

  lemma {:induction false} OptCanonical(s: Schema, input: bytes, v: Value, rest: bytes)
    requires s.Opt? && Compiles(s) && MapFree(s) && Decode(s, input) == Ok((v, rest)) && HasType(s, v)
    ensures IsEncoding(s, v, input, rest)
    decreases s, 0, 0
  {
    OptDecodeParts(s.inner, input, v, rest);
    assert input == [input[0]] + input[1..];
    if v.VSome? {
      Canonical(s.inner, input[1..], v.v, rest);
      var x := Encode(s.inner, v.v).value;
      assert [1] + (x + rest) == [1] + x + rest;
    }
  }

  lemma {:induction false} VectorCanonical(s: Schema, input: bytes, v: Value, rest: bytes)
    requires s.Vector? && Compiles(s) && MapFree(s) && Decode(s, input) == Ok((v, rest)) && HasType(s, v)
    ensures IsEncoding(s, v, input, rest)
    decreases s, 0, 0
  {
    SplitCanonical(input);
    ItemsCanonical(s.elem, Split(input).value.0, v.items);
  }

  lemma {:induction false} PairCanonical(s: Schema, input: bytes, v: Value, rest: bytes)
    requires s.Pair? && Compiles(s) && MapFree(s) && Decode(s, input) == Ok((v, rest)) && HasType(s, v)
    ensures IsEncoding(s, v, input, rest)
    decreases s, 0, 0
  {
    var mid := Decode(s.first, input).value.1;
    Canonical(s.first, input, v.fst, mid);
    Canonical(s.second, mid, v.snd, rest);
    var x, y := Encode(s.first, v.fst).value, Encode(s.second, v.snd).value;
    assert x + (y + rest) == x + y + rest;
  }

  lemma EnumDecodeParts(s: Schema, input: bytes, v: Value, rest: bytes)
    requires s.Enum? && Decode(s, input) == Ok((v, rest))
    ensures |input| >= s.discriminantWidth && v.VEnum? && v.tag < |s.variants|
    ensures s.variants[v.tag].discriminant == FromBE(input[..s.discriminantWidth])
    ensures Decode(s.variants[v.tag].payload, input[s.discriminantWidth..]) == Ok((v.payload, rest))
  {
    var head := Take(input, s.discriminantWidth);
    assert head.Ok? && head.value == (input[..s.discriminantWidth], input[s.discriminantWidth..]);
    var tag := FindVariant(s.variants, FromBE(head.value.0));
    assert tag < |s.variants|;
    var x := Decode(s.variants[tag].payload, head.value.1);
    assert x.Ok? && (v, rest) == (VEnum(tag, x.value.0), x.value.1);
  }

  lemma {:induction false} EnumCanonical(s: Schema, input: bytes, v: Value, rest: bytes)
    requires s.Enum? && Compiles(s) && MapFree(s) && Decode(s, input) == Ok((v, rest)) && HasType(s, v)
    ensures IsEncoding(s, v, input, rest)
    decreases s, 0, 0
  {
    EnumDecodeParts(s, input, v, rest);
    Canonical(s.variants[v.tag].payload, input[s.discriminantWidth..], v.payload, rest);
    EnumCompose(s, input, v, rest);
  }

  lemma EnumCompose(s: Schema, input: bytes, v: Value, rest: bytes)
    requires s.Enum? && HasType(s, v) && |input| >= s.discriminantWidth
    requires s.variants[v.tag].discriminant == FromBE(input[..s.discriminantWidth])
    requires IsEncoding(s.variants[v.tag].payload, v.payload, input[s.discriminantWidth..], rest)
    ensures IsEncoding(s, v, input, rest)
  {
    var w := s.discriminantWidth;
    var head, tail := input[..w], input[w..];
    ToFromBE(head);
    var x := Encode(s.variants[v.tag].payload, v.payload).value;
    assert input == head + tail;
    assert head + (x + rest) == head + x + rest;
  }

  lemma {:induction false} ItemsCanonical(e: Schema, content: bytes, items: seq<Value>)
    requires Compiles(e) && MapFree(e) && DecodeItems(e, content) == Ok(items)
    ensures HasTypes(e, items) && EncodeItems(e, items) == Ok(content)
    decreases e, 2, |content|
  {
    ItemsTyped(e, content);
    if content != [] {
      var rest := Decode(e, content).value.1;
      Canonical(e, content, items[0], rest);
      assert items[1..] == DecodeItems(e, rest).value;
      ItemsCanonical(e, rest, items[1..]);
    }
  }
}
