/** The size, encode and decode operations of every schema. */
module Codec {
  import opened Bytes
  import opened CodecResult
  import opened Schema
  import VarInt

  // ------------------------------------------------------------------
  // Size
  // ------------------------------------------------------------------

  /** Length of a collection with `len` bytes of content. A header that does not exist
      counts as the header of zero. */
  function CollectionSize(len: nat): nat {
    VarInt.CountBytesRanges(len);
    (if len <= VarInt.VARINT_MAX then VarInt.CountBytes(len) else 1) + len
  }

  /** `mls_encoded_len`. */
  function Size(s: Schema, v: Value): nat
    requires HasType(s, v)
    decreases s, 0, 0
  {
    match s
    case UInt(w) => w
    case Array(len) => len
    case ByteVec => CollectionSize(|v.bytes|)
    case Unit => 0
    case Pair(a, b) => Size(a, v.fst) + Size(b, v.snd)
    case Opt(t) => 1 + (if v.VNone? then 0 else Size(t, v.v))
    case Vector(e) => CollectionSize(SizeItems(e, v.items))
    case MapOf(e) => CollectionSize(SizeItems(e, v.items))
    case Enum(w, variants) => w + Size(variants[v.tag].payload, v.payload)
  }

  function SizeItems(e: Schema, items: seq<Value>): nat
    requires HasTypes(e, items)
    decreases e, 1, |items|
  {
    if items == [] then 0 else Size(e, items[0]) + SizeItems(e, items[1..])
  }

  // ------------------------------------------------------------------
  // Encode
  // ------------------------------------------------------------------

  function WithHeader(content: bytes): Result<bytes> {
    var n :- VarInt.TryFrom(|content|);
    Ok(VarInt.Encode(n) + content)
  }

  /** `mls_encode` as built without preallocation: a collection's items are encoded first,
      then counted. */
  function Encode(s: Schema, v: Value): (r: Result<bytes>)
    requires HasType(s, v)
    ensures !r.Ok? ==> r == Err(VarIntOutOfRange)
    decreases s, 0, 0
  {
    match s
    case UInt(w) => Ok(ToBE(v.n, w))
    case Array(_) => Ok(v.bytes)
    case ByteVec => WithHeader(v.bytes)
    case Unit => Ok([])
    case Pair(a, b) =>
      var x :- Encode(a, v.fst);
      var y :- Encode(b, v.snd);
      Ok(x + y)
    case Opt(t) =>
      if v.VNone? then Ok([0])
      else
        var x :- Encode(t, v.v);
        Ok([1] + x)
    case Vector(e) =>
      var content :- EncodeItems(e, v.items);
      WithHeader(content)
    case MapOf(e) =>
      var content :- EncodeItems(e, v.items);
      WithHeader(content)
    case Enum(w, variants) =>
      var x :- Encode(variants[v.tag].payload, v.payload);
      Ok(ToBE(variants[v.tag].discriminant, w) + x)
  }

  function EncodeItems(e: Schema, items: seq<Value>): (r: Result<bytes>)
    requires HasTypes(e, items)
    ensures !r.Ok? ==> r == Err(VarIntOutOfRange)
    decreases e, 1, |items|
  {
    if items == [] then Ok([])
    else
      var x :- Encode(e, items[0]);
      var y :- EncodeItems(e, items[1..]);
      Ok(x + y)
  }

  /** `mls_encode` as built with preallocation: a collection's header is written from the
      computed sizes, before any item is encoded. */
  function EncodePreallocated(s: Schema, v: Value): (r: Result<bytes>)
    requires HasType(s, v)
    ensures !r.Ok? ==> r == Err(VarIntOutOfRange)
    decreases s, 0, 0
  {
    match s
    case UInt(w) => Ok(ToBE(v.n, w))
    case Array(_) => Ok(v.bytes)
    case ByteVec => WithHeader(v.bytes)
    case Unit => Ok([])
    case Pair(a, b) =>
      var x :- EncodePreallocated(a, v.fst);
      var y :- EncodePreallocated(b, v.snd);
      Ok(x + y)
    case Opt(t) =>
      if v.VNone? then Ok([0])
      else
        var x :- EncodePreallocated(t, v.v);
        Ok([1] + x)
    case Vector(e) =>
      var n :- VarInt.TryFrom(SizeItems(e, v.items));
      var content :- EncodePreallocatedItems(e, v.items);
      Ok(VarInt.Encode(n) + content)
    case MapOf(e) =>
      var n :- VarInt.TryFrom(SizeItems(e, v.items));
      var content :- EncodePreallocatedItems(e, v.items);
      Ok(VarInt.Encode(n) + content)
    case Enum(w, variants) =>
      var x :- EncodePreallocated(variants[v.tag].payload, v.payload);
      Ok(ToBE(variants[v.tag].discriminant, w) + x)
  }

  function EncodePreallocatedItems(e: Schema, items: seq<Value>): (r: Result<bytes>)
    requires HasTypes(e, items)
    ensures !r.Ok? ==> r == Err(VarIntOutOfRange)
    decreases e, 1, |items|
  {
    if items == [] then Ok([])
    else
      var x :- EncodePreallocated(e, items[0]);
      var y :- EncodePreallocatedItems(e, items[1..]);
      Ok(x + y)
  }

  // ------------------------------------------------------------------
  // Decode
  // ------------------------------------------------------------------

  /** Reads exactly `len` bytes. */
  function Take(input: bytes, len: nat): Result<(bytes, bytes)> {
    if len > |input| then Err(UnexpectedEOF) else Ok((input[..len], input[len..]))
  }

  /** `mls_decode_split_on_collection`. */
  function Split(input: bytes): Result<(bytes, bytes)> {
    var (len, rest) :- VarInt.Decode(input);
    Take(rest, len)
  }

  /** `HashMap::insert`: a later entry replaces an earlier one with the same key. */
  function Insert(entries: seq<Value>, x: Value): seq<Value> {
    var i := IndexOf(entries, Key(x));
    if i < |entries| then entries[i := x] else entries + [x]
  }

  function IndexOf(entries: seq<Value>, key: Value): (i: nat)
    ensures i <= |entries|
    ensures i < |entries| ==> Key(entries[i]) == key
    ensures forall j :: 0 <= j < i ==> Key(entries[j]) != key
  {
    if entries == [] || Key(entries[0]) == key then 0 else
    var i := IndexOf(entries[1..], key);
    assert forall j :: 0 < j < i + 1 ==> entries[j] == entries[1..][j - 1];
    1 + i
  }

  function InsertAll(entries: seq<Value>, items: seq<Value>): seq<Value>
    decreases |items|
  {
    if items == [] then entries else InsertAll(Insert(entries, items[0]), items[1..])
  }

  /** `mls_decode`: the value and the unread rest of the input. */
  function Decode(s: Schema, input: bytes): Result<(Value, bytes)>
    decreases s, 0, 0
  {
    match s
    case UInt(w) =>
      var (bs, rest) :- Take(input, w);
      Ok((VInt(FromBE(bs)), rest))
    case Array(len) =>
      var (bs, rest) :- Take(input, len);
      Ok((VBytes(bs), rest))
    case ByteVec =>
      var (bs, rest) :- Split(input);
      Ok((VBytes(bs), rest))
    case Unit => Ok((VUnit, input))
    case Pair(a, b) =>
      var (x, rest) :- Decode(a, input);
      var (y, rest') :- Decode(b, rest);
      Ok((VPair(x, y), rest'))
    case Opt(t) =>
      var (marker, rest) :- Take(input, 1);
      if marker[0] == 0 then Ok((VNone, rest))
      else if marker[0] == 1 then
        var (x, rest') :- Decode(t, rest);
        Ok((VSome(x), rest'))
      else Err(OptionOutOfRange(marker[0]))
    case Vector(e) =>
      var (content, rest) :- Split(input);
      var items :- DecodeItems(e, content);
      Ok((VSeq(items), rest))
    case MapOf(e) =>
      var (content, rest) :- Split(input);
      var items :- DecodeItems(e, content);
      Ok((VSeq(InsertAll([], items)), rest))
    case Enum(w, variants) =>
      var (bs, rest) :- Take(input, w);
      var tag := FindVariant(variants, FromBE(bs));
      if tag == |variants| then Err(UnsupportedEnumDiscriminant)
      else
        var (x, rest') :- Decode(variants[tag].payload, rest);
        Ok((VEnum(tag, x), rest'))
  }

  /** Decodes items until the content is used up. An item that consumes nothing is decoded
      from the same content over and over. */
  function DecodeItems(e: Schema, content: bytes): Result<seq<Value>>
    decreases e, 1, |content|
  {
    if content == [] then Ok([])
    else
      var (x, rest) :- Decode(e, content);
      if |rest| >= |content| then Diverges
      else
        var items :- DecodeItems(e, rest);
        Ok([x] + items)
  }
}
