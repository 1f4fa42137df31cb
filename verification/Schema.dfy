/** The types that have an MLS codec, as a small language of schemas, and their values.

    A derived struct is a right-nested `Pair` that ends in `Unit` (see `StructOf`); a tuple is a
    `Pair`; an enum variant without a field has payload `Unit`. A `MapOf(Pair(key, value))` is a
    hash map or ordered map, whose value is the sequence of its entries in iteration order. */
module Schema {
  import opened Bytes

  datatype Schema =
    | UInt(width: nat)
    | Array(len: nat)
    | ByteVec
    | Unit
    | Pair(first: Schema, second: Schema)
    | Opt(inner: Schema)
    | Vector(elem: Schema)
    | MapOf(entry: Schema)
    | Enum(discriminantWidth: nat, variants: seq<Variant>)

  datatype Variant = Variant(discriminant: nat, payload: Schema)

  datatype Value =
    | VInt(n: nat)
    | VBytes(bytes: bytes)
    | VUnit
    | VPair(fst: Value, snd: Value)
    | VNone
    | VSome(v: Value)
    | VSeq(items: seq<Value>)
    | VEnum(tag: nat, payload: Value)

  function StructOf(fields: seq<Schema>): Schema {
    if fields == [] then Unit else Pair(fields[0], StructOf(fields[1..]))
  }

  function StructValue(fields: seq<Value>): Value {
    if fields == [] then VUnit else VPair(fields[0], StructValue(fields[1..]))
  }

  /** The key of a map entry. */
  function Key(entry: Value): Value {
    if entry.VPair? then entry.fst else entry
  }

  ghost predicate DistinctKeys(entries: seq<Value>) {
    forall i, j :: 0 <= i < j < |entries| ==> Key(entries[i]) != Key(entries[j])
  }

  /** `v` is a value of the Rust type that `s` describes. */
  ghost predicate HasType(s: Schema, v: Value)
    decreases s
  {
    match s
    case UInt(w) => v.VInt? && v.n < Pow256(w)
    case Array(len) => v.VBytes? && |v.bytes| == len
    case ByteVec => v.VBytes?
    case Unit => v.VUnit?
    case Pair(a, b) => v.VPair? && HasType(a, v.fst) && HasType(b, v.snd)
    case Opt(t) => v.VNone? || (v.VSome? && HasType(t, v.v))
    case Vector(e) => v.VSeq? && forall i :: 0 <= i < |v.items| ==> HasType(e, v.items[i])
    case MapOf(e) =>
      v.VSeq? && DistinctKeys(v.items) && forall i :: 0 <= i < |v.items| ==> HasType(e, v.items[i])
    case Enum(_, variants) =>
      v.VEnum? && v.tag < |variants| && HasType(variants[v.tag].payload, v.payload)
  }

  ghost predicate HasTypes(e: Schema, items: seq<Value>) {
    forall i :: 0 <= i < |items| ==> HasType(e, items[i])
  }

  /** Every value of the type takes at least one byte. */
  predicate Positive(s: Schema) {
    match s
    case UInt(w) => w > 0
    case Array(len) => len > 0
    case Unit => false
    case Pair(a, b) => Positive(a) || Positive(b)
    case Enum(w, _) => w > 0
    case _ => true
  }

  predicate MapFree(s: Schema) {
    match s
    case Pair(a, b) => MapFree(a) && MapFree(b)
    case Opt(t) => MapFree(t)
    case Vector(e) => MapFree(e)
    case MapOf(_) => false
    case Enum(_, variants) => forall i :: 0 <= i < |variants| ==> MapFree(variants[i].payload)
    case _ => true
  }

  /** What the Rust compiler demands of a type: integers of at least one byte, distinct
      discriminants that fit their width, and maps whose entries are key-value pairs. */
  predicate Compiles(s: Schema) {
    match s
    case UInt(w) => w > 0
    case Pair(a, b) => Compiles(a) && Compiles(b)
    case Opt(t) => Compiles(t)
    case Vector(e) => Compiles(e)
    case MapOf(e) => e.Pair? && Compiles(e) && MapFree(e.first)
    case Enum(w, variants) =>
      && w > 0
      && DistinctDiscriminants(variants)
      && (forall i :: 0 <= i < |variants| ==> variants[i].discriminant < Pow256(w))
      && (forall i :: 0 <= i < |variants| ==> Compiles(variants[i].payload))
    case _ => true
  }

  predicate DistinctDiscriminants(variants: seq<Variant>) {
    forall i, j :: 0 <= i < j < |variants| ==> variants[i].discriminant != variants[j].discriminant
  }

  /** Vector and map elements take at least one byte, at every level. */
  predicate Productive(s: Schema) {
    match s
    case Pair(a, b) => Productive(a) && Productive(b)
    case Opt(t) => Productive(t)
    case Vector(e) => Positive(e) && Productive(e)
    case MapOf(e) => Positive(e) && Productive(e)
    case Enum(_, variants) => forall i :: 0 <= i < |variants| ==> Productive(variants[i].payload)
    case _ => true
  }

  predicate WellFormed(s: Schema) {
    Compiles(s) && Productive(s)
  }

  /** The arm of the generated `match` that a discriminant selects; the number of arms if none. */
  function FindVariant(variants: seq<Variant>, discriminant: nat, from: nat := 0): (tag: nat)
    requires from <= |variants|
    ensures from <= tag <= |variants|
    ensures tag < |variants| ==> variants[tag].discriminant == discriminant
    ensures forall i :: from <= i < tag ==> variants[i].discriminant != discriminant
    decreases |variants| - from
  {
    if from == |variants| || variants[from].discriminant == discriminant then from
    else FindVariant(variants, discriminant, from + 1)
  }
}
