/** Consequences of the codec laws: termination, unique decoding, derived structs and
    domain-separated inputs. */
module CodecTheorems {
  import opened Bytes
  import opened CodecResult
  import opened Schema
  import opened Codec
  import opened CodecLaws
  import VarInt

  // ------------------------------------------------------------------
  // Termination
  // ------------------------------------------------------------------

  /** Decoding never reads past its input, and consumes a byte of every type that takes one. */
  lemma {:induction false} DecodeConsumes(s: Schema, input: bytes)
    requires Decode(s, input).Ok?
    ensures |Decode(s, input).value.1| <= |input|
    ensures Positive(s) ==> |Decode(s, input).value.1| < |input|
  {
    match s
    case Pair(a, b) =>
      DecodeConsumes(a, input);
      DecodeConsumes(b, Decode(a, input).value.1);
    case Opt(t) => if input[0] == 1 { DecodeConsumes(t, input[1..]); }
    case Enum(w, variants) =>
      DecodeConsumes(variants[FindVariant(variants, FromBE(input[..w]))].payload, input[w..]);
    case _ =>
  }

  /** Where vector elements take at least one byte, decoding ends on every input. */
  lemma {:induction false} DecodeTerminates(s: Schema, input: bytes)
    requires Productive(s)
    ensures Decode(s, input) != Diverges
    decreases s, 0, 0
  {
    match s
    case Pair(a, b) =>
      DecodeTerminates(a, input);
      if Decode(a, input).Ok? { DecodeTerminates(b, Decode(a, input).value.1); }
    case Opt(t) => if input != [] { DecodeTerminates(t, input[1..]); }
    case Vector(e) => if Split(input).Ok? { ItemsTerminate(e, Split(input).value.0); }
    case MapOf(e) => if Split(input).Ok? { ItemsTerminate(e, Split(input).value.0); }
    case Enum(w, variants) =>
      if w <= |input| {
        var tag := FindVariant(variants, FromBE(input[..w]));
        if tag < |variants| { DecodeTerminates(variants[tag].payload, input[w..]); }
      }
    case _ =>
  }

  lemma {:induction false} ItemsTerminate(e: Schema, content: bytes)
    requires Productive(e) && Positive(e)
    ensures DecodeItems(e, content) != Diverges
    decreases e, 1, |content|
  {
    if content != [] {
      DecodeTerminates(e, content);
      if Decode(e, content).Ok? {
        DecodeConsumes(e, content);
        ItemsTerminate(e, Decode(e, content).value.1);
      }
    }
  }

  /** A type that can take no bytes always does: it decodes from anything and consumes nothing. */
  lemma {:induction false} EmptyTypeDecodes(s: Schema, input: bytes)
    requires Compiles(s) && !Positive(s)
    ensures Decode(s, input).Ok? && Decode(s, input).value.1 == input
  {
    match s
    case Pair(a, b) =>
      EmptyTypeDecodes(a, input);
      EmptyTypeDecodes(b, input);
    case _ =>
  }

  const ONE_BYTE_OF_CONTENT: bytes := [1, 0]

  lemma SplitOneByte()
    ensures Split(ONE_BYTE_OF_CONTENT) == Ok(([0], []))
  {
    VarInt.DecodeBytes(ONE_BYTE_OF_CONTENT);
    assert ONE_BYTE_OF_CONTENT[1..] == [0];
    assert [0][..1] == [0] && [0][1..] == [];
  }

  /** So an element loop over any content never ends. */
  lemma EmptyElementsDiverge(e: Schema, content: bytes)
    requires Compiles(e) && !Positive(e) && content != []
    ensures DecodeItems(e, content) == Diverges
  {
    EmptyTypeDecodes(e, content);
  }

  /** The side condition on vector elements is exact: the element loop ends on every input
      if and only if an element takes at least one byte. */
  lemma VectorTerminatesIff(e: Schema)
    requires Compiles(e) && Productive(e)
    ensures (forall input :: Decode(Vector(e), input) != Diverges) <==> Positive(e)
  {
    if Positive(e) {
      var s := Vector(e);
      assert Productive(s);
      forall input ensures Decode(s, input) != Diverges {
        DecodeTerminates(s, input);
      }
    } else {
      SplitOneByte();
      EmptyElementsDiverge(e, [0]);
      assert Decode(Vector(e), ONE_BYTE_OF_CONTENT) == Diverges;
    }
  }

  /** ... and where it does not hold, every vector encodes like the empty one. */
  lemma {:induction false} EmptyElementsVanish(e: Schema, items: seq<Value>)
    requires Compiles(e) && !Positive(e) && HasTypes(e, items)
    ensures EncodeItems(e, items) == Ok([]) && Encode(Vector(e), VSeq(items)) == Ok([0])
    decreases |items|
  {
    assert WithHeader([]) == Ok([0]) by {
      VarInt.EncodeBytes(0);
      assert VarInt.Encode(0) + [] == [0];
    }
    if items != [] {
      EmptyTypeEncodes(e, items[0]);
      EmptyElementsVanish(e, items[1..]);
      var none: bytes := [];
      assert EncodeItems(e, items) == Ok(none + none);
      assert none + none == none;
    }
    assert HasType(Vector(e), VSeq(items));
  }

  lemma {:induction false} EmptyTypeEncodes(s: Schema, v: Value)
    requires Compiles(s) && !Positive(s) && HasType(s, v)
    ensures Encode(s, v) == Ok([])
  {
    match s
    case Pair(a, b) =>
      EmptyTypeEncodes(a, v.fst);
      EmptyTypeEncodes(b, v.snd);
      var none: bytes := [];
      assert none + none == none;
    case _ =>
  }

  // ------------------------------------------------------------------
  // Unique decoding
  // ------------------------------------------------------------------

  /** No encoding is a prefix of another, and different values have different encodings. */
  lemma PrefixFree(s: Schema, v: Value, w: Value, more: bytes)
    requires WellFormed(s) && HasType(s, v) && HasType(s, w)
    requires Encode(s, v).Ok? && Encode(s, w).Ok?
    requires Encode(s, w).value == Encode(s, v).value + more
    ensures v == w && more == []
  {
    RoundTrip(s, v, more);
    RoundTrip(s, w, []);
    assert Encode(s, w).value + [] == Encode(s, v).value + more;
  }

  /** For map-free types decoding accepts exactly the encodings. */
  lemma DecodeIffEncoding(s: Schema, input: bytes, v: Value, rest: bytes)
    requires WellFormed(s) && MapFree(s)
    ensures Decode(s, input) == Ok((v, rest)) <==> IsEncoding(s, v, input, rest)
  {
    if Decode(s, input) == Ok((v, rest)) {
      Canonical(s, input, v, rest);
    }
    if IsEncoding(s, v, input, rest) {
      RoundTrip(s, v, rest);
    }
  }

  // ------------------------------------------------------------------
  // Label-content inputs of signatures and hash references
  // ------------------------------------------------------------------

  /** The derived codec of `SignContent` and `RefHashInput`: two byte strings. */
  const LABELED: Schema := StructOf([ByteVec, ByteVec])

  function LabeledValue(name: bytes, content: bytes): Value {
    StructValue([VBytes(name), VBytes(content)])
  }

  /** `MLS 1.0 ` in ASCII. */
  const SIGN_PREFIX: bytes := [77, 76, 83, 32, 49, 46, 48, 32]

  /** The bytes that are signed for a label and a content. */
  function SignInput(name: bytes, content: bytes): Result<bytes> {
    LabeledTyped(SIGN_PREFIX + name, content);
    Encode(LABELED, LabeledValue(SIGN_PREFIX + name, content))
  }

  /** The bytes that are hashed for a label and a value. */
  function RefHashInput(name: bytes, value: bytes): Result<bytes> {
    LabeledTyped(name, value);
    Encode(LABELED, LabeledValue(name, value))
  }

  lemma LabeledTyped(name: bytes, content: bytes)
    ensures HasType(LABELED, LabeledValue(name, content)) && WellFormed(LABELED)
  {
    LabeledShape(name, content);
  }

  lemma LabeledShape(name: bytes, content: bytes)
    ensures LABELED == Pair(ByteVec, Pair(ByteVec, Unit))
    ensures LabeledValue(name, content) == VPair(VBytes(name), VPair(VBytes(content), VUnit))
  {
    assert [ByteVec, ByteVec][1..] == [ByteVec];
    assert [ByteVec][1..] == [];
    assert StructOf([ByteVec]) == Pair(ByteVec, StructOf([]));
    var vs := [VBytes(name), VBytes(content)];
    assert vs[1..] == [VBytes(content)];
    assert [VBytes(content)][1..] == [];
    assert StructValue([VBytes(content)]) == VPair(VBytes(content), StructValue([]));
  }

  /** No two label-content pairs are hashed as, or extend to, the same bytes. */
  lemma RefHashInputInjective(l1: bytes, c1: bytes, l2: bytes, c2: bytes, more: bytes)
    requires RefHashInput(l1, c1).Ok? && RefHashInput(l2, c2).Ok?
    requires RefHashInput(l2, c2).value == RefHashInput(l1, c1).value + more
    ensures l1 == l2 && c1 == c2 && more == []
  {
    LabeledTyped(l1, c1);
    LabeledTyped(l2, c2);
    PrefixFree(LABELED, LabeledValue(l1, c1), LabeledValue(l2, c2), more);
    LabeledShape(l1, c1);
    LabeledShape(l2, c2);
  }

  /** No two label-content pairs are signed as, or extend to, the same bytes. */
  lemma SignInputInjective(l1: bytes, c1: bytes, l2: bytes, c2: bytes, more: bytes)
    requires SignInput(l1, c1).Ok? && SignInput(l2, c2).Ok?
    requires SignInput(l2, c2).value == SignInput(l1, c1).value + more
    ensures l1 == l2 && c1 == c2 && more == []
  {
    RefHashInputInjective(SIGN_PREFIX + l1, c1, SIGN_PREFIX + l2, c2, more);
    assert (SIGN_PREFIX + l1)[8..] == l1 && (SIGN_PREFIX + l2)[8..] == l2;
  }

  // ------------------------------------------------------------------
  // Derived structs
  // ------------------------------------------------------------------

  ghost predicate FieldsTyped(schemas: seq<Schema>, values: seq<Value>) {
    |schemas| == |values| && forall i :: 0 <= i < |schemas| ==> HasType(schemas[i], values[i])
  }

  /** The bytes that the generated code writes: one field after the other, in order. */
  function EncodeFields(schemas: seq<Schema>, values: seq<Value>): Result<bytes>
    requires FieldsTyped(schemas, values)
  {
    if schemas == [] then Ok([])
    else
      var x :- Encode(schemas[0], values[0]);
      var y :- EncodeFields(schemas[1..], values[1..]);
      Ok(x + y)
  }

  /** A derived struct is its fields in order, and decodes back field by field. */
  lemma {:induction false} StructCodec(schemas: seq<Schema>, values: seq<Value>, rest: bytes)
    requires FieldsTyped(schemas, values)
    requires forall i :: 0 <= i < |schemas| ==> WellFormed(schemas[i])
    ensures HasType(StructOf(schemas), StructValue(values)) && WellFormed(StructOf(schemas))
    ensures Encode(StructOf(schemas), StructValue(values)) == EncodeFields(schemas, values)
    ensures EncodeFields(schemas, values).Ok? ==>
              Decode(StructOf(schemas), EncodeFields(schemas, values).value + rest)
              == Ok((StructValue(values), rest))
  {
    if schemas != [] {
      StructCodec(schemas[1..], values[1..], rest);
    }
    if EncodeFields(schemas, values).Ok? {
      RoundTrip(StructOf(schemas), StructValue(values), rest);
    }
  }
}
