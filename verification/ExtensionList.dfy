/** Lists of extensions with at most one entry per extension type. */
module ExtensionList {
  import opened Bytes
  import opened CodecResult
  import opened Schema
  import opened Codec
  import opened CodecLaws
  import CodecTheorems
  import A = AssocList
  import W = Wrappers

  /** An extension: its type and its data. */
  type Extension = A.Entry<u16, bytes>

  // ------------------------------------------------------------------
  // Equality
  // ------------------------------------------------------------------

  /** `PartialEq::eq`. */
  predicate Equal(a: seq<Extension>, b: seq<Extension>) {
    A.Matches(a, b)
  }

  /** On lists with unique types, equality ignores order: it is equality of the denoted maps. */
  lemma EqualIffSameMap(a: seq<Extension>, b: seq<Extension>)
    requires A.Unique(a) && A.Unique(b)
    ensures Equal(a, b) <==> A.ToMap(a) == A.ToMap(b)
  {
    A.MatchesIffSameMap(a, b);
  }

  /** It is an equivalence relation there, although it is checked in one direction only. */
  lemma EqualIsEquivalence(a: seq<Extension>, b: seq<Extension>, c: seq<Extension>)
    requires A.Unique(a) && A.Unique(b) && A.Unique(c)
    ensures Equal(a, a)
    ensures Equal(a, b) ==> Equal(b, a)
    ensures Equal(a, b) && Equal(b, c) ==> Equal(a, c)
  {
    EqualIffSameMap(a, a);
    EqualIffSameMap(a, b);
    EqualIffSameMap(b, a);
    EqualIffSameMap(b, c);
    EqualIffSameMap(a, c);
  }

  /** On any lists, repetitions included, it is transitive; it is symmetric exactly when the other
      list has no further type and is equal to itself, that is, repeats types with equal data
      only. Unique types on the left suffice. */
  lemma EqualOnAnyLists(a: seq<Extension>, b: seq<Extension>, c: seq<Extension>)
    requires Equal(a, b)
    ensures Equal(b, a) <==> A.Keys(b) <= A.Keys(a) && Equal(b, b)
    ensures A.Unique(a) ==> A.Unique(b) && Equal(b, a)
    ensures Equal(b, c) ==> Equal(a, c)
  {
    A.MatchesBackIff(a, b);
    if A.Unique(a) {
      A.MatchesUnique(a, b);
      EqualIsEquivalence(a, b, b);
    }
    if Equal(b, c) { A.MatchesTransitive(a, b, c); }
  }

  /** Lists with a repeated type, which `append` can build, break symmetry. */
  lemma EqualNotSymmetricOnDuplicates(t: u16, u: u16, x: bytes, y: bytes)
    requires t != u
    ensures var a, b := [A.Entry(t, x), A.Entry(t, x)], [A.Entry(t, x), A.Entry(u, y)];
            Equal(a, b) && !Equal(b, a)
  {
    var a: seq<Extension> := [A.Entry(t, x), A.Entry(t, x)];
    var b: seq<Extension> := [A.Entry(t, x), A.Entry(u, y)];
    A.FindIs(b, t, 0);
    A.FindIs(a, u, 2);
    assert A.Get(a, b[1].key) == W.None;
  }

  // ------------------------------------------------------------------
  // The list object
  // ------------------------------------------------------------------

  /** `Vec::retain` of the entries with other types. */
  method RetainOthers(l: seq<Extension>, t: u16) returns (kept: seq<Extension>)
    ensures kept == A.Retain(l, t)
  {
    kept := [];
    assert l[0..] == l && kept + A.Retain(l, t) == A.Retain(l, t);
    for i := 0 to |l|
      invariant kept + A.Retain(l[i..], t) == A.Retain(l, t)
    {
      A.RetainStep(l, i, t, kept);
      if l[i].key != t { kept := kept + [l[i]]; }
    }
    assert kept + [] == kept;
  }

  class ExtensionList {
    var items: seq<Extension>

    ghost predicate Valid()
      reads this
    {
      A.Unique(items)
    }

    ghost function Denotes(): map<u16, bytes>
      reads this
    {
      A.ToMap(items)
    }

    constructor ()
      ensures Valid() && Denotes() == map[] && items == []
    {
      items := [];
    }

    method Get(t: u16) returns (e: W.Option<Extension>)
      ensures e == if t in Denotes() then W.Some(A.Entry(t, Denotes()[t])) else W.None
    {
      A.GetIsMapLookup(items, t);
      for j := 0 to |items|
        invariant forall k :: 0 <= k < j ==> items[k].key != t
      {
        if items[j].key == t {
          A.FindIs(items, t, j);
          return W.Some(items[j]);
        }
      }
      A.FindIs(items, t, |items|);
      e := W.None;
    }

    method Set(e: Extension)
      modifies this
      ensures items == A.Set(old(items), e)
      ensures old(Valid()) ==> Valid()
      ensures Denotes() == old(Denotes())[e.key := e.value]
    {
      A.SetRefines(items, e);
      var i := A.Find(items, e.key);
      if i < |items| {
        items := items[i := e];
      } else {
        items := items + [e];
      }
    }

    /** `extend`, and with it `From<Vec>` and `FromIterator`: one `set` per element. */
    method Extend(es: seq<Extension>)
      modifies this
      ensures items == A.SetAll(old(items), es)
      ensures old(Valid()) ==> Valid()
      ensures Denotes() == A.UpdateAll(old(Denotes()), es)
    {
      A.SetAllRefines(items, es);
      assert es[0..] == es;
      for i := 0 to |es|
        invariant A.SetAll(items, es[i..]) == A.SetAll(old(items), es)
      {
        assert es[i..][0] == es[i] && es[i..][1..] == es[i + 1..];
        Set(es[i]);
      }
      assert A.SetAll(items, es[|es|..]) == items;
    }

    method Remove(t: u16)
      modifies this
      ensures items == A.Retain(old(items), t)
      ensures old(Valid()) ==> Valid()
      ensures Denotes() == old(Denotes()) - {t}
    {
      A.RetainRefines(items, t);
      items := RetainOthers(items, t);
    }

    /** `append`: the vectors are concatenated as they are. */
    method Append(others: seq<Extension>)
      modifies this
      ensures items == old(items) + others
      ensures old(Valid()) && A.Unique(others) ==>
                (Valid() <==> A.Keys(old(items)) !! A.Keys(others))
    {
      if A.Unique(items) && A.Unique(others) { A.ConcatUniqueIff(items, others); }
      items := items + others;
    }
  }

  /** `append` updates the denoted map, as its documentation says and `extend` does, exactly when
      shared types carry equal data. */
  lemma AppendUpdatesIff(a: seq<Extension>, b: seq<Extension>)
    requires A.Unique(b)
    ensures A.ToMap(a + b) == A.UpdateAll(A.ToMap(a), b)
            <==> forall t :: t in A.Keys(a) && t in A.Keys(b) ==> A.Get(a, t) == A.Get(b, t)
    ensures A.ToMap(A.SetAll(a, b)) == A.UpdateAll(A.ToMap(a), b)
  {
    A.SetAllRefines(a, b);
    A.ConcatUpdatesIff(a, b);
  }

  /** Appending a list that shares a type keeps the old value visible, unlike `extend`, which
      the documentation of `append` describes. */
  lemma AppendKeepsOldValue(a: seq<Extension>, b: seq<Extension>, t: u16)
    requires t in A.Keys(a) && t in A.Keys(b)
    ensures A.Get(a + b, t) == A.Get(a, t)
    ensures A.Get(a, t).Some?
  {
    A.GetConcat(a, b, t);
    A.GetIsMapLookup(a, t);
  }

  // ------------------------------------------------------------------
  // Codec
  // ------------------------------------------------------------------

  const EXTENSION: Schema := StructOf([StructOf([UInt(2)]), ByteVec])

  function ToValue(e: Extension): Value {
    VPair(VPair(VInt(e.key), VUnit), VPair(VBytes(e.value), VUnit))
  }

  lemma ExtensionSchema()
    ensures EXTENSION == Pair(Pair(UInt(2), Unit), Pair(ByteVec, Unit))
    ensures WellFormed(EXTENSION) && Positive(EXTENSION) && MapFree(EXTENSION)
    ensures Pow256(2) == 0x1_0000
  {
    var inner := StructOf([UInt(2)]);
    assert [UInt(2)][1..] == [];
    assert inner == Pair(UInt(2), StructOf([]));
    assert [inner, ByteVec][1..] == [ByteVec];
    assert [ByteVec][1..] == [];
    assert StructOf([ByteVec]) == Pair(ByteVec, StructOf([]));
    assert Pow256(2) == 256 * Pow256(1);
  }

  function FromValue(v: Value): Extension
    requires HasType(EXTENSION, v)
  {
    ExtensionSchema();
    A.Entry(v.fst.fst.n, v.snd.fst.bytes)
  }

  lemma ToFromValue(e: Extension)
    ensures HasType(EXTENSION, ToValue(e)) && FromValue(ToValue(e)) == e
  {
    ExtensionSchema();
  }

  lemma FromToValue(v: Value)
    requires HasType(EXTENSION, v)
    ensures ToValue(FromValue(v)) == v
  {
    ExtensionSchema();
  }

  function ToValues(l: seq<Extension>): (vs: seq<Value>)
    ensures |vs| == |l|
    ensures forall i :: 0 <= i < |l| ==> vs[i] == ToValue(l[i])
  {
    seq(|l|, i requires 0 <= i < |l| => ToValue(l[i]))
  }

  lemma ToValuesTyped(l: seq<Extension>)
    ensures HasTypes(EXTENSION, ToValues(l))
  {
    forall i | 0 <= i < |l| ensures HasType(EXTENSION, ToValues(l)[i]) { ToFromValue(l[i]); }
  }

  /** The derived encoding: a vector of extensions. */
  function EncodeList(l: seq<Extension>): Result<bytes> {
    ToValuesTyped(l);
    Encode(Vector(EXTENSION), VSeq(ToValues(l)))
  }

  /** The decoding loop: a repeated type stops it, before anything that follows is read. */
  function DecodeUnique(content: bytes, l: seq<Extension>): (r: Result<seq<Extension>>)
    decreases |content|
  {
    if content == [] then Ok(l)
    else
      var (v, rest) :- Decode(EXTENSION, content);
      if |rest| >= |content| then Diverges
      else
        DecodeTyped(EXTENSION, content);
        var e := FromValue(v);
        if A.Find(l, e.key) < |l| then Err(Custom(1))
        else DecodeUnique(rest, l + [e])
  }

  /** `ExtensionList::mls_decode`. */
  function DecodeList(input: bytes): Result<(seq<Extension>, bytes)> {
    var (content, rest) :- Split(input);
    var l :- DecodeUnique(content, []);
    Ok((l, rest))
  }

  /** The loop as the source writes it. */
  method DecodeListLoop(content: bytes) returns (r: Result<seq<Extension>>)
    ensures r == DecodeUnique(content, [])
  {
    var data, list: seq<Extension> := content, [];
    while data != []
      invariant DecodeUnique(data, list) == DecodeUnique(content, [])
      decreases |data|
    {
      var x := Decode(EXTENSION, data);
      if !x.Ok? { return x.PropagateFailure(); }
      var (v, rest) := x.value;
      if |rest| >= |data| { return Diverges; }
      DecodeTyped(EXTENSION, data);
      var e := FromValue(v);
      if A.Find(list, e.key) < |list| { return Err(Custom(1)); }
      data, list := rest, list + [e];
    }
    r := Ok(list);
  }

  /** Without repetition the loop is the vector codec's loop. */
  lemma {:induction false} DecodeUniqueIff(content: bytes, l: seq<Extension>, result: seq<Extension>)
    requires A.Unique(l)
    ensures DecodeUnique(content, l) == Ok(result)
            <==> A.Unique(result) && l <= result
                 && DecodeItems(EXTENSION, content) == Ok(ToValues(result[|l|..]))
    decreases |content|
  {
    if content == [] {
      assert l <= result && ToValues(result[|l|..]) == [] ==> l == result;
      assert ToValues(l[|l|..]) == [];
    } else if Decode(EXTENSION, content).Ok? {
      DecodeTyped(EXTENSION, content);
      var (v, rest) := Decode(EXTENSION, content).value;
      var e := FromValue(v);
      FromToValue(v);
      if |rest| < |content| {
        DecodeUniqueStep(content, rest, l, e, result);
        if A.Find(l, e.key) == |l| {
          DecodeUniqueIff(rest, l + [e], result);
        }
      }
    }
  }

  lemma DecodeUniqueStep(content: bytes, rest: bytes, l: seq<Extension>, e: Extension, result: seq<Extension>)
    requires A.Unique(l) && content != [] && |rest| < |content|
    requires Decode(EXTENSION, content) == Ok((ToValue(e), rest))
    ensures A.Unique(result) && l <= result && DecodeItems(EXTENSION, content) == Ok(ToValues(result[|l|..]))
            <==> A.Find(l, e.key) == |l| && A.Unique(result) && l + [e] <= result
                 && DecodeItems(EXTENSION, rest) == Ok(ToValues(result[|l| + 1..]))
  {
    var here, there := DecodeItems(EXTENSION, content), DecodeItems(EXTENSION, rest);
    assert here.Ok? <==> there.Ok?;
    assert here.Ok? ==> here.value == [ToValue(e)] + there.value;
    if l <= result && here.Ok? {
      TailValues(e, result[|l|..], there.value);
      if |l| < |result| {
        assert result[|l|..][0] == result[|l|] && result[|l|..][1..] == result[|l| + 1..];
        assert l + [e] <= result <==> result[|l|] == e;
        if result[|l|] == e { NextKeyIsNew(l, e, result); }
      }
    }
  }

  /** A list of values that begins with an extension is that of a list that does. */
  lemma TailValues(e: Extension, tail: seq<Extension>, more: seq<Value>)
    ensures [ToValue(e)] + more == ToValues(tail) <==>
            tail != [] && tail[0] == e && more == ToValues(tail[1..])
  {
    if tail != [] {
      ToFromValue(e);
      ToFromValue(tail[0]);
      assert ToValues(tail) == [ToValue(tail[0])] + ToValues(tail[1..]);
      assert ([ToValue(e)] + more)[0] == ToValue(e) && ([ToValue(e)] + more)[1..] == more;
      assert ToValues(tail)[0] == ToValue(tail[0]) && ToValues(tail)[1..] == ToValues(tail[1..]);
    }
  }

  lemma NextKeyIsNew(l: seq<Extension>, e: Extension, result: seq<Extension>)
    requires l <= result && |l| < |result| && result[|l|] == e
    ensures A.Unique(result) ==> A.Find(l, e.key) == |l|
  {
    if A.Unique(result) {
      assert forall j :: 0 <= j < |l| ==> l[j] == result[j];
      A.FindIs(l, e.key, |l|);
    }
  }

  /** A list decodes as a vector of extensions does, if it repeats no type. */
  lemma DecodeListAsVector(input: bytes, l: seq<Extension>, rest: bytes)
    ensures DecodeList(input) == Ok((l, rest))
            <==> A.Unique(l) && Decode(Vector(EXTENSION), input) == Ok((VSeq(ToValues(l)), rest))
  {
    if Split(input).Ok? {
      DecodeUniqueIff(Split(input).value.0, [], l);
      assert l[0..] == l;
    }
  }

  /** Decoding accepts exactly the encodings of lists with unique types. */
  lemma DecodeListIff(input: bytes, l: seq<Extension>, rest: bytes)
    ensures DecodeList(input) == Ok((l, rest))
            <==> A.Unique(l) && EncodeList(l).Ok? && input == EncodeList(l).value + rest
  {
    ExtensionSchema();
    ToValuesTyped(l);
    DecodeListAsVector(input, l, rest);
    CodecTheorems.DecodeIffEncoding(Vector(EXTENSION), input, VSeq(ToValues(l)), rest);
  }

  // ------------------------------------------------------------------
  // Runs
  // ------------------------------------------------------------------

  datatype Op =
    | DoSet(e: Extension)
    | DoExtend(es: seq<Extension>)
    | DoRemove(t: u16)
    | DoFrom(es: seq<Extension>)
    | DoDecode(input: bytes)

  function Step(l: seq<Extension>, op: Op): seq<Extension> {
    match op
    case DoSet(e) => A.Set(l, e)
    case DoExtend(es) => A.SetAll(l, es)
    case DoRemove(t) => A.Retain(l, t)
    case DoFrom(es) => A.SetAll([], es)
    case DoDecode(input) => if DecodeList(input).Ok? then DecodeList(input).value.0 else l
  }

  ghost function StepMap(m: map<u16, bytes>, op: Op): map<u16, bytes> {
    match op
    case DoSet(e) => m[e.key := e.value]
    case DoExtend(es) => A.UpdateAll(m, es)
    case DoRemove(t) => m - {t}
    case DoFrom(es) => A.UpdateAll(map[], es)
    case DoDecode(input) => if DecodeList(input).Ok? then A.ToMap(DecodeList(input).value.0) else m
  }

  function Run(l: seq<Extension>, ops: seq<Op>): seq<Extension>
    decreases |ops|
  {
    if ops == [] then l else Run(Step(l, ops[0]), ops[1..])
  }

  ghost function RunMap(m: map<u16, bytes>, ops: seq<Op>): map<u16, bytes>
    decreases |ops|
  {
    if ops == [] then m else RunMap(StepMap(m, ops[0]), ops[1..])
  }

  lemma StepRefines(l: seq<Extension>, op: Op)
    requires A.Unique(l)
    ensures A.Unique(Step(l, op)) && A.ToMap(Step(l, op)) == StepMap(A.ToMap(l), op)
  {
    match op
    case DoSet(e) => A.SetRefines(l, e);
    case DoExtend(es) => A.SetAllRefines(l, es);
    case DoRemove(t) => A.RetainRefines(l, t);
    case DoFrom(es) => A.SetAllRefines([], es);
    case DoDecode(input) =>
      if DecodeList(input).Ok? {
        var (d, rest) := DecodeList(input).value;
        DecodeListIff(input, d, rest);
      }
  }

  /** Every sequence of calls keeps types unique and refines the same calls on a map. */
  lemma {:induction false} RunRefinesMap(l: seq<Extension>, ops: seq<Op>)
    requires A.Unique(l)
    ensures A.Unique(Run(l, ops)) && A.ToMap(Run(l, ops)) == RunMap(A.ToMap(l), ops)
    decreases |ops|
  {
    if ops != [] {
      StepRefines(l, ops[0]);
      RunRefinesMap(Step(l, ops[0]), ops[1..]);
    }
  }
}
