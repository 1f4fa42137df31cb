/** The map of the builds without the standard library: a vector of entries. */
module SmallMap {
  import opened Bytes
  import opened CodecResult
  import Schema
  import Codec
  import MapCodec
  import A = AssocList
  import W = Wrappers

  class SmallMap<K(==), V> {
    var entries: seq<A.Entry<K, V>>

    constructor ()
      ensures entries == []
    {
      entries := [];
    }

    /** `find`: the position of a key. */
    method Position(key: K) returns (i: W.Option<nat>)
      ensures i == if A.Find(entries, key) < |entries| then W.Some(A.Find(entries, key)) else W.None
    {
      for j := 0 to |entries|
        invariant forall k :: 0 <= k < j ==> entries[k].key != key
      {
        if entries[j].key == key {
          A.FindIs(entries, key, j);
          return W.Some(j);
        }
      }
      i := W.None;
    }

    method Get(key: K) returns (v: W.Option<V>)
      ensures v == A.Get(entries, key)
    {
      var i := Position(key);
      v := if i.Some? then W.Some(entries[i.value].value) else W.None;
    }

    method Insert(key: K, value: V)
      modifies this
      ensures entries == A.Set(old(entries), A.Entry(key, value))
    {
      var i := Position(key);
      if i.Some? {
        entries := entries[i.value := A.Entry(key, value)];
      } else {
        entries := entries + [A.Entry(key, value)];
      }
    }

    method Remove(key: K) returns (v: W.Option<V>)
      modifies this
      ensures v == A.Get(old(entries), key)
      ensures entries == A.RemoveFirst(old(entries), key)
    {
      v := Get(key);
      var i := Position(key);
      if i.Some? {
        entries := entries[..i.value] + entries[i.value + 1..];
      }
    }
  }

  datatype Op<K, V> = Insert(key: K, value: V) | Remove(key: K)

  /** What a sequence of calls does to the entries. */
  function Run<K(==), V>(l: seq<A.Entry<K, V>>, ops: seq<Op<K, V>>): seq<A.Entry<K, V>>
    decreases |ops|
  {
    if ops == [] then l
    else match ops[0]
      case Insert(k, v) => Run(A.Set(l, A.Entry(k, v)), ops[1..])
      case Remove(k) => Run(A.RemoveFirst(l, k), ops[1..])
  }

  /** The same calls on a mathematical map. */
  ghost function RunMap<K, V>(m: map<K, V>, ops: seq<Op<K, V>>): map<K, V>
    decreases |ops|
  {
    if ops == [] then m
    else match ops[0]
      case Insert(k, v) => RunMap(m[k := v], ops[1..])
      case Remove(k) => RunMap(m - {k}, ops[1..])
  }

  /** Every run keeps keys unique and agrees with the mathematical map. */
  lemma {:induction false} RunRefinesMap<K(!new), V>(l: seq<A.Entry<K, V>>, ops: seq<Op<K, V>>)
    requires A.Unique(l)
    ensures A.Unique(Run(l, ops))
    ensures A.ToMap(Run(l, ops)) == RunMap(A.ToMap(l), ops)
    decreases |ops|
  {
    if ops != [] {
      match ops[0]
      case Insert(k, v) =>
        A.SetRefines(l, A.Entry(k, v));
        RunRefinesMap(A.Set(l, A.Entry(k, v)), ops[1..]);
      case Remove(k) =>
        A.RemoveFirstRefines(l, k);
        RunRefinesMap(A.RemoveFirst(l, k), ops[1..]);
    }
  }

  /** From the empty map, every lookup after every run is the mathematical one. */
  lemma RunThenGet<K(!new), V>(ops: seq<Op<K, V>>, key: K)
    ensures var m := RunMap(map[], ops);
            A.Get(Run([], ops), key) == if key in m then W.Some(m[key]) else W.None
  {
    RunRefinesMap<K, V>([], ops);
    A.GetIsMapLookup(Run([], ops), key);
  }

  /** The entries as decoded: without the standard library the map decodes as a plain vector,
      with no check of the keys. */
  function FromItems(items: seq<Schema.Value>): seq<A.Entry<Schema.Value, Schema.Value>>
    requires MapCodec.AllPairs(items)
  {
    seq(|items|, i requires 0 <= i < |items| => A.Entry(items[i].fst, items[i].snd))
  }

  // ------------------------------------------------------------------
  // The two builds
  // ------------------------------------------------------------------

  /** Entry `i` is the first one of its key; entry `j` is the last one. */
  ghost predicate IsFirst(items: seq<Schema.Value>, i: nat)
    requires MapCodec.AllPairs(items) && i < |items|
  {
    forall k :: 0 <= k < i ==> items[k].fst != items[i].fst
  }

  ghost predicate IsLast(items: seq<Schema.Value>, j: nat)
    requires MapCodec.AllPairs(items) && j < |items|
  {
    forall k :: j < k < |items| ==> items[k].fst != items[j].fst
  }

  /** The first and the last binding of every key carry the same value. */
  ghost predicate FirstIsLast(items: seq<Schema.Value>)
    requires MapCodec.AllPairs(items)
  {
    forall i, j ::
      (0 <= i < |items| && 0 <= j < |items| && items[i].fst == items[j].fst && IsFirst(items, i) && IsLast(items, j))
      ==> items[i].snd == items[j].snd
  }

  ghost predicate HasKey(items: seq<Schema.Value>, key: Schema.Value)
    requires MapCodec.AllPairs(items)
  {
    exists i :: 0 <= i < |items| && items[i].fst == key
  }

  /** Updates one after the other leave the last binding of a key, or what was there. */
  lemma {:induction false} UpdateIsLast(m: map<Schema.Value, Schema.Value>, items: seq<Schema.Value>, key: Schema.Value)
    requires MapCodec.AllPairs(items)
    ensures var u := MapCodec.Update(m, items);
            && (key in u <==> key in m || HasKey(items, key))
            && (!HasKey(items, key) && key in m ==> u[key] == m[key])
            && (forall j :: 0 <= j < |items| && items[j].fst == key && IsLast(items, j) ==> u[key] == items[j].snd)
    decreases |items|
  {
    if items != [] {
      var tail := items[1..];
      UpdateIsLast(m[items[0].fst := items[0].snd], tail, key);
      assert forall i :: 0 < i < |items| ==> items[i] == tail[i - 1];
      assert HasKey(tail, key) ==> HasKey(items, key) by {
        if HasKey(tail, key) {
          var i :| 0 <= i < |tail| && tail[i].fst == key;
          assert items[i + 1].fst == key;
        }
      }
      assert HasKey(items, key) ==> items[0].fst == key || HasKey(tail, key);
      forall j | 0 <= j < |items| && items[j].fst == key && IsLast(items, j)
        ensures MapCodec.Update(m, items)[key] == items[j].snd
      {
        if j > 0 {
          assert IsLast(tail, j - 1) by {
            forall k | j - 1 < k < |tail| ensures tail[k].fst != tail[j - 1].fst { assert tail[k] == items[k + 1]; }
          }
        } else {
          assert !HasKey(tail, key) by {
            forall k | 0 <= k < |tail| ensures tail[k].fst != key { assert tail[k] == items[k + 1]; }
          }
        }
      }
    }
  }

  /** A lookup in the vector finds the first binding of a key. */
  lemma LookupIsFirst(items: seq<Schema.Value>, key: Schema.Value)
    requires MapCodec.AllPairs(items)
    ensures var m := A.ToMap(FromItems(items));
            && (key in m <==> HasKey(items, key))
            && (forall i :: 0 <= i < |items| && items[i].fst == key && IsFirst(items, i) ==> m[key] == items[i].snd)
  {
    var l := FromItems(items);
    A.GetIsMapLookup(l, key);
    assert HasKey(items, key) ==> key in A.Keys(l) by {
      if HasKey(items, key) {
        var i :| 0 <= i < |items| && items[i].fst == key;
        assert l[i].key == key;
      }
    }
    forall i | 0 <= i < |items| && items[i].fst == key && IsFirst(items, i)
      ensures A.Get(l, key) == W.Some(items[i].snd)
    {
      A.FindIs(l, key, i);
    }
  }

  lemma {:induction false} SomeFirst(items: seq<Schema.Value>, i: nat) returns (f: nat)
    requires MapCodec.AllPairs(items) && i < |items|
    ensures f <= i && items[f].fst == items[i].fst && IsFirst(items, f)
  {
    f := i;
    if k :| 0 <= k < i && items[k].fst == items[i].fst { f := SomeFirst(items, k); }
  }

  lemma {:induction false} SomeLast(items: seq<Schema.Value>, i: nat) returns (l: nat)
    requires MapCodec.AllPairs(items) && i < |items|
    ensures i <= l < |items| && items[l].fst == items[i].fst && IsLast(items, l)
    decreases |items| - i
  {
    l := i;
    if k :| i < k < |items| && items[k].fst == items[i].fst { l := SomeLast(items, k); }
  }

  lemma SameMapIff(items: seq<Schema.Value>)
    requires MapCodec.AllPairs(items)
    ensures A.ToMap(FromItems(items)) == MapCodec.Update(map[], items) <==> FirstIsLast(items)
  {
    var vec, hash := A.ToMap(FromItems(items)), MapCodec.Update(map[], items);
    forall key ensures key in vec <==> key in hash {
      LookupIsFirst(items, key);
      UpdateIsLast(map[], items, key);
    }
    if vec == hash {
      forall i, j | 0 <= i < |items| && 0 <= j < |items| && items[i].fst == items[j].fst
                    && IsFirst(items, i) && IsLast(items, j)
        ensures items[i].snd == items[j].snd
      {
        LookupIsFirst(items, items[i].fst);
        UpdateIsLast(map[], items, items[i].fst);
      }
    }
    if FirstIsLast(items) {
      forall key | key in vec ensures vec[key] == hash[key] {
        LookupIsFirst(items, key);
        UpdateIsLast(map[], items, key);
        var n :| 0 <= n < |items| && items[n].fst == key;
        var i := SomeFirst(items, n);
        var j := SomeLast(items, n);
      }
    }
  }

  /** Both builds accept the same bytes. The vector build and the hash map build read the same map
      from them if and only if the first and the last binding of every key carry the same value. */
  lemma BuildsAgreeIff(e: Schema.Schema, input: bytes)
    requires e.Pair?
    ensures Codec.Decode(Schema.Vector(e), input).Ok? <==> Codec.Decode(Schema.MapOf(e), input).Ok?
    ensures Codec.Decode(Schema.Vector(e), input).Ok? ==>
              var vec := Codec.Decode(Schema.Vector(e), input).value.0;
              var hash := Codec.Decode(Schema.MapOf(e), input).value.0;
              && vec.VSeq? && MapCodec.AllPairs(vec.items) && hash.VSeq?
              && MapCodec.Enumerates(hash.items, MapCodec.Update(map[], vec.items))
              && (A.ToMap(FromItems(vec.items)) == MapCodec.Update(map[], vec.items) <==> FirstIsLast(vec.items))
  {
    if Codec.Decode(Schema.Vector(e), input).Ok? {
      MapCodec.DecodedMap(e, input);
      SameMapIff(Codec.Decode(Schema.Vector(e), input).value.0.items);
    }
  }

  /** A repeated key with two values: the vector finds the first, the hash map keeps the last. */
  lemma BuildsDisagreeOnRepeatedKey(k: byte, x: byte, y: byte)
    requires x != y
    ensures var input: bytes := [4, k, x, k, y];
            var vec := Codec.Decode(Schema.Vector(MapCodec.U8_PAIR), input);
            var hash := Codec.Decode(Schema.MapOf(MapCodec.U8_PAIR), input);
            && vec.Ok? && vec.value.0.VSeq? && MapCodec.AllPairs(vec.value.0.items)
            && hash == Ok((Schema.VSeq([Schema.VPair(Schema.VInt(k), Schema.VInt(y))]), []))
            && A.Get(FromItems(vec.value.0.items), Schema.VInt(k)) == W.Some(Schema.VInt(x))
            && !FirstIsLast(vec.value.0.items)
  {
    MapCodec.DecodeTwo(k, x, k, y);
    MapCodec.InsertTwice(Schema.VInt(k), Schema.VInt(x), Schema.VInt(y));
    FirstOfTwo(Schema.VInt(k), Schema.VInt(x), Schema.VInt(y));
  }

  lemma FirstOfTwo(k: Schema.Value, x: Schema.Value, y: Schema.Value)
    requires x != y
    ensures var items := [Schema.VPair(k, x), Schema.VPair(k, y)];
            A.Get(FromItems(items), k) == W.Some(x) && !FirstIsLast(items)
  {
    var items := [Schema.VPair(k, x), Schema.VPair(k, y)];
    assert FromItems(items)[0] == A.Entry(k, x);
    assert IsFirst(items, 0) && IsLast(items, 1) && items[0].snd != items[1].snd;
  }
}
