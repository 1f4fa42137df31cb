/** Association lists kept in a vector: what `ExtensionList` and the Vec-backed `SmallMap`
    do to their entries, and the mathematical map that a list denotes. */
module AssocList {
  import opened Wrappers

  datatype Entry<K, V> = Entry(key: K, value: V)

  ghost predicate Unique<K, V>(l: seq<Entry<K, V>>) {
    forall i, j :: 0 <= i < j < |l| ==> l[i].key != l[j].key
  }

  ghost function Keys<K, V>(l: seq<Entry<K, V>>): set<K> {
    set i | 0 <= i < |l| :: l[i].key
  }

  /** Position of the first entry with this key; the length if there is none. */
  function Find<K(==), V>(l: seq<Entry<K, V>>, key: K): (i: nat)
    ensures i <= |l|
    ensures i < |l| ==> l[i].key == key
    ensures forall j :: 0 <= j < i ==> l[j].key != key
  {
    if l == [] || l[0].key == key then 0 else
    var i := Find(l[1..], key);
    assert forall j :: 0 < j < i + 1 ==> l[j] == l[1..][j - 1];
    1 + i
  }

  function Get<K(==), V>(l: seq<Entry<K, V>>, key: K): Option<V> {
    var i := Find(l, key);
    if i < |l| then Some(l[i].value) else None
  }

  /** Overwrites the entry with the same key, or adds one at the end. */
  function Set<K(==), V>(l: seq<Entry<K, V>>, e: Entry<K, V>): seq<Entry<K, V>> {
    var i := Find(l, e.key);
    if i < |l| then l[i := e] else l + [e]
  }

  function SetAll<K(==), V>(l: seq<Entry<K, V>>, es: seq<Entry<K, V>>): seq<Entry<K, V>>
    decreases |es|
  {
    if es == [] then l else SetAll(Set(l, es[0]), es[1..])
  }

  /** Takes out the first entry with this key. */
  function RemoveFirst<K(==), V>(l: seq<Entry<K, V>>, key: K): seq<Entry<K, V>> {
    var i := Find(l, key);
    if i < |l| then l[..i] + l[i + 1..] else l
  }

  /** Keeps the entries with other keys. */
  function Retain<K(==), V>(l: seq<Entry<K, V>>, key: K): seq<Entry<K, V>> {
    if l == [] then []
    else if l[0].key == key then Retain(l[1..], key)
    else [l[0]] + Retain(l[1..], key)
  }

  /** The map that lookups see: the first entry of a key counts. */
  ghost function ToMap<K, V>(l: seq<Entry<K, V>>): map<K, V> {
    if l == [] then map[] else ToMap(l[1..])[l[0].key := l[0].value]
  }

  // ------------------------------------------------------------------
  // Lookups and the denoted map
  // ------------------------------------------------------------------

  lemma {:induction false} GetIsMapLookup<K, V>(l: seq<Entry<K, V>>, key: K)
    ensures Get(l, key) == if key in ToMap(l) then Some(ToMap(l)[key]) else None
    ensures key in ToMap(l) <==> key in Keys(l)
  {
    KeysCons(l);
    if l != [] && l[0].key != key {
      GetIsMapLookup(l[1..], key);
    }
  }

  lemma KeysCons<K, V>(l: seq<Entry<K, V>>)
    ensures l != [] ==> Keys(l) == {l[0].key} + Keys(l[1..])
  {
    if l != [] {
      forall k ensures k in Keys(l) <==> k in {l[0].key} + Keys(l[1..]) {
        if k in Keys(l) {
          var i :| 0 <= i < |l| && l[i].key == k;
          if i > 0 { assert l[1..][i - 1].key == k; }
        }
        if k in Keys(l[1..]) {
          var i :| 0 <= i < |l[1..]| && l[1..][i].key == k;
          assert l[i + 1].key == k;
        }
      }
    }
  }

  lemma SameLookupsSameMap<K(!new), V>(a: seq<Entry<K, V>>, m: map<K, V>)
    requires forall k :: Get(a, k) == if k in m then Some(m[k]) else None
    ensures ToMap(a) == m
  {
    forall k ensures k in ToMap(a) <==> k in m {
      GetIsMapLookup(a, k);
    }
    forall k | k in m ensures k in ToMap(a) && ToMap(a)[k] == m[k] {
      GetIsMapLookup(a, k);
    }
    assert ToMap(a).Keys == m.Keys;
  }

  // ------------------------------------------------------------------
  // Updates refine map updates
  // ------------------------------------------------------------------

  lemma FindUnique<K, V>(l: seq<Entry<K, V>>, i: nat)
    requires Unique(l) && i < |l|
    ensures Find(l, l[i].key) == i
  {
  }

  lemma SetRefines<K(!new), V>(l: seq<Entry<K, V>>, e: Entry<K, V>)
    ensures ToMap(Set(l, e)) == ToMap(l)[e.key := e.value]
    ensures Unique(l) ==> Unique(Set(l, e))
  {
    var m := ToMap(l)[e.key := e.value];
    forall k ensures Get(Set(l, e), k) == if k in m then Some(m[k]) else None {
      SetThenGet(l, e, k);
      GetIsMapLookup(l, k);
    }
    SameLookupsSameMap(Set(l, e), m);
  }

  lemma FindIs<K, V>(l: seq<Entry<K, V>>, key: K, i: nat)
    requires i <= |l|
    requires i < |l| ==> l[i].key == key
    requires forall j :: 0 <= j < i ==> l[j].key != key
    ensures Find(l, key) == i
  {
  }

  lemma SetThenGet<K, V>(l: seq<Entry<K, V>>, e: Entry<K, V>, k: K)
    ensures Get(Set(l, e), k) == if k == e.key then Some(e.value) else Get(l, k)
  {
    var after := Set(l, e);
    if k == e.key {
      FindIs(after, k, Find(l, k));
    } else {
      var i := Find(l, k);
      FindIs(after, k, if i < |l| then i else |after|);
    }
  }

  lemma {:induction false} SetAllRefines<K(!new), V>(l: seq<Entry<K, V>>, es: seq<Entry<K, V>>)
    ensures ToMap(SetAll(l, es)) == UpdateAll(ToMap(l), es)
    ensures Unique(l) ==> Unique(SetAll(l, es))
    decreases |es|
  {
    if es != [] {
      SetRefines(l, es[0]);
      SetAllRefines(Set(l, es[0]), es[1..]);
    }
  }

  /** Map updates one after the other. */
  ghost function UpdateAll<K, V>(m: map<K, V>, es: seq<Entry<K, V>>): map<K, V>
    decreases |es|
  {
    if es == [] then m else UpdateAll(m[es[0].key := es[0].value], es[1..])
  }

  lemma GetCons<K, V>(e: Entry<K, V>, tail: seq<Entry<K, V>>, k: K)
    ensures Get([e] + tail, k) == if e.key == k then Some(e.value) else Get(tail, k)
  {
    assert ([e] + tail)[1..] == tail;
  }

  lemma {:induction false} RetainThenGet<K, V>(l: seq<Entry<K, V>>, key: K, k: K)
    ensures Get(Retain(l, key), k) == if k == key then None else Get(l, k)
  {
    if l != [] {
      RetainThenGet(l[1..], key, k);
      assert l == [l[0]] + l[1..];
      GetCons(l[0], l[1..], k);
      GetCons(l[0], Retain(l[1..], key), k);
    }
  }

  /** One turn of a loop that keeps the entries with other keys. */
  lemma RetainStep<K, V>(l: seq<Entry<K, V>>, i: nat, key: K, kept: seq<Entry<K, V>>)
    requires i < |l|
    ensures kept + Retain(l[i..], key)
            == (if l[i].key == key then kept else kept + [l[i]]) + Retain(l[i + 1..], key)
  {
    assert l[i..][0] == l[i] && l[i..][1..] == l[i + 1..];
    assert kept + ([l[i]] + Retain(l[i + 1..], key)) == kept + [l[i]] + Retain(l[i + 1..], key);
  }

  lemma {:induction false} RetainUnique<K, V>(l: seq<Entry<K, V>>, key: K)
    requires Unique(l)
    ensures Unique(Retain(l, key))
    ensures Keys(Retain(l, key)) <= Keys(l)
  {
    if l != [] {
      var tail := Retain(l[1..], key);
      RetainUnique(l[1..], key);
      KeysCons(l);
      assert l[0].key !in Keys(l[1..]);
      if l[0].key != key {
        KeysCons([l[0]] + tail);
        assert ([l[0]] + tail)[1..] == tail;
        forall j | 0 <= j < |tail| ensures tail[j].key != l[0].key { assert tail[j].key in Keys(tail); }
      }
    }
  }

  lemma RetainRefines<K(!new), V>(l: seq<Entry<K, V>>, key: K)
    ensures ToMap(Retain(l, key)) == ToMap(l) - {key}
    ensures Unique(l) ==> Unique(Retain(l, key))
  {
    var m := ToMap(l) - {key};
    forall k ensures Get(Retain(l, key), k) == if k in m then Some(m[k]) else None {
      GetIsMapLookup(l, k);
      RetainThenGet(l, key, k);
    }
    SameLookupsSameMap(Retain(l, key), m);
    if Unique(l) { RetainUnique(l, key); }
  }

  /** On unique keys, taking out the first entry is removing the key. */
  lemma RemoveFirstRefines<K(!new), V>(l: seq<Entry<K, V>>, key: K)
    requires Unique(l)
    ensures ToMap(RemoveFirst(l, key)) == ToMap(l) - {key} && Unique(RemoveFirst(l, key))
  {
    var m := ToMap(l) - {key};
    var after := RemoveFirst(l, key);
    forall k ensures Get(after, k) == if k in m then Some(m[k]) else None {
      GetIsMapLookup(l, k);
      RemoveThenGet(l, key, k);
    }
    SameLookupsSameMap(after, m);
  }

  lemma RemoveThenGet<K, V>(l: seq<Entry<K, V>>, key: K, k: K)
    requires Unique(l)
    ensures Get(RemoveFirst(l, key), k) == if k == key then None else Get(l, k)
  {
    var after, i, at := RemoveFirst(l, key), Find(l, k), Find(l, key);
    if k == key || i == |l| {
      FindIs(after, k, |after|);
    } else {
      FindIs(after, k, if i < at then i else i - 1);
    }
  }

  // ------------------------------------------------------------------
  // Appending and comparing
  // ------------------------------------------------------------------

  lemma GetConcat<K, V>(a: seq<Entry<K, V>>, b: seq<Entry<K, V>>, k: K)
    ensures Get(a + b, k) == if Get(a, k).Some? then Get(a, k) else Get(b, k)
  {
    var i := Find(a, k);
    FindIs(a + b, k, if i < |a| then i else |a| + Find(b, k));
  }

  /** Concatenation keeps keys unique exactly when the two lists share none. */
  lemma ConcatUniqueIff<K, V>(a: seq<Entry<K, V>>, b: seq<Entry<K, V>>)
    requires Unique(a) && Unique(b)
    ensures Unique(a + b) <==> Keys(a) !! Keys(b)
  {
    var c := a + b;
    if Unique(c) {
      forall i, j | 0 <= i < |a| && 0 <= j < |b| ensures a[i].key != b[j].key {
        assert c[i] == a[i] && c[|a| + j] == b[j];
      }
    }
    if Keys(a) !! Keys(b) {
      forall i, j | 0 <= i < j < |c| ensures c[i].key != c[j].key {
        if i < |a| <= j {
          assert a[i].key in Keys(a) && b[j - |a|].key in Keys(b);
        }
      }
    }
  }

  /** Updates one after the other, of unique keys, leave their values. */
  lemma {:induction false} UpdateAllLookup<K, V>(m: map<K, V>, es: seq<Entry<K, V>>, k: K)
    requires Unique(es)
    ensures var u := UpdateAll(m, es);
            && (k in u <==> k in m || k in Keys(es))
            && (k in u ==> Some(u[k]) == if k in Keys(es) then Get(es, k) else Some(m[k]))
    decreases |es|
  {
    KeysCons(es);
    GetIsMapLookup(es, k);
    if es != [] {
      UpdateAllLookup(m[es[0].key := es[0].value], es[1..], k);
      assert es[0].key !in Keys(es[1..]);
      if k != es[0].key {
        GetIsMapLookup(es[1..], k);
      } else {
        FindIs(es, k, 0);
      }
    }
  }

  /** Concatenation denotes the updated map exactly when shared keys carry equal values. */
  lemma ConcatUpdatesIff<K(!new), V>(a: seq<Entry<K, V>>, b: seq<Entry<K, V>>)
    requires Unique(b)
    ensures ToMap(a + b) == UpdateAll(ToMap(a), b)
            <==> forall k :: k in Keys(a) && k in Keys(b) ==> Get(a, k) == Get(b, k)
  {
    var c, u := ToMap(a + b), UpdateAll(ToMap(a), b);
    forall k
      ensures k in c <==> k in u
      ensures k in c ==> (c[k] == u[k] <==> (k in Keys(a) && k in Keys(b) ==> Get(a, k) == Get(b, k)))
      ensures k in Keys(a) ==> k in c
    {
      GetConcat(a, b, k);
      GetIsMapLookup(a, k);
      GetIsMapLookup(b, k);
      GetIsMapLookup(a + b, k);
      UpdateAllLookup(ToMap(a), b, k);
    }
    if forall k :: k in Keys(a) && k in Keys(b) ==> Get(a, k) == Get(b, k) {
      assert forall k :: k in c ==> c[k] == u[k];
    }
  }

  /** As many keys as entries. */
  lemma {:induction false} KeysCardinality<K, V>(l: seq<Entry<K, V>>)
    requires Unique(l)
    ensures |Keys(l)| == |l|
  {
    if l == [] {
      assert Keys(l) == {};
    } else {
      KeysCons(l);
      KeysCardinality(l[1..]);
      assert l[0].key !in Keys(l[1..]);
    }
  }

  /** Pigeonhole: a subset of the same finite size is the whole set. */
  lemma SubsetSameSize<T>(a: set<T>, b: set<T>)
    requires a <= b && |a| == |b|
    ensures a == b
  {
    assert |b - a| == |b| - |a|;
  }

  /** The one-directional comparison: same length, and every entry of `a` is what `b` has
      under its key. */
  predicate Matches<K(==), V(==)>(a: seq<Entry<K, V>>, b: seq<Entry<K, V>>) {
    |a| == |b| && forall i :: 0 <= i < |a| ==> Get(b, a[i].key) == Some(a[i].value)
  }

  lemma {:induction false} KeysAtMost<K, V>(l: seq<Entry<K, V>>)
    ensures |Keys(l)| <= |l|
    ensures |Keys(l)| == |l| ==> Unique(l)
  {
    if l == [] {
      assert Keys(l) == {};
    } else {
      KeysCons(l);
      KeysAtMost(l[1..]);
      assert l[0].key in Keys(l[1..]) ==> Keys(l) == Keys(l[1..]);
      if |Keys(l)| == |l| {
        forall j | 0 < j < |l| ensures l[0].key != l[j].key { assert l[j] == l[1..][j - 1]; }
        assert forall i :: 0 < i < |l| ==> l[i] == l[1..][i - 1];
      }
    }
  }

  lemma MatchesKeys<K, V>(a: seq<Entry<K, V>>, b: seq<Entry<K, V>>)
    requires Matches(a, b)
    ensures Keys(a) <= Keys(b)
  {
    forall i | 0 <= i < |a| ensures a[i].key in Keys(b) { GetIsMapLookup(b, a[i].key); }
  }

  /** A list with unique keys matches such lists only. */
  lemma MatchesUnique<K, V>(a: seq<Entry<K, V>>, b: seq<Entry<K, V>>)
    requires Unique(a) && Matches(a, b)
    ensures Unique(b)
  {
    MatchesKeys(a, b);
    KeysCardinality(a);
    KeysAtMost(b);
    SubsetAtLeast(Keys(a), Keys(b));
  }

  lemma SubsetAtLeast<T>(a: set<T>, b: set<T>)
    requires a <= b
    ensures |a| <= |b|
  {
    assert |b - a| == |b| - |a|;
  }

  /** On any lists: the comparison holds the other way round exactly when `a` has all keys of `b`
      and repetitions within `b` carry equal values. */
  lemma MatchesBackIff<K, V>(a: seq<Entry<K, V>>, b: seq<Entry<K, V>>)
    requires Matches(a, b)
    ensures Matches(b, a) <==> Keys(b) <= Keys(a) && Matches(b, b)
  {
    forall j | 0 <= j < |b| && b[j].key in Keys(a) ensures Get(a, b[j].key) == Get(b, b[j].key) {
      GetIsMapLookup(a, b[j].key);
      var i := Find(a, b[j].key);
      assert Get(b, a[i].key) == Some(a[i].value);
    }
    if Matches(b, a) { MatchesKeys(b, a); }
    if Keys(b) <= Keys(a) { assert forall j :: 0 <= j < |b| ==> b[j].key in Keys(a); }
  }

  lemma MatchesTransitive<K, V>(a: seq<Entry<K, V>>, b: seq<Entry<K, V>>, c: seq<Entry<K, V>>)
    requires Matches(a, b) && Matches(b, c)
    ensures Matches(a, c)
  {
    forall i | 0 <= i < |a| ensures Get(c, a[i].key) == Some(a[i].value) {
      assert Get(b, a[i].key) == Some(a[i].value);
      var j := Find(b, a[i].key);
      assert Get(c, b[j].key) == Some(b[j].value);
    }
  }

  /** On unique keys it is equality of the denoted maps. */
  lemma MatchesIffSameMap<K(!new), V>(a: seq<Entry<K, V>>, b: seq<Entry<K, V>>)
    requires Unique(a) && Unique(b)
    ensures Matches(a, b) <==> ToMap(a) == ToMap(b)
  {
    KeysCardinality(a);
    KeysCardinality(b);
    KeysOfMap(a);
    KeysOfMap(b);
    if Matches(a, b) {
      forall i | 0 <= i < |a| ensures a[i].key in Keys(b) {
        GetIsMapLookup(b, a[i].key);
      }
      SubsetSameSize(Keys(a), Keys(b));
      forall k | k in ToMap(a) ensures ToMap(a)[k] == ToMap(b)[k] {
        GetIsMapLookup(a, k);
        GetIsMapLookup(b, k);
      }
    } else if ToMap(a) == ToMap(b) {
      forall i | 0 <= i < |a| ensures Get(b, a[i].key) == Some(a[i].value) {
        FindUnique(a, i);
        GetIsMapLookup(a, a[i].key);
        GetIsMapLookup(b, a[i].key);
      }
    }
  }

  lemma KeysOfMap<K(!new), V>(l: seq<Entry<K, V>>)
    ensures ToMap(l).Keys == Keys(l)
  {
    forall k ensures k in ToMap(l) <==> k in Keys(l) { GetIsMapLookup(l, k); }
  }
}
