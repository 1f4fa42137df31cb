/** The codecs of hash maps and ordered maps, against mathematical maps. */
module MapCodec {
  import opened Bytes
  import opened CodecResult
  import opened Schema
  import opened Codec
  import opened CodecLaws
  import VarInt

  ghost predicate AllPairs(entries: seq<Value>) {
    forall i :: 0 <= i < |entries| ==> entries[i].VPair?
  }

  /** The mathematical map that inserting `items` one after the other into `m` yields. */
  function Update(m: map<Value, Value>, items: seq<Value>): map<Value, Value>
    requires AllPairs(items)
    decreases |items|
  {
    if items == [] then m else Update(m[items[0].fst := items[0].snd], items[1..])
  }

  /** `entries` lists the bindings of `m`, each once, in some order. */
  ghost predicate Enumerates(entries: seq<Value>, m: map<Value, Value>) {
    && AllPairs(entries)
    && DistinctKeys(entries)
    && (forall i :: 0 <= i < |entries| ==> entries[i].fst in m && m[entries[i].fst] == entries[i].snd)
    && (forall k :: k in m ==> exists i :: 0 <= i < |entries| && entries[i].fst == k)
  }

  lemma InsertEnumerates(entries: seq<Value>, m: map<Value, Value>, x: Value)
    requires Enumerates(entries, m) && x.VPair?
    ensures Enumerates(Insert(entries, x), m[x.fst := x.snd])
  {
    InsertMembers(entries, x);
    MembersEnumerate(entries, m, x, Insert(entries, x));
  }

  /** Inserting replaces the entry with the same key, or adds one. */
  lemma InsertMembers(entries: seq<Value>, x: Value)
    requires AllPairs(entries) && DistinctKeys(entries) && x.VPair?
    ensures AllPairs(Insert(entries, x)) && DistinctKeys(Insert(entries, x))
    ensures forall v :: v in Insert(entries, x) <==> v == x || (v in entries && Key(v) != Key(x))
  {
    var after, at := Insert(entries, x), IndexOf(entries, Key(x));
    assert forall i :: 0 <= i < |after| && i != at ==> after[i] == entries[i] && Key(entries[i]) != Key(x);
    assert after[at] == x;
    forall v | v in entries && Key(v) != Key(x) ensures v in after {
      var i :| 0 <= i < |entries| && entries[i] == v;
      assert after[i] == v;
    }
  }

  /** The insertion loop refines updates of a mathematical map: the last binding of a key wins. */
  lemma {:induction false} InsertAllRefinesUpdate(entries: seq<Value>, m: map<Value, Value>, items: seq<Value>)
    requires Enumerates(entries, m) && AllPairs(items)
    ensures Enumerates(InsertAll(entries, items), Update(m, items))
    decreases |items|
  {
    if items != [] {
      InsertEnumerates(entries, m, items[0]);
      InsertAllRefinesUpdate(Insert(entries, items[0]), m[items[0].fst := items[0].snd], items[1..]);
    }
  }

  /** Whatever is accepted denotes the map of its entries, read in wire order. */
  lemma DecodedMap(e: Schema, input: bytes)
    requires e.Pair? && Decode(MapOf(e), input).Ok?
    ensures DecodeItems(e, Split(input).value.0).Ok?
    ensures var items := DecodeItems(e, Split(input).value.0).value;
            AllPairs(items) && Enumerates(Decode(MapOf(e), input).value.0.items, Update(map[], items))
  {
    var items := DecodeItems(e, Split(input).value.0).value;
    ItemsTyped(e, Split(input).value.0);
    assert AllPairs(items);
    InsertAllRefinesUpdate([], map[], items);
  }

  /** A map encoded in any enumeration order of its entries decodes to that map. */
  lemma AnyOrderRoundTrips(e: Schema, m: map<Value, Value>, entries: seq<Value>, rest: bytes)
    requires WellFormed(MapOf(e)) && Enumerates(entries, m) && HasTypes(e, entries)
    requires Encode(MapOf(e), VSeq(entries)).Ok?
    ensures var r := Decode(MapOf(e), Encode(MapOf(e), VSeq(entries)).value + rest);
            r.Ok? && r.value.1 == rest && r.value.0.VSeq? && Enumerates(r.value.0.items, m)
  {
    assert HasType(MapOf(e), VSeq(entries));
    RoundTrip(MapOf(e), VSeq(entries), rest);
  }

  lemma DistinctIsCanonical(e: Schema, input: bytes, v: Value, rest: bytes)
    requires Compiles(e) && MapFree(e) && Decode(MapOf(e), input) == Ok((v, rest))
    requires DistinctKeys(DecodeItems(e, Split(input).value.0).value)
    ensures IsEncoding(MapOf(e), v, input, rest)
  {
    DecodeTyped(MapOf(e), input);
    var content := Split(input).value.0;
    var items := DecodeItems(e, content).value;
    SplitCanonical(input);
    assert [] + items == items;
    InsertAllDistinct([], items);
    ItemsCanonical(e, content, items);
  }

  lemma CanonicalIsDistinct(e: Schema, input: bytes, v: Value, rest: bytes)
    requires WellFormed(MapOf(e)) && IsEncoding(MapOf(e), v, input, rest)
    ensures Split(input) == Ok((EncodeItems(e, v.items).value, rest))
    ensures DecodeItems(e, Split(input).value.0) == Ok(v.items) && DistinctKeys(v.items)
  {
    SplitRoundTrip(EncodeItems(e, v.items).value, rest);
    ItemsRoundTrip(e, v.items);
  }

  /** What a hash map decodes from is an encoding of it, in some iteration order, if and only if no
      key was repeated on the wire. */
  lemma HashMapCanonicalIff(e: Schema, input: bytes, rest: bytes)
    requires WellFormed(MapOf(e)) && MapFree(e)
    requires Decode(MapOf(e), input).Ok? && Decode(MapOf(e), input).value.1 == rest
    ensures DecodeItems(e, Split(input).value.0).Ok? && AllPairs(DecodeItems(e, Split(input).value.0).value)
    ensures var items := DecodeItems(e, Split(input).value.0).value;
            (exists entries ::
               Enumerates(entries, Update(map[], items)) && IsEncoding(MapOf(e), VSeq(entries), input, rest))
            <==> DistinctKeys(items)
  {
    DecodedMap(e, input);
    var items := DecodeItems(e, Split(input).value.0).value;
    var m := Update(map[], items);
    if DistinctKeys(items) {
      var v := Decode(MapOf(e), input).value.0;
      DistinctIsCanonical(e, input, v, rest);
      assert Enumerates(v.items, m) && IsEncoding(MapOf(e), VSeq(v.items), input, rest);
    }
    if entries :| Enumerates(entries, m) && IsEncoding(MapOf(e), VSeq(entries), input, rest) {
      CanonicalIsDistinct(e, input, VSeq(entries), rest);
    }
  }

  // ------------------------------------------------------------------
  // Ordered maps
  // ------------------------------------------------------------------

  /** `Ord` of the key type: a strict total order on its values. */
  ghost predicate StrictOrder(less: (Value, Value) -> bool, key: Schema) {
    && (forall a :: HasType(key, a) ==> !less(a, a))
    && (forall a, b :: HasType(key, a) && HasType(key, b) && a != b ==> less(a, b) || less(b, a))
    && (forall a, b, c :: HasType(key, a) && HasType(key, b) && HasType(key, c) && less(a, b) && less(b, c) ==>
          less(a, c))
  }

  ghost predicate Ascending(less: (Value, Value) -> bool, entries: seq<Value>) {
    forall i, j :: 0 <= i < j < |entries| ==> less(Key(entries[i]), Key(entries[j]))
  }

  /** `BTreeMap::insert`: entries are kept in the order of their keys. */
  function TreeInsert(less: (Value, Value) -> bool, entries: seq<Value>, x: Value): seq<Value> {
    if entries == [] then [x]
    else if Key(x) == Key(entries[0]) then [x] + entries[1..]
    else if less(Key(x), Key(entries[0])) then [x] + entries
    else [entries[0]] + TreeInsert(less, entries[1..], x)
  }

  function TreeInsertAll(less: (Value, Value) -> bool, entries: seq<Value>, items: seq<Value>): seq<Value>
    decreases |items|
  {
    if items == [] then entries else TreeInsertAll(less, TreeInsert(less, entries, items[0]), items[1..])
  }

  /** `BTreeMap::mls_decode`: the entries in iteration order. */
  function TreeDecode(less: (Value, Value) -> bool, e: Schema, input: bytes): Result<(Value, bytes)> {
    var (content, rest) :- Split(input);
    var items :- DecodeItems(e, content);
    Ok((VSeq(TreeInsertAll(less, [], items)), rest))
  }

  /** Entries in order, with typed keys. */
  ghost predicate Sorted(less: (Value, Value) -> bool, e: Schema, entries: seq<Value>)
    requires e.Pair?
  {
    HasTypes(e, entries) && Ascending(less, entries)
  }

  /** Putting an entry in front of larger ones. */
  lemma SortedCons(less: (Value, Value) -> bool, e: Schema, x: Value, tail: seq<Value>)
    requires e.Pair? && HasType(e, x) && Sorted(less, e, tail)
    requires forall v :: v in tail ==> less(Key(x), Key(v))
    ensures Sorted(less, e, [x] + tail)
  {
    var all := [x] + tail;
    forall i | 0 < i < |all| ensures all[i] == tail[i - 1] && less(Key(x), Key(all[i])) { assert tail[i - 1] in tail; }
  }

  lemma SortedTail(less: (Value, Value) -> bool, e: Schema, entries: seq<Value>)
    requires e.Pair? && StrictOrder(less, e.first) && Sorted(less, e, entries) && entries != []
    ensures Sorted(less, e, entries[1..])
    ensures forall v :: v in entries[1..] ==>
              HasType(e, v) && less(Key(entries[0]), Key(v)) && Key(v) != Key(entries[0])
  {
    assert forall i :: 0 <= i < |entries| - 1 ==> entries[1..][i] == entries[i + 1];
    assert HasType(e, entries[0]);
  }

  /** Inserting keeps the order; it replaces the entry with the same key, or adds one. */
  lemma {:induction false} TreeInsertSorted(less: (Value, Value) -> bool, e: Schema, entries: seq<Value>, x: Value)
    requires e.Pair? && StrictOrder(less, e.first) && HasType(e, x) && Sorted(less, e, entries)
    ensures Sorted(less, e, TreeInsert(less, entries, x))
    ensures forall v :: v in TreeInsert(less, entries, x) <==> v == x || (v in entries && Key(v) != Key(x))
  {
    if entries != [] {
      var first, tail := entries[0], entries[1..];
      assert entries == [first] + tail;
      SortedTail(less, e, entries);
      if Key(x) == Key(first) {
        SortedCons(less, e, x, tail);
      } else if less(Key(x), Key(first)) {
        assert forall v :: v in entries ==> less(Key(x), Key(v)) && Key(v) != Key(x);
        SortedCons(less, e, x, entries);
      } else {
        TreeInsertSorted(less, e, tail, x);
        SortedCons(less, e, first, TreeInsert(less, tail, x));
      }
    }
  }

  lemma SortedIsDistinct(less: (Value, Value) -> bool, e: Schema, entries: seq<Value>)
    requires e.Pair? && StrictOrder(less, e.first) && Sorted(less, e, entries)
    ensures AllPairs(entries) && DistinctKeys(entries)
  {
    forall i, j | 0 <= i < j < |entries| ensures Key(entries[i]) != Key(entries[j]) {
      assert HasType(e, entries[i]) && HasType(e, entries[j]) && less(Key(entries[i]), Key(entries[j]));
    }
  }

  /** An ordered map's insertion loop refines updates of a mathematical map too. */
  lemma {:induction false} TreeInsertAllRefines(less: (Value, Value) -> bool, e: Schema, entries: seq<Value>,
                                                m: map<Value, Value>, items: seq<Value>)
    requires e.Pair? && StrictOrder(less, e.first) && HasTypes(e, items) && AllPairs(items)
    requires Sorted(less, e, entries) && Enumerates(entries, m)
    ensures var all := TreeInsertAll(less, entries, items);
            Sorted(less, e, all) && Enumerates(all, Update(m, items))
    decreases |items|
  {
    if items != [] {
      var x := items[0];
      var next, m' := TreeInsert(less, entries, x), m[x.fst := x.snd];
      TreeInsertSorted(less, e, entries, x);
      SortedIsDistinct(less, e, next);
      MembersEnumerate(entries, m, x, next);
      TreeInsertAllRefines(less, e, next, m', items[1..]);
    }
  }

  lemma MembersEnumerate(entries: seq<Value>, m: map<Value, Value>, x: Value, next: seq<Value>)
    requires Enumerates(entries, m) && x.VPair? && AllPairs(next) && DistinctKeys(next)
    requires forall v :: v in next <==> v == x || (v in entries && Key(v) != Key(x))
    ensures Enumerates(next, m[x.fst := x.snd])
  {
    var m' := m[x.fst := x.snd];
    forall i | 0 <= i < |next| ensures next[i].fst in m' && m'[next[i].fst] == next[i].snd {
      assert next[i] in next;
    }
    forall k | k in m' ensures exists i :: 0 <= i < |next| && next[i].fst == k {
      if k == x.fst {
        assert x in next;
      } else {
        var i :| 0 <= i < |entries| && entries[i].fst == k;
        assert entries[i] in next;
      }
    }
  }

  lemma EnumerationMembers(a: seq<Value>, b: seq<Value>, m: map<Value, Value>)
    requires Enumerates(a, m) && Enumerates(b, m)
    ensures forall v :: v in a <==> v in b
  {
    forall v ensures v in a ==> v in b {
      if v in a {
        var j :| 0 <= j < |b| && b[j].fst == v.fst;
        assert b[j] == v;
      }
    }
    forall v ensures v in b ==> v in a {
      if v in b {
        var i :| 0 <= i < |a| && a[i].fst == v.fst;
        assert a[i] == v;
      }
    }
  }

  /** Entries in order are determined by what they are. */
  lemma {:induction false} SortedUnique(less: (Value, Value) -> bool, e: Schema, a: seq<Value>, b: seq<Value>)
    requires e.Pair? && StrictOrder(less, e.first) && Sorted(less, e, a) && Sorted(less, e, b)
    requires forall v :: v in a <==> v in b
    ensures a == b
  {
    assert a != [] ==> a[0] in b;
    assert b != [] ==> b[0] in a;
    if a != [] {
      SameFirst(less, e, a, b);
      SortedIsDistinct(less, e, a);
      SortedIsDistinct(less, e, b);
      TailMembers(a);
      TailMembers(b);
      SortedTail(less, e, a);
      SortedTail(less, e, b);
      SortedUnique(less, e, a[1..], b[1..]);
      assert a == [a[0]] + a[1..] && b == [b[0]] + b[1..];
    }
  }

  lemma SameFirst(less: (Value, Value) -> bool, e: Schema, a: seq<Value>, b: seq<Value>)
    requires e.Pair? && StrictOrder(less, e.first) && Sorted(less, e, a) && Sorted(less, e, b)
    requires a != [] && b != [] && a[0] in b && b[0] in a
    ensures a[0] == b[0]
  {
    var i :| 0 <= i < |a| && a[i] == b[0];
    var j :| 0 <= j < |b| && b[j] == a[0];
    assert HasType(e, a[0]) && HasType(e, b[0]);
    assert i > 0 ==> less(Key(a[0]), Key(b[0]));
    assert j > 0 ==> less(Key(b[0]), Key(a[0]));
  }

  lemma TailMembers(a: seq<Value>)
    requires a != [] && DistinctKeys(a)
    ensures forall v :: v in a[1..] <==> v in a && v != a[0]
  {
    assert forall i :: 0 < i < |a| ==> a[i] == a[1..][i - 1];
  }

  /** Whatever is accepted becomes the map of its entries in wire order, iterated by key. */
  lemma TreeDecodedMap(less: (Value, Value) -> bool, e: Schema, input: bytes)
    requires e.Pair? && StrictOrder(less, e.first) && TreeDecode(less, e, input).Ok?
    ensures DecodeItems(e, Split(input).value.0).Ok?
    ensures var items := DecodeItems(e, Split(input).value.0).value;
            var entries := TreeDecode(less, e, input).value.0.items;
            AllPairs(items) && Sorted(less, e, entries) && Enumerates(entries, Update(map[], items))
  {
    var items := DecodeItems(e, Split(input).value.0).value;
    ItemsTyped(e, Split(input).value.0);
    TreeInsertAllRefines(less, e, [], map[], items);
  }

  /** A map encoded in any order of its entries decodes to its entries by key; so an ordered map,
      which encodes them by key, is read back as it was. */
  lemma TreeRoundTrips(less: (Value, Value) -> bool, e: Schema, m: map<Value, Value>, entries: seq<Value>, rest: bytes)
    requires WellFormed(MapOf(e)) && StrictOrder(less, e.first) && Enumerates(entries, m) && HasTypes(e, entries)
    requires Encode(MapOf(e), VSeq(entries)).Ok?
    ensures var r := TreeDecode(less, e, Encode(MapOf(e), VSeq(entries)).value + rest);
            && r.Ok? && r.value.1 == rest && r.value.0.VSeq?
            && Sorted(less, e, r.value.0.items) && Enumerates(r.value.0.items, m)
            && (Ascending(less, entries) ==> r.value.0.items == entries)
  {
    var input := Encode(MapOf(e), VSeq(entries)).value + rest;
    SplitRoundTrip(EncodeItems(e, entries).value, rest);
    ItemsRoundTrip(e, entries);
    TreeDecodedMap(less, e, input);
    DistinctUpdate(entries, m);
    var r := TreeDecode(less, e, input).value.0.items;
    if Ascending(less, entries) {
      EnumerationMembers(r, entries, m);
      SortedUnique(less, e, r, entries);
    }
  }

  /** Entries with distinct keys enumerate one map only, the one that inserting them makes. */
  lemma DistinctUpdate(entries: seq<Value>, m: map<Value, Value>)
    requires Enumerates(entries, m)
    ensures Update(map[], entries) == m
  {
    DistinctEnumerate(entries);
    var n := Update(map[], entries);
    EnumeratedOnce(entries, m, n);
    EnumeratedOnce(entries, n, m);
    assert m.Keys == n.Keys;
  }

  lemma DistinctEnumerate(entries: seq<Value>)
    requires AllPairs(entries) && DistinctKeys(entries)
    ensures Enumerates(entries, Update(map[], entries))
  {
    var none: seq<Value> := [];
    assert none + entries == entries;
    InsertAllDistinct(none, entries);
    InsertAllRefinesUpdate(none, map[], entries);
  }

  lemma EnumeratedOnce(entries: seq<Value>, m: map<Value, Value>, n: map<Value, Value>)
    requires Enumerates(entries, m) && Enumerates(entries, n)
    ensures m.Keys <= n.Keys && forall k :: k in m ==> m[k] == n[k]
  {
    forall k | k in m ensures k in n && m[k] == n[k] {
      var i :| 0 <= i < |entries| && entries[i].fst == k;
    }
  }

  /** The ascending enumeration of a map is the only one. */
  lemma SortedOnce(less: (Value, Value) -> bool, e: Schema, entries: seq<Value>, items: seq<Value>)
    requires e.Pair? && StrictOrder(less, e.first) && Sorted(less, e, entries) && Sorted(less, e, items)
    requires AllPairs(items) && Enumerates(entries, Update(map[], items))
    ensures entries == items
  {
    SortedIsDistinct(less, e, items);
    DistinctEnumerate(items);
    EnumerationMembers(entries, items, Update(map[], items));
    SortedUnique(less, e, entries, items);
  }

  /** What an ordered map decodes from is its encoding if and only if the keys on the wire strictly
      ascend. */
  lemma BTreeMapCanonicalIff(less: (Value, Value) -> bool, e: Schema, input: bytes, v: Value, rest: bytes)
    requires WellFormed(MapOf(e)) && MapFree(e) && StrictOrder(less, e.first)
    requires TreeDecode(less, e, input) == Ok((v, rest))
    ensures IsEncoding(MapOf(e), v, input, rest)
            <==> Ascending(less, DecodeItems(e, Split(input).value.0).value)
  {
    TreeDecodedMap(less, e, input);
    ItemsTyped(e, Split(input).value.0);
    var items := DecodeItems(e, Split(input).value.0).value;
    if Ascending(less, items) {
      SortedIsDistinct(less, e, items);
      DistinctIsCanonical(e, input, Decode(MapOf(e), input).value.0, rest);
      assert [] + items == items;
      InsertAllDistinct([], items);
      SortedOnce(less, e, v.items, items);
    }
    if IsEncoding(MapOf(e), v, input, rest) {
      CanonicalIsDistinct(e, input, v, rest);
    }
  }

  // ------------------------------------------------------------------
  // Inputs that are not canonical
  // ------------------------------------------------------------------

  const U8_PAIR: Schema := Pair(UInt(1), UInt(1))

  lemma DecodeTwoBytes(k: byte, x: byte, rest: bytes)
    ensures Decode(U8_PAIR, [k, x] + rest) == Ok((VPair(VInt(k), VInt(x)), rest))
  {
    OneByte(k);
    OneByte(x);
    var input := [k, x] + rest;
    assert input[..1] == [k] && input[1..] == [x] + rest;
    assert ([x] + rest)[..1] == [x] && ([x] + rest)[1..] == rest;
  }

  lemma DecodeTwoEntries(k: byte, x: byte, l: byte, y: byte)
    ensures DecodeItems(U8_PAIR, [k, x, l, y]) == Ok([VPair(VInt(k), VInt(x)), VPair(VInt(l), VInt(y))])
  {
    var a, b := VPair(VInt(k), VInt(x)), VPair(VInt(l), VInt(y));
    var none: bytes := [];
    DecodeTwoBytes(k, x, [l, y]);
    DecodeTwoBytes(l, y, none);
    assert [k, x, l, y] == [k, x] + [l, y];
    assert [l, y] == [l, y] + none;
    assert DecodeItems(U8_PAIR, none) == Ok([]);
    assert DecodeItems(U8_PAIR, [l, y]) == Ok([b] + []);
    assert [b] + [] == [b] && [a] + [b] == [a, b];
    assert DecodeItems(U8_PAIR, [k, x, l, y]) == Ok([a] + [b]);
  }

  lemma InsertTwice(k: Value, x: Value, y: Value)
    ensures InsertAll([], [VPair(k, x), VPair(k, y)]) == [VPair(k, y)]
  {
    var a, b := VPair(k, x), VPair(k, y);
    assert [a, b][1..] == [b] && [b][1..] == [];
    assert Insert([], a) == [a];
    assert Insert([a], b) == [b];
    assert InsertAll([a], [b]) == InsertAll([b], []);
  }

  lemma SplitFour(a: byte, b: byte, c: byte, d: byte)
    ensures Split([4, a, b, c, d]) == Ok(([a, b, c, d], []))
  {
    var input: bytes := [4, a, b, c, d];
    var content: bytes := [a, b, c, d];
    VarInt.DecodeBytes(input);
    assert input[1..] == content && content[..4] == content && content[4..] == [];
  }

  /** The decoders on two one-byte entries. */
  lemma DecodeTwo(k: byte, x: byte, l: byte, y: byte)
    ensures var input: bytes := [4, k, x, l, y];
            var items := [VPair(VInt(k), VInt(x)), VPair(VInt(l), VInt(y))];
            && Split(input).Ok? && DecodeItems(U8_PAIR, Split(input).value.0) == Ok(items)
            && Decode(Vector(U8_PAIR), input) == Ok((VSeq(items), []))
            && Decode(MapOf(U8_PAIR), input) == Ok((VSeq(InsertAll([], items)), []))
            && TreeDecode(IntLess, U8_PAIR, input) == Ok((VSeq(TreeInsertAll(IntLess, [], items)), []))
  {
    SplitFour(k, x, l, y);
    DecodeTwoEntries(k, x, l, y);
    DecodeFrom(U8_PAIR, [4, k, x, l, y], [k, x, l, y], [VPair(VInt(k), VInt(x)), VPair(VInt(l), VInt(y))]);
  }

  lemma DecodeFrom(e: Schema, input: bytes, content: bytes, items: seq<Value>)
    requires Split(input) == Ok((content, [])) && DecodeItems(e, content) == Ok(items)
    ensures Decode(Vector(e), input) == Ok((VSeq(items), []))
    ensures Decode(MapOf(e), input) == Ok((VSeq(InsertAll([], items)), []))
    ensures TreeDecode(IntLess, e, input) == Ok((VSeq(TreeInsertAll(IntLess, [], items)), []))
  {
  }

  /** A repeated key is accepted; the bytes are then no encoding of any map. */
  lemma RepeatedKeyIsAccepted(k: byte, x: byte, y: byte)
    ensures Decode(MapOf(U8_PAIR), [4, k, x, k, y]) == Ok((VSeq([VPair(VInt(k), VInt(y))]), []))
    ensures forall v :: !IsEncoding(MapOf(U8_PAIR), v, [4, k, x, k, y], [])
  {
    var input: bytes := [4, k, x, k, y];
    PairSchema();
    DecodeTwo(k, x, k, y);
    InsertTwice(VInt(k), VInt(x), VInt(y));
    SameKeyTwice(VInt(k), VInt(x), VInt(y));
    forall v ensures !IsEncoding(MapOf(U8_PAIR), v, input, []) { RepeatedIsNoEncoding(U8_PAIR, input, v, []); }
  }

  lemma SameKeyTwice(k: Value, x: Value, y: Value)
    ensures !DistinctKeys([VPair(k, x), VPair(k, y)])
  {
    var items := [VPair(k, x), VPair(k, y)];
    assert Key(items[0]) == Key(items[1]);
  }

  lemma RepeatedIsNoEncoding(e: Schema, input: bytes, v: Value, rest: bytes)
    requires WellFormed(MapOf(e)) && Split(input).Ok? && DecodeItems(e, Split(input).value.0).Ok?
    requires !DistinctKeys(DecodeItems(e, Split(input).value.0).value)
    ensures !IsEncoding(MapOf(e), v, input, rest)
  {
    if IsEncoding(MapOf(e), v, input, rest) { CanonicalIsDistinct(e, input, v, rest); }
  }

  lemma PairSchema()
    ensures WellFormed(MapOf(U8_PAIR)) && MapFree(U8_PAIR) && StrictOrder(IntLess, U8_PAIR.first)
  {
  }

  function IntLess(a: Value, b: Value): bool {
    a.VInt? && b.VInt? && a.n < b.n
  }

  /** Keys out of order are accepted; the ordered map then encodes as other bytes. */
  lemma UnsortedIsAccepted(k: byte, x: byte, l: byte, y: byte)
    requires l < k
    ensures var input: bytes := [4, k, x, l, y];
            var v := VSeq([VPair(VInt(l), VInt(y)), VPair(VInt(k), VInt(x))]);
            && TreeDecode(IntLess, U8_PAIR, input) == Ok((v, []))
            && !IsEncoding(MapOf(U8_PAIR), v, input, [])
            && IsEncoding(MapOf(U8_PAIR), v, [4, l, y, k, x], [])
  {
    InsertBefore(VPair(VInt(k), VInt(x)), VPair(VInt(l), VInt(y)));
    InsertAfter(VPair(VInt(l), VInt(y)), VPair(VInt(k), VInt(x)));
    TwoCanonicalIff(k, x, l, y);
    TwoCanonicalIff(l, y, k, x);
  }

  lemma TwoCanonicalIff(k: byte, x: byte, l: byte, y: byte)
    ensures var v := VSeq(TreeInsertAll(IntLess, [], [VPair(VInt(k), VInt(x)), VPair(VInt(l), VInt(y))]));
            && TreeDecode(IntLess, U8_PAIR, [4, k, x, l, y]) == Ok((v, []))
            && (IsEncoding(MapOf(U8_PAIR), v, [4, k, x, l, y], []) <==> k < l)
  {
    var items := [VPair(VInt(k), VInt(x)), VPair(VInt(l), VInt(y))];
    PairSchema();
    DecodeTwo(k, x, l, y);
    BTreeMapCanonicalIff(IntLess, U8_PAIR, [4, k, x, l, y], VSeq(TreeInsertAll(IntLess, [], items)), []);
    assert Ascending(IntLess, items) <==> IntLess(Key(items[0]), Key(items[1]));
  }

  lemma InsertBefore(a: Value, b: Value)
    requires IntLess(Key(b), Key(a))
    ensures TreeInsertAll(IntLess, [], [a, b]) == [b, a]
  {
    assert [a, b][1..] == [b] && [b][1..] == [];
    assert TreeInsert(IntLess, [], a) == [a];
    assert TreeInsert(IntLess, [a], b) == [b, a];
    assert TreeInsertAll(IntLess, [b, a], []) == [b, a];
    assert TreeInsertAll(IntLess, [a], [b]) == [b, a];
  }

  lemma InsertAfter(b: Value, a: Value)
    requires IntLess(Key(b), Key(a))
    ensures TreeInsertAll(IntLess, [], [b, a]) == [b, a]
  {
    assert [b, a][1..] == [a] && [a][1..] == [];
    assert TreeInsert(IntLess, [], b) == [b];
    assert [b][1..] == [];
    assert TreeInsert(IntLess, [b], a) == [b] + TreeInsert(IntLess, [], a);
    assert TreeInsertAll(IntLess, [b, a], []) == [b, a];
    assert TreeInsertAll(IntLess, [b], [a]) == [b, a];
  }
}
