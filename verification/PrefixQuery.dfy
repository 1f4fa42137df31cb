/** Prefix queries of the application key-value store: an escaped SQL LIKE pattern. */
module PrefixQuery {
  import opened Wrappers

  // ------------------------------------------------------------------
  // The pattern
  // ------------------------------------------------------------------

  /** `str::replace` of one character. */
  function Replace(s: string, c: char, replacement: string): string {
    if s == "" then "" else (if s[0] == c then replacement else [s[0]]) + Replace(s[1..], c, replacement)
  }

  /** `sanitize`: underscores, then percent signs, are escaped with a dollar sign. */
  function Sanitize(s: string): string {
    Replace(Replace(s, '_', "$_"), '%', "$%")
  }

  /** The pattern of a prefix query. */
  function Pattern(prefix: string): string {
    Sanitize(prefix) + "%"
  }

  /** Case folding of LIKE: ASCII letters only. */
  function Fold(c: char): char {
    if 'A' <= c <= 'Z' then c + 32 as char else c
  }

  /** SQLite's LIKE with escape character `$`. */
  predicate Like(pattern: string, key: string)
    decreases |pattern| + |key|
  {
    if pattern == "" then key == ""
    else if pattern[0] == '%' then
      Like(pattern[1..], key) || (key != "" && Like(pattern, key[1..]))
    else if pattern[0] == '$' then
      |pattern| >= 2 && key != "" && Fold(pattern[1]) == Fold(key[0]) && Like(pattern[2..], key[1..])
    else if pattern[0] == '_' then
      key != "" && Like(pattern[1..], key[1..])
    else
      key != "" && Fold(pattern[0]) == Fold(key[0]) && Like(pattern[1..], key[1..])
  }

  // ------------------------------------------------------------------
  // The pattern, one character at a time
  // ------------------------------------------------------------------

  function Escape(c: char): string {
    if c == '_' then "$_" else if c == '%' then "$%" else [c]
  }

  lemma PatternCons(c: char, rest: string)
    ensures Pattern([c] + rest) == Escape(c) + Pattern(rest)
  {
    var s := [c] + rest;
    assert s[1..] == rest;
    var inner := Replace(rest, '_', "$_");
    if c == '_' {
      assert Replace(s, '_', "$_") == "$_" + inner;
      assert ("$_" + inner)[1..] == "_" + inner;
      assert ("_" + inner)[1..] == inner;
      assert Replace("_" + inner, '%', "$%") == "_" + Replace(inner, '%', "$%");
    } else {
      assert Replace(s, '_', "$_") == [c] + inner;
      assert ([c] + inner)[1..] == inner;
    }
    assert Sanitize(s) == Escape(c) + Sanitize(rest);
  }

  lemma PatternOf(p: string)
    requires p != ""
    ensures Pattern(p) == Escape(p[0]) + Pattern(p[1..])
  {
    assert p == [p[0]] + p[1..];
    PatternCons(p[0], p[1..]);
  }

  lemma EmptyPattern()
    ensures Pattern("") == "%"
  {
  }

  lemma {:induction false} PercentMatchesAll(key: string)
    ensures Like("%", key)
  {
    if key != "" { PercentMatchesAll(key[1..]); }
    assert "%"[1..] == "";
  }

  /** Matching one literal character, escaped or not. */
  lemma LiteralStep(c: char, rest: string, key: string)
    requires c != '$'
    ensures Like(Escape(c) + rest, key) <==>
            key != "" && Fold(c) == Fold(key[0]) && Like(rest, key[1..])
  {
    var pattern := Escape(c) + rest;
    if c == '_' || c == '%' {
      assert pattern[0] == '$' && pattern[1] == c && pattern[2..] == rest;
    } else {
      assert pattern[0] == c && pattern[1..] == rest;
    }
  }

  lemma EscapedStep(c: char, rest: string, key: string)
    ensures Like(['$', c] + rest, key) <==>
            key != "" && Fold(c) == Fold(key[0]) && Like(rest, key[1..])
  {
    var pattern := ['$', c] + rest;
    assert pattern[1] == c && pattern[2..] == rest;
  }

  // ------------------------------------------------------------------
  // Prefixes without the escape character
  // ------------------------------------------------------------------

  predicate StartsWithFolded(key: string, prefix: string) {
    |prefix| <= |key| && forall i :: 0 <= i < |prefix| ==> Fold(prefix[i]) == Fold(key[i])
  }

  lemma StartsWithCons(key: string, p: string)
    requires p != ""
    ensures StartsWithFolded(key, p) <==>
            key != "" && Fold(p[0]) == Fold(key[0]) && StartsWithFolded(key[1..], p[1..])
  {
    if StartsWithFolded(key, p) {
      assert forall i :: 0 <= i < |p| - 1 ==> p[1..][i] == p[i + 1] && key[1..][i] == key[i + 1];
    }
    if key != "" && Fold(p[0]) == Fold(key[0]) && StartsWithFolded(key[1..], p[1..]) {
      assert forall i :: 0 < i < |p| ==> p[i] == p[1..][i - 1] && key[i] == key[1..][i - 1];
    }
  }

  /** Without `$`, the pattern matches the keys that start with the prefix, up to ASCII case. */
  lemma {:induction false} LikeIsPrefix(p: string, key: string)
    requires '$' !in p
    ensures Like(Pattern(p), key) <==> StartsWithFolded(key, p)
    decreases |p|
  {
    if p == "" {
      EmptyPattern();
      PercentMatchesAll(key);
    } else {
      PatternOf(p);
      LiteralStep(p[0], Pattern(p[1..]), key);
      StartsWithCons(key, p);
      if key != "" { LikeIsPrefix(p[1..], key[1..]); }
    }
  }

  // ------------------------------------------------------------------
  // Prefixes with it
  // ------------------------------------------------------------------

  /** A key that the pattern of `p` matches, no longer than `p`. */
  function Matching(p: string): string {
    if p == "" then ""
    else if p[0] != '$' then [p[0]] + Matching(p[1..])
    else if |p| == 1 then "%"
    else if p[1] == '_' || p[1] == '%' then "$a" + Matching(p[2..])
    else [p[1]] + Matching(p[2..])
  }

  lemma {:induction false} MatchingMatches(p: string)
    ensures Like(Pattern(p), Matching(p)) && |Matching(p)| <= |p|
    decreases |p|, 1
  {
    if p == "" {
      EmptyPattern();
      PercentMatchesAll("");
    } else if p[0] != '$' {
      var key := Matching(p);
      PatternOf(p);
      assert key[1..] == Matching(p[1..]);
      LiteralStep(p[0], Pattern(p[1..]), key);
      MatchingMatches(p[1..]);
    } else if |p| == 1 {
      PatternOf(p);
      EmptyPattern();
      assert Pattern(p) == ['$', '%'] + "";
      EscapedStep('%', "", "%");
    } else {
      DollarMatches(p);
    }
  }

  /** An unescaped wildcard matches any one character. */
  lemma WildcardStep(c: char, rest: string, any: char, key: string)
    requires (c == '_' || c == '%') && Like(rest, key)
    ensures Like([c] + rest, [any] + key)
  {
    var wild, k := [c] + rest, [any] + key;
    assert wild[1..] == rest && k[1..] == key;
    if c == '%' { assert Like(wild, key); }
  }

  lemma {:induction false} DollarMatches(p: string)
    requires |p| >= 2 && p[0] == '$'
    ensures Like(Pattern(p), Matching(p)) && |Matching(p)| <= |p|
    decreases |p|, 0
  {
    var key, rest, tail := Matching(p), Pattern(p[2..]), Matching(p[2..]);
    MatchingMatches(p[2..]);
    PatternOf(p);
    PatternOf(p[1..]);
    assert p[1..][1..] == p[2..];
    if p[1] == '_' || p[1] == '%' {
      assert Pattern(p) == ['$', '$'] + ([p[1]] + rest);
      WildcardStep(p[1], rest, 'a', tail);
      assert key[1..] == ['a'] + tail;
      EscapedStep('$', [p[1]] + rest, key);
    } else {
      assert Pattern(p) == ['$', p[1]] + rest;
      assert key[1..] == tail;
      EscapedStep(p[1], rest, key);
    }
  }

  /** With `$`, that key does not start with the prefix. */
  lemma {:induction false} MatchingIsNoPrefix(p: string)
    requires '$' in p
    ensures !StartsWithFolded(Matching(p), p)
  {
    var key := Matching(p);
    if p[0] != '$' {
      StartsWithCons(key, p);
      assert key[1..] == Matching(p[1..]);
      MatchingIsNoPrefix(p[1..]);
    } else if |p| >= 2 && p[1] == '$' {
      MatchingMatches(p[2..]);
    } else if |p| >= 2 && (p[1] == '_' || p[1] == '%') {
      assert key[1] == 'a';
    }
  }

  /** A prefix query selects exactly the keys that start with the prefix, up to ASCII case, if
      and only if the prefix has no `$`, which `sanitize` leaves unescaped. */
  lemma ExactUpToCaseIff(p: string)
    ensures (forall key :: Like(Pattern(p), key) <==> StartsWithFolded(key, p)) <==> '$' !in p
  {
    if '$' !in p {
      forall key ensures Like(Pattern(p), key) <==> StartsWithFolded(key, p) { LikeIsPrefix(p, key); }
    } else {
      MatchingMatches(p);
      MatchingIsNoPrefix(p);
    }
  }

  predicate IsLetter(c: char) {
    'A' <= c <= 'Z' || 'a' <= c <= 'z'
  }

  function SwapCase(c: char): char
    requires IsLetter(c)
  {
    if c <= 'Z' then c + 32 as char else c - 32 as char
  }

  /** Two characters fold to the same exactly when they are the same, or an ASCII letter and its other
      case. */
  lemma FoldIff(c: char, d: char)
    ensures Fold(c) == Fold(d) <==> c == d || (IsLetter(c) && d == SwapCase(c))
  {
  }

  /** The query selects exactly the keys that start with the prefix. */
  ghost predicate Exact(p: string) {
    forall key :: Like(Pattern(p), key) <==> p <= key
  }

  lemma WrongKey(p: string, key: string)
    requires Like(Pattern(p), key) && !(p <= key)
    ensures !Exact(p)
  {
  }

  /** The documented promise, keys that start with the prefix, holds if and only if the prefix
      has neither `$` nor an ASCII letter. */
  lemma ExactIff(p: string)
    ensures Exact(p) <==> '$' !in p && forall i :: 0 <= i < |p| ==> !IsLetter(p[i])
  {
    if '$' in p {
      MatchingMatches(p);
      MatchingIsNoPrefix(p);
      var key := Matching(p);
      assert p <= key ==> StartsWithFolded(key, p);
      WrongKey(p, key);
    } else if i :| 0 <= i < |p| && IsLetter(p[i]) {
      var key := p[i := SwapCase(p[i])];
      LikeIsPrefix(p, key);
      assert key[i] != p[i];
      WrongKey(p, key);
    } else {
      forall key ensures Like(Pattern(p), key) <==> p <= key {
        LikeIsPrefix(p, key);
        FoldFixed(p, key);
      }
    }
  }

  lemma FoldFixed(p: string, key: string)
    requires forall i :: 0 <= i < |p| ==> !IsLetter(p[i])
    ensures StartsWithFolded(key, p) <==> p <= key
  {
    if StartsWithFolded(key, p) {
      forall i | 0 <= i < |p| ensures p[i] == key[i] { assert Fold(p[i]) == Fold(key[i]); }
    }
  }

  // ------------------------------------------------------------------
  // The store
  // ------------------------------------------------------------------

  type Kvs = map<string, seq<int>>

  datatype Item = Item(key: string, value: seq<int>)

  /** The entries whose key matches the pattern of a prefix. */
  function Selected(kvs: Kvs, prefix: string): Kvs {
    map k | k in kvs && Like(Pattern(prefix), k) :: kvs[k]
  }

  function InsertAll(kvs: Kvs, items: seq<Item>): Kvs
    decreases |items|
  {
    if items == [] then kvs else InsertAll(kvs[items[0].key := items[0].value], items[1..])
  }

  /** For prefixes without `$`, what a query returns and what a deletion leaves partition the
      store, by whether a key starts with the prefix up to ASCII case. */
  lemma QueryAndDeletePartition(kvs: Kvs, p: string)
    requires '$' !in p
    ensures var got := Selected(kvs, p);
            var left := kvs - got.Keys;
            && got.Keys !! left.Keys && got + left == kvs
            && (forall k :: k in kvs ==> (k in got <==> StartsWithFolded(k, p)))
  {
    forall k | k in kvs ensures k in Selected(kvs, p) <==> StartsWithFolded(k, p) { LikeIsPrefix(p, k); }
  }

  /** The calls that change the store. */
  datatype Op =
    | DoInsert(item: Item)
    | DoTransact(items: seq<Item>, commits: bool)
    | DoDelete(key: string)
    | DoDeletePrefix(prefix: string)

  function Step(kvs: Kvs, op: Op): Kvs {
    match op
    case DoInsert(item) => kvs[item.key := item.value]
    case DoTransact(items, commits) => if commits then InsertAll(kvs, items) else kvs
    case DoDelete(key) => kvs - {key}
    case DoDeletePrefix(prefix) => kvs - Selected(kvs, prefix).Keys
  }

  class ApplicationStorage {
    var kvs: Kvs

    constructor ()
      ensures kvs == map[]
    {
      kvs := map[];
    }

    method Insert(item: Item)
      modifies this
      ensures kvs == Step(old(kvs), DoInsert(item))
    {
      kvs := kvs[item.key := item.value];
    }

    /** All of the inserts, in one transaction, or none of them. */
    method TransactInsert(items: seq<Item>, commits: bool)
      modifies this
      ensures kvs == Step(old(kvs), DoTransact(items, commits))
    {
      var tx := kvs;
      assert items[0..] == items;
      for i := 0 to |items|
        invariant kvs == old(kvs) && InsertAll(tx, items[i..]) == InsertAll(kvs, items)
      {
        assert items[i..][0] == items[i] && items[i..][1..] == items[i + 1..];
        tx := tx[items[i].key := items[i].value];
      }
      if commits { kvs := tx; }
    }

    method Delete(key: string)
      modifies this
      ensures kvs == Step(old(kvs), DoDelete(key))
    {
      kvs := kvs - {key};
    }

    method GetByPrefix(prefix: string) returns (found: Kvs)
      ensures found == Selected(kvs, prefix)
      ensures '$' !in prefix ==> forall k :: k in found <==> k in kvs && StartsWithFolded(k, prefix)
    {
      if '$' !in prefix { QueryAndDeletePartition(kvs, prefix); }
      var pattern := Sanitize(prefix) + "%";
      found := map k | k in kvs && Like(pattern, k) :: kvs[k];
    }

    method DeleteByPrefix(prefix: string)
      modifies this
      ensures kvs == Step(old(kvs), DoDeletePrefix(prefix))
      ensures '$' !in prefix ==> forall k :: k in kvs <==> k in old(kvs) && !StartsWithFolded(k, prefix)
    {
      if '$' !in prefix { QueryAndDeletePartition(kvs, prefix); }
      var pattern := Sanitize(prefix) + "%";
      kvs := map k | k in kvs && !Like(pattern, k) :: kvs[k];
    }
  }

  // ------------------------------------------------------------------
  // Runs
  // ------------------------------------------------------------------

  function Run(kvs: Kvs, ops: seq<Op>): Kvs
    decreases |ops|
  {
    if ops == [] then kvs else Step(Run(kvs, ops[..|ops| - 1]), ops[|ops| - 1])
  }

  /** The value of the last item with a key. */
  function LastItem(items: seq<Item>, key: string): Option<seq<int>>
    decreases |items|
  {
    if items == [] then None
    else if items[|items| - 1].key == key then Some(items[|items| - 1].value)
    else LastItem(items[..|items| - 1], key)
  }

  /** What selects the keys of a deletion by prefix: the pattern, or the prefix as documented, up to
      ASCII case. */
  predicate ByPattern(prefix: string, key: string) { Like(Pattern(prefix), key) }

  predicate ByPrefix(prefix: string, key: string) { StartsWithFolded(key, prefix) }

  /** What the latest call that concerns a key left there, without any store. */
  function Latest(selects: (string, string) -> bool, ops: seq<Op>, key: string): Option<seq<int>>
    decreases |ops|
  {
    if ops == [] then None
    else
      var before := Latest(selects, ops[..|ops| - 1], key);
      match ops[|ops| - 1]
      case DoInsert(item) => if item.key == key then Some(item.value) else before
      case DoTransact(items, commits) =>
        if commits && LastItem(items, key).Some? then LastItem(items, key) else before
      case DoDelete(k) => if k == key then None else before
      case DoDeletePrefix(prefix) => if selects(prefix, key) then None else before
  }

  /** No deletion is by a prefix with `$`. */
  ghost predicate PlainPrefixes(ops: seq<Op>) {
    forall i :: 0 <= i < |ops| && ops[i].DoDeletePrefix? ==> '$' !in ops[i].prefix
  }

  function At(kvs: Kvs, key: string): Option<seq<int>> {
    if key in kvs then Some(kvs[key]) else None
  }

  lemma {:induction false} InsertAllAt(kvs: Kvs, items: seq<Item>, key: string)
    ensures At(InsertAll(kvs, items), key) == if LastItem(items, key).Some? then LastItem(items, key) else At(kvs, key)
    decreases |items|
  {
    if items != [] {
      InsertAllAt(kvs[items[0].key := items[0].value], items[1..], key);
      LastItemCons(items, key);
    }
  }

  lemma {:induction false} LastItemCons(items: seq<Item>, key: string)
    requires items != []
    ensures LastItem(items, key) ==
            if LastItem(items[1..], key).Some? then LastItem(items[1..], key)
            else if items[0].key == key then Some(items[0].value) else None
    decreases |items|
  {
    var n := |items| - 1;
    if n == 0 {
      assert items[..0] == [] && items[1..] == [];
    } else {
      assert items[1..][n - 1] == items[n] && items[1..][..n - 1] == items[..n][1..];
      LastItemCons(items[..n], key);
    }
  }

  /** After every run of inserts, transactions and deletions, the store holds under each key what
      the latest call that concerns the key left there. Without `$` a deletion by prefix concerns
      the keys that start with it up to ASCII case. */
  lemma {:induction false} RunIsLatest(ops: seq<Op>, key: string)
    ensures At(Run(map[], ops), key) == Latest(ByPattern, ops, key)
    ensures PlainPrefixes(ops) ==> At(Run(map[], ops), key) == Latest(ByPrefix, ops, key)
    decreases |ops|
  {
    if ops != [] {
      var n := |ops| - 1;
      RunIsLatest(ops[..n], key);
      match ops[n]
      case DoInsert(_) =>
      case DoTransact(items, _) => InsertAllAt(Run(map[], ops[..n]), items, key);
      case DoDelete(_) =>
      case DoDeletePrefix(prefix) => if '$' !in prefix { LikeIsPrefix(prefix, key); }
    }
  }

  /** So a query returns, of the keys that its pattern matches, those whose latest call left a value,
      with that value; without `$` they are the keys that start with the prefix up to ASCII case. */
  lemma QueryAfterRun(ops: seq<Op>, prefix: string, key: string)
    ensures At(Selected(Run(map[], ops), prefix), key)
            == if ByPattern(prefix, key) then Latest(ByPattern, ops, key) else None
    ensures PlainPrefixes(ops) && '$' !in prefix ==>
              At(Selected(Run(map[], ops), prefix), key)
              == if ByPrefix(prefix, key) then Latest(ByPrefix, ops, key) else None
  {
    RunIsLatest(ops, key);
    if '$' !in prefix { LikeIsPrefix(prefix, key); }
  }
}
