/** Which leaves of a secret tree can still be served, judged from the calls and from what the key
    derivation can derive. */
module SecretTreeAvailability {
  import opened Bytes
  import opened Wrappers
  import opened KeyRatchet
  import opened SecretTree
  import opened SecretTreeRuns
  import T = TreeMath

  ghost predicate Covered(depth: nat, known: Known, leaf: nat) {
    !Uncovered(depth, known, leaf)
  }

  // ------------------------------------------------------------------
  // What can be derived
  // ------------------------------------------------------------------

  /** The node has a secret, and the secrets of both children derive from it. */
  ghost predicate Splits(c: Cipher, root: bytes, depth: nat, level: nat, pos: nat)
    requires level <= depth
  {
    var s := NodeSecret(c, root, depth, level, pos);
    && s.Some?
    && c.expand(s.value, TREE, LEFT, None).Some?
    && c.expand(s.value, TREE, RIGHT, None).Some?
  }

  /** Every node above both leaves splits. */
  ghost predicate SharedSplit(c: Cipher, root: bytes, depth: nat, f: nat, leaf: nat) {
    forall l: nat :: 1 <= l <= depth && T.Up(f, l) == T.Up(leaf, l) ==> Splits(c, root, depth, l, T.Up(f, l))
  }

  /** Every node above the leaf splits. */
  ghost predicate PathSplits(c: Cipher, root: bytes, depth: nat, f: nat) {
    forall l: nat :: 1 <= l <= depth ==> Splits(c, root, depth, l, T.Up(f, l))
  }

  /** The node above the leaf at this level does not split, and all higher ones do. */
  ghost predicate FirstFailure(c: Cipher, root: bytes, depth: nat, f: nat, level: nat) {
    && 1 <= level <= depth && !Splits(c, root, depth, level, T.Up(f, level))
    && forall l: nat :: level < l <= depth ==> Splits(c, root, depth, l, T.Up(f, l))
  }

  /** A path that does not split has a first failure. */
  lemma {:induction false} FailureFrom(c: Cipher, root: bytes, depth: nat, f: nat, level: nat) returns (first: nat)
    requires level <= depth && !PathSplits(c, root, depth, f)
    requires forall l: nat :: level < l <= depth ==> Splits(c, root, depth, l, T.Up(f, l))
    ensures FirstFailure(c, root, depth, f, first)
    decreases level
  {
    if level >= 1 && Splits(c, root, depth, level, T.Up(f, level)) {
      first := FailureFrom(c, root, depth, f, level - 1);
    } else {
      first := level;
    }
  }

  lemma {:induction false} SecretOnPath(c: Cipher, root: bytes, depth: nat, f: nat, level: nat)
    requires level <= depth && PathSplits(c, root, depth, f)
    ensures NodeSecret(c, root, depth, level, T.Up(f, level)).Some?
    decreases depth - level
  {
    if level < depth {
      SecretOnPath(c, root, depth, f, level + 1);
      assert Splits(c, root, depth, level + 1, T.Up(f, level + 1));
    }
  }

  lemma {:induction false} TotalSecret(c: Cipher, root: bytes, depth: nat, level: nat, pos: nat)
    requires Total(c) && level <= depth
    ensures NodeSecret(c, root, depth, level, pos).Some?
    decreases depth - level
  {
    if level < depth { TotalSecret(c, root, depth, level + 1, pos / 2); }
  }

  lemma TotalSplits(c: Cipher, root: bytes, depth: nat, f: nat)
    requires Total(c)
    ensures PathSplits(c, root, depth, f)
  {
    forall l: nat | 1 <= l <= depth ensures Splits(c, root, depth, l, T.Up(f, l)) {
      TotalSecret(c, root, depth, l, T.Up(f, l));
    }
  }

  // ------------------------------------------------------------------
  // What a request does to the nodes above a leaf
  // ------------------------------------------------------------------

  /** A known node is split exactly when the tree's node splits. */
  lemma ConsumeOkIff(c: Cipher, root: bytes, depth: nat, known: Known, leaf: nat, level: nat, released: Released)
    requires 1 <= level <= depth && leaf < Pow2(depth) && Inv(c, root, depth, known, released)
    ensures var (known', r) := ConsumeNode(c, known, Chain(leaf, level));
            && (Chain(leaf, level) in known ==> (r.Ok? <==> Splits(c, root, depth, level, T.Up(leaf, level))))
            && (r.Err? ==> known' == known - {Chain(leaf, level)} && r.error == CryptoProviderError)
            && (Chain(leaf, level) !in known ==> known' == known && r.Ok?)
  {
    var x := Chain(leaf, level);
    T.NodeLevel(level, T.Up(leaf, level));
    if x in known {
      assert LeafInv(c, root, depth, known, leaf, released);
      assert NodeOk(c, root, depth, known[x], level, leaf, released);
    } else {
      assert known - {x} == known;
    }
  }

  /** Consuming a node on the way to `leaf` covers no leaf. It uncovers those below it, and only
      them, when the node does not split. */
  lemma ConsumeCoverage(c: Cipher, root: bytes, depth: nat, known: Known, leaf: nat, level: nat,
                        released: Released, f: nat)
    requires 1 <= level <= depth && leaf < Pow2(depth) && f < Pow2(depth)
    requires Inv(c, root, depth, known, released)
    ensures var (known', r) := ConsumeNode(c, known, Chain(leaf, level));
            && (Covered(depth, known', f) ==> Covered(depth, known, f))
            && (Covered(depth, known, f) && Uncovered(depth, known', f) ==>
                  r.Err? && !SharedSplit(c, root, depth, f, leaf))
            && (r.Err? ==>
                  r.error == CryptoProviderError && !PathSplits(c, root, depth, leaf) && Uncovered(depth, known', leaf))
  {
    var x, pos := Chain(leaf, level), T.Up(leaf, level);
    assert LeafInv(c, root, depth, known, leaf, released);
    assert LeafInv(c, root, depth, known, f, released);
    ConsumeOkIff(c, root, depth, known, leaf, level, released);
    var (known', r) := ConsumeNode(c, known, x);
    if r.Err? {
      assert OneAbove(depth, known, leaf);
      forall l: nat | l <= depth && Chain(f, l) == x ensures T.Up(f, level) == pos { ChainIs(f, l, level, pos); }
    } else if x in known {
      KnownAbove(c, root, depth, known, leaf, level, released);
      ConsumeSplits(c, known, level, pos);
      SplitMembership(known, known', level, pos, depth, f);
      if T.Up(f, level) == pos {
        assert Chain(f, level) in known;
        assert Chain(f, level - 1) in known';
      }
    }
  }

  lemma {:induction false} DownCoverage(c: Cipher, root: bytes, depth: nat, known: Known, leaf: nat, level: nat,
                                        released: Released, f: nat)
    requires level <= depth && leaf < Pow2(depth) && f < Pow2(depth)
    requires Inv(c, root, depth, known, released)
    ensures var (known', r) := ConsumeDown(c, known, leaf, level);
            && (Covered(depth, known', f) ==> Covered(depth, known, f))
            && (Covered(depth, known, f) && Uncovered(depth, known', f) ==>
                  r.Err? && !SharedSplit(c, root, depth, f, leaf))
            && (r.Err? ==>
                  r.error == CryptoProviderError && !PathSplits(c, root, depth, leaf) && Uncovered(depth, known', leaf))
    decreases level
  {
    if level > 0 {
      ConsumeCoverage(c, root, depth, known, leaf, level, released, f);
      ConsumeKeepsInv(c, root, depth, known, leaf, level, released);
      var (next, r) := ConsumeNode(c, known, Chain(leaf, level));
      if r.Ok? { DownCoverage(c, root, depth, next, leaf, level - 1, released, f); }
    }
  }

  /** Where nothing is known on the way down, nothing is derived. */
  lemma {:induction false} DownOfUncovered(c: Cipher, depth: nat, known: Known, leaf: nat, level: nat)
    requires level <= depth && Uncovered(depth, known, leaf)
    ensures ConsumeDown(c, known, leaf, level) == (known, Ok(()))
    decreases level
  {
    if level > 0 {
      assert known - {Chain(leaf, level)} == known;
      DownOfUncovered(c, depth, known, leaf, level - 1);
    }
  }

  ghost predicate AbsentFrom(depth: nat, known: Known, leaf: nat, level: nat) {
    forall l: nat :: level <= l <= depth ==> Chain(leaf, l) !in known
  }

  /** The way down ends at the leaf: nothing above it is left. */
  lemma {:induction false} DownEmptiesPath(c: Cipher, root: bytes, depth: nat, known: Known, leaf: nat, level: nat,
                                           released: Released)
    requires level <= depth && leaf < Pow2(depth) && ConsumeDown(c, known, leaf, level).1.Ok?
    requires Inv(c, root, depth, known, released) && AbsentFrom(depth, known, leaf, level + 1)
    ensures AbsentFrom(depth, ConsumeDown(c, known, leaf, level).0, leaf, 1)
    decreases level
  {
    if level > 0 {
      var x, pos := Chain(leaf, level), T.Up(leaf, level);
      assert LeafInv(c, root, depth, known, leaf, released);
      ConsumeKeepsInv(c, root, depth, known, leaf, level, released);
      var known' := ConsumeNode(c, known, x).0;
      if x in known {
        KnownAbove(c, root, depth, known, leaf, level, released);
        ConsumeSplits(c, known, level, pos);
        SplitMembership(known, known', level, pos, depth, leaf);
      } else {
        assert known' == known;
      }
      DownEmptiesPath(c, root, depth, known', leaf, level - 1, released);
    }
  }

  lemma RemoveOtherCoverage(depth: nat, known: Known, leaf: nat, f: nat)
    ensures f != leaf ==> (Covered(depth, known - {Chain(leaf, 0)}, f) <==> Covered(depth, known, f))
  {
    forall l: nat ensures f != leaf ==> Chain(f, l) != Chain(leaf, 0) { ChainIs(f, l, 0, leaf); }
  }

  /** Taking a leaf's node needs the leaf covered and uncovers it. It succeeds for every covered leaf
      whose path splits. Other leaves stay as they were, unless a node above both does not split. */
  lemma TakeCoverage(c: Cipher, root: bytes, depth: nat, known: Known, leaf: nat, released: Released, f: nat)
    requires leaf < Pow2(depth) && f < Pow2(depth) && Inv(c, root, depth, known, released)
    ensures var (taken, node) := TakeNode(c, depth, known, leaf);
            && Uncovered(depth, taken, leaf)
            && (Uncovered(depth, known, leaf) ==> node == Err(InvalidLeafConsumption))
            && (Covered(depth, known, leaf) && node.Err? ==>
                  node.error == CryptoProviderError && !PathSplits(c, root, depth, leaf))
            && (f != leaf && Covered(depth, taken, f) ==> Covered(depth, known, f))
            && (f != leaf && Covered(depth, known, f) && Uncovered(depth, taken, f) ==>
                  node == Err(CryptoProviderError) && !SharedSplit(c, root, depth, f, leaf))
  {
    var x := Chain(leaf, 0);
    TakeKeepsInv(c, root, depth, known, leaf, released);
    if x in known {
      RemoveOtherCoverage(depth, known, leaf, f);
    } else {
      if Uncovered(depth, known, leaf) { DownOfUncovered(c, depth, known, leaf, depth); }
      DownCoverage(c, root, depth, known, leaf, depth, released, leaf);
      DownCoverage(c, root, depth, known, leaf, depth, released, f);
      var (next, r) := ConsumeDown(c, known, leaf, depth);
      RemoveOtherCoverage(depth, next, leaf, f);
      if r.Ok? {
        DownEmptiesPath(c, root, depth, known, leaf, depth, released);
        if x !in next {
          forall l: nat | l <= depth ensures Chain(leaf, l) !in next { if l > 0 { assert AbsentFrom(depth, next, leaf, 1); } }
        }
      }
    }
  }

  /** After a request its leaf is covered if and only if the request succeeded. No other leaf is
      covered by it, and none is uncovered unless a node above both leaves does not split. */
  lemma RequestCoverage(c: Cipher, root: bytes, depth: nat, known: Known, leaf: nat, t: KeyType,
                        generation: Option<nat>, released: Released, f: nat)
    requires f < Pow2(depth) && Inv(c, root, depth, known, released)
    ensures var (known', r) := Request(c, depth, known, leaf, t, generation);
            && (f == leaf ==> (Covered(depth, known', f) <==> r.Ok?))
            && (f == leaf && Uncovered(depth, known, f) ==> r == Err(InvalidLeafConsumption))
            && (f != leaf && Covered(depth, known', f) ==> Covered(depth, known, f))
            && (f != leaf && Covered(depth, known, f) && Uncovered(depth, known', f) ==>
                  r == Err(CryptoProviderError) && !SharedSplit(c, root, depth, f, leaf))
  {
    if leaf < Pow2(depth) {
      TakeCoverage(c, root, depth, known, leaf, released, f);
      var (known', r) := Request(c, depth, known, leaf, t, generation);
      if r.Ok? {
        forall l: nat ensures f != leaf ==> Chain(f, l) != Chain(leaf, 0) { ChainIs(f, l, 0, leaf); }
        assert Chain(leaf, 0) in known';
      }
    }
  }

  // ------------------------------------------------------------------
  // Runs, call by call
  // ------------------------------------------------------------------

  /** The results of a run. */
  function Results(c: Cipher, depth: nat, known: Known, calls: seq<Call>): (rs: seq<MlsResult<MessageKey>>)
    ensures |rs| == |calls|
    decreases |calls|
  {
    if calls == [] then []
    else
      var (next, r) := Request(c, depth, known, calls[0].leaf, calls[0].t, calls[0].generation);
      [r] + Results(c, depth, next, calls[1..])
  }

  ghost function ReleasedAfter(released: Released, call: Call, r: MlsResult<MessageKey>): Released {
    if r.Ok? then released + iset{(call.leaf, call.t, r.value.generation)} else released
  }

  /** Once uncovered, a leaf stays so, and every later request for it is refused. */
  lemma {:induction false} StaysUncovered(c: Cipher, root: bytes, depth: nat, known: Known, calls: seq<Call>,
                                          released: Released, f: nat)
    requires f < Pow2(depth) && Inv(c, root, depth, known, released)
    requires Uncovered(depth, known, f)
    ensures Uncovered(depth, Run(c, depth, known, calls).0, f)
    ensures forall i :: 0 <= i < |calls| && calls[i].leaf == f ==>
              Results(c, depth, known, calls)[i] == Err(InvalidLeafConsumption)
    decreases |calls|
  {
    if calls != [] {
      var call := calls[0];
      var (next, r) := Request(c, depth, known, call.leaf, call.t, call.generation);
      RequestIsSafe(c, root, depth, known, call.leaf, call.t, call.generation, released);
      RequestCoverage(c, root, depth, known, call.leaf, call.t, call.generation, released, f);
      StaysUncovered(c, root, depth, next, calls[1..], ReleasedAfter(released, call, r), f);
      var all, rest := Results(c, depth, known, calls), Results(c, depth, next, calls[1..]);
      assert all == [r] + rest;
      forall i | 0 <= i < |calls| && calls[i].leaf == f ensures all[i] == Err(InvalidLeafConsumption) {
        if i > 0 { assert calls[i] == calls[1..][i - 1] && all[i] == rest[i - 1]; }
      }
    }
  }

  /** A request for a generation already released is refused, and so is all that follows. */
  lemma {:induction false} ReleasedIsRefused(c: Cipher, root: bytes, depth: nat, known: Known, calls: seq<Call>,
                                             released: Released, j: nat, k: nat)
    requires Inv(c, root, depth, known, released)
    requires j < k < |calls| && calls[j].leaf == calls[k].leaf < Pow2(depth)
    requires calls[j].generation.Some? && (calls[j].leaf, calls[j].t, calls[j].generation.value) in released
    ensures Results(c, depth, known, calls)[j].Err?
    ensures Results(c, depth, known, calls)[k] == Err(InvalidLeafConsumption)
    decreases |calls|
  {
    var call := calls[0];
    var (next, r) := Request(c, depth, known, call.leaf, call.t, call.generation);
    var released' := ReleasedAfter(released, call, r);
    RequestIsSafe(c, root, depth, known, call.leaf, call.t, call.generation, released);
    var rest := Results(c, depth, next, calls[1..]);
    assert calls[k] == calls[1..][k - 1] && Results(c, depth, known, calls)[k] == rest[k - 1];
    if j == 0 {
      RequestCoverage(c, root, depth, known, call.leaf, call.t, call.generation, released, call.leaf);
      StaysUncovered(c, root, depth, next, calls[1..], released', call.leaf);
    } else {
      assert calls[j] == calls[1..][j - 1];
      ReleasedIsRefused(c, root, depth, next, calls[1..], released', j - 1, k - 1);
    }
  }

  lemma {:induction false} ReplayAfterServing(c: Cipher, root: bytes, depth: nat, known: Known, calls: seq<Call>,
                                              released: Released, i: nat, j: nat, k: nat)
    requires Inv(c, root, depth, known, released)
    requires i < j < k < |calls| && calls[i].leaf == calls[j].leaf == calls[k].leaf < Pow2(depth)
    requires calls[i].t == calls[j].t && Results(c, depth, known, calls)[i].Ok?
    requires calls[j].generation == Some(Results(c, depth, known, calls)[i].value.generation)
    ensures Results(c, depth, known, calls)[j].Err?
    ensures Results(c, depth, known, calls)[k] == Err(InvalidLeafConsumption)
    decreases |calls|
  {
    var call := calls[0];
    var (next, r) := Request(c, depth, known, call.leaf, call.t, call.generation);
    var released' := ReleasedAfter(released, call, r);
    RequestIsSafe(c, root, depth, known, call.leaf, call.t, call.generation, released);
    var all, rest := Results(c, depth, known, calls), Results(c, depth, next, calls[1..]);
    assert forall n :: 0 < n < |calls| ==> calls[n] == calls[1..][n - 1] && all[n] == rest[n - 1];
    if i == 0 {
      ReleasedIsRefused(c, root, depth, next, calls[1..], released', j - 1, k - 1);
    } else {
      ReplayAfterServing(c, root, depth, next, calls[1..], released', i - 1, j - 1, k - 1);
    }
  }

  /** A replay takes a leaf out of service: once a generation has been served, asking for it again
      fails, and every later request for the leaf, of either type, fails too. */
  lemma ReplayDisablesLeaf(c: Cipher, root: bytes, depth: nat, calls: seq<Call>, i: nat, j: nat, k: nat)
    requires i < j < k < |calls| && calls[i].leaf == calls[j].leaf == calls[k].leaf < Pow2(depth)
    requires var results := Results(c, depth, map[T.Node(depth, 0) := Secret(root)], calls);
             && calls[i].t == calls[j].t && results[i].Ok?
             && calls[j].generation == Some(results[i].value.generation)
    ensures var results := Results(c, depth, map[T.Node(depth, 0) := Secret(root)], calls);
            results[j].Err? && results[k] == Err(InvalidLeafConsumption)
  {
    InvInitially(c, root, depth);
    ReplayAfterServing(c, root, depth, map[T.Node(depth, 0) := Secret(root)], calls, iset{}, i, j, k);
  }

  // ------------------------------------------------------------------
  // The calls alone
  // ------------------------------------------------------------------

  /** What has been served of a chain: the generations, and one above the greatest of them. */
  datatype Ledger = Ledger(served: set<nat>, next: nat)

  datatype Ledgers = Ledgers(application: Ledger, handshake: Ledger) {
    function Of(t: KeyType): Ledger { if t.Handshake? then handshake else application }

    function With(t: KeyType, l: Ledger): Ledgers {
      if t.Handshake? then this.(handshake := l) else this.(application := l)
    }
  }

  const NONE_SERVED := Ledger({}, 0)

  /** The generation that a served request is for. */
  function Wanted(l: Ledger, generation: Option<nat>): nat {
    if generation.None? then l.next else generation.value
  }

  function Record(l: Ledger, generation: Option<nat>): Ledger {
    Ledger(l.served + {Wanted(l, generation)}, NextAfter(l.next, generation))
  }

  /** Every call for the leaf is admissible after the calls for it before. */
  predicate AllAdmissible(outOfOrder: bool, ls: Ledgers, calls: seq<Call>, leaf: nat)
    decreases |calls|
  {
    calls == [] ||
    (var call := calls[0];
     if call.leaf != leaf then AllAdmissible(outOfOrder, ls, calls[1..], leaf)
     else
       var l := ls.Of(call.t);
       && Admissible(outOfOrder, l.served, l.next, call.generation)
       && AllAdmissible(outOfOrder, ls.With(call.t, Record(l, call.generation)), calls[1..], leaf))
  }

  /** Both chains of a leaf begin. */
  ghost predicate ChainsBegin(c: Cipher, secret: bytes) {
    ChainSecret(c, secret, Application, 0).Some? && ChainSecret(c, secret, Handshake, 0).Some?
  }

  /** The call is admissible, and all that it needs can be derived from the leaf's secret. */
  ghost predicate Servable(c: Cipher, secret: bytes, ls: Ledgers, call: Call) {
    var l := ls.Of(call.t);
    && ChainsBegin(c, secret)
    && Admissible(c.outOfOrder, l.served, l.next, call.generation)
    && Derives(c, secret, call.t, l.next, NextAfter(l.next, call.generation))
  }

  ghost predicate AllServable(c: Cipher, secret: bytes, ls: Ledgers, calls: seq<Call>, leaf: nat)
    decreases |calls|
  {
    calls == [] ||
    (var call := calls[0];
     if call.leaf != leaf then AllServable(c, secret, ls, calls[1..], leaf)
     else
       && Servable(c, secret, ls, call)
       && AllServable(c, secret, ls.With(call.t, Record(ls.Of(call.t), call.generation)), calls[1..], leaf))
  }

  /** Where key derivation does not fail, the calls alone decide. */
  lemma {:induction false} TotalServable(c: Cipher, secret: bytes, ls: Ledgers, calls: seq<Call>, leaf: nat)
    requires Total(c)
    ensures AllServable(c, secret, ls, calls, leaf) <==> AllAdmissible(c.outOfOrder, ls, calls, leaf)
    decreases |calls|
  {
    if calls != [] {
      var call, l := calls[0], ls.Of(calls[0].t);
      if call.leaf != leaf {
        TotalServable(c, secret, ls, calls[1..], leaf);
      } else {
        TotalDerives(c, secret, call.t, l.next, NextAfter(l.next, call.generation));
        TotalChain(c, secret, Application, 0);
        TotalChain(c, secret, Handshake, 0);
        TotalServable(c, secret, ls.With(call.t, Record(l, call.generation)), calls[1..], leaf);
      }
    }
  }

  // ------------------------------------------------------------------
  // The ledgers describe the tree
  // ------------------------------------------------------------------

  ghost predicate HasRatchets(known: Known, leaf: nat) {
    Chain(leaf, 0) in known && known[Chain(leaf, 0)].Leaf?
  }

  /** The ratchets of a leaf, once they exist, stand at the ledgers' next generations; before that
      nothing has been served. */
  ghost predicate Tracks(known: Known, leaf: nat, ls: Ledgers, released: Released) {
    && (forall t :: Used(released, leaf, t) == AsIset(ls.Of(t).served))
    && (forall t :: ls.Of(t).next ==
          if HasRatchets(known, leaf) then RatchetFor(known[Chain(leaf, 0)].ratchets, t).generation else 0)
  }

  ghost predicate SameRatchets(known: Known, known': Known, f: nat) {
    && (HasRatchets(known', f) <==> HasRatchets(known, f))
    && (HasRatchets(known, f) ==> known'[Chain(f, 0)] == known[Chain(f, 0)])
  }

  /** Consuming nodes neither makes ratchets nor touches any. */
  lemma ConsumeKeepsRatchets(c: Cipher, root: bytes, depth: nat, known: Known, leaf: nat, level: nat,
                             released: Released, f: nat)
    requires 1 <= level <= depth && leaf < Pow2(depth) && f < Pow2(depth)
    requires Inv(c, root, depth, known, released)
    ensures SameRatchets(known, ConsumeNode(c, known, Chain(leaf, level)).0, f)
  {
    var x, pos, y := Chain(leaf, level), T.Up(leaf, level), Chain(f, 0);
    var (known', r) := ConsumeNode(c, known, x);
    ChainIs(f, 0, level, pos);
    if x in known && r.Ok? {
      KnownAbove(c, root, depth, known, leaf, level, released);
      assert LeafInv(c, root, depth, known, f, released);
      ConsumeSplits(c, known, level, pos);
      SplitMembership(known, known', level, pos, depth, f);
      if T.Up(f, level) == pos { assert Chain(f, level) in known; }
    }
  }

  lemma {:induction false} DownKeepsRatchets(c: Cipher, root: bytes, depth: nat, known: Known, leaf: nat, level: nat,
                                             released: Released, f: nat)
    requires level <= depth && leaf < Pow2(depth) && f < Pow2(depth)
    requires Inv(c, root, depth, known, released)
    ensures SameRatchets(known, ConsumeDown(c, known, leaf, level).0, f)
    decreases level
  {
    if level > 0 {
      ConsumeKeepsRatchets(c, root, depth, known, leaf, level, released, f);
      ConsumeKeepsInv(c, root, depth, known, leaf, level, released);
      var (next, r) := ConsumeNode(c, known, Chain(leaf, level));
      if r.Ok? { DownKeepsRatchets(c, root, depth, next, leaf, level - 1, released, f); }
    }
  }

  lemma TakeKeepsRatchets(c: Cipher, root: bytes, depth: nat, known: Known, leaf: nat, released: Released, f: nat)
    requires leaf < Pow2(depth) && f < Pow2(depth) && Inv(c, root, depth, known, released)
    ensures var (taken, node) := TakeNode(c, depth, known, leaf);
            && (f != leaf ==> SameRatchets(known, taken, f))
            && (node.Ok? ==> (node.value.Leaf? <==> HasRatchets(known, leaf)))
            && (node.Ok? && HasRatchets(known, leaf) ==> node.value == known[Chain(leaf, 0)])
  {
    ChainIs(f, 0, 0, leaf);
    if Chain(leaf, 0) !in known {
      DownKeepsRatchets(c, root, depth, known, leaf, depth, released, f);
      DownKeepsRatchets(c, root, depth, known, leaf, depth, released, leaf);
    }
  }

  /** A request for another leaf leaves the ledgers of this one right. */
  lemma OtherTracks(c: Cipher, root: bytes, depth: nat, known: Known, call: Call, released: Released,
                    f: nat, ls: Ledgers)
    requires f < Pow2(depth) && call.leaf != f && Inv(c, root, depth, known, released)
    requires Tracks(known, f, ls, released)
    ensures var (known', r) := Request(c, depth, known, call.leaf, call.t, call.generation);
            Tracks(known', f, ls, ReleasedAfter(released, call, r))
  {
    var (known', r) := Request(c, depth, known, call.leaf, call.t, call.generation);
    ChainIs(f, 0, 0, call.leaf);
    if call.leaf < Pow2(depth) {
      TakeKeepsRatchets(c, root, depth, known, call.leaf, released, f);
    }
    forall t ensures Used(ReleasedAfter(released, call, r), f, t) == Used(released, f, t) {
      assert forall g: nat :: (f, t, g) in ReleasedAfter(released, call, r) <==> (f, t, g) in released;
    }
  }

  /** The ratchets that a request finds, on their chains and where the ledgers say. */
  ghost predicate Found(c: Cipher, root: bytes, depth: nat, released: Released, f: nat, ls: Ledgers, rs: Ratchets) {
    var s := NodeSecret(c, root, depth, 0, f);
    && s.Some? && RatchetsOk(c, s.value, f, rs, released)
    && forall t :: RatchetFor(rs, t).generation == ls.Of(t).next && Used(released, f, t) == AsIset(ls.Of(t).served)
  }

  lemma {:induction false} ChainBegins(c: Cipher, secret: bytes, t: KeyType, g: nat)
    requires ChainSecret(c, secret, t, g).Some?
    ensures ChainSecret(c, secret, t, 0).Some?
  {
    if g > 0 { ChainBegins(c, secret, t, g - 1); }
  }

  lemma FoundRatchets(c: Cipher, root: bytes, depth: nat, known: Known, released: Released, f: nat, ls: Ledgers)
    requires PathSplits(c, root, depth, f) && f < Pow2(depth) && Inv(c, root, depth, known, released)
    requires Covered(depth, known, f) && Tracks(known, f, ls, released)
    ensures NodeSecret(c, root, depth, 0, f).Some?
    ensures var node := TakeNode(c, depth, known, f).1;
            && node.Ok?
            && (ToRatchets(c, node.value).Ok? <==> ChainsBegin(c, NodeSecret(c, root, depth, 0, f).value))
            && (ToRatchets(c, node.value).Ok? ==>
                  Found(c, root, depth, released, f, ls, ToRatchets(c, node.value).value))
  {
    SecretOnPath(c, root, depth, f, 0);
    TakeCoverage(c, root, depth, known, f, released, f);
    TakeKeepsRatchets(c, root, depth, known, f, released, f);
    TakeKeepsInv(c, root, depth, known, f, released);
    var node := TakeNode(c, depth, known, f).1.value;
    if ToRatchets(c, node).Ok? {
      MadeOk(c, root, depth, node, f, released);
      var secret, rs := NodeSecret(c, root, depth, 0, f).value, ToRatchets(c, node).value;
      ChainBegins(c, secret, Application, rs.application.generation);
      ChainBegins(c, secret, Handshake, rs.handshake.generation);
    }
  }

  lemma FoundServedIff(c: Cipher, root: bytes, depth: nat, released: Released, call: Call, ls: Ledgers, rs: Ratchets)
    requires Found(c, root, depth, released, call.leaf, ls, rs)
    requires ChainsBegin(c, NodeSecret(c, root, depth, 0, call.leaf).value)
    ensures var out, l := GiveKey(c, RatchetFor(rs, call.t), call.generation), ls.Of(call.t);
            && (out.Ok? <==> Servable(c, NodeSecret(c, root, depth, 0, call.leaf).value, ls, call))
            && (out.Ok? ==>
                  && out.value.0.generation == NextAfter(l.next, call.generation)
                  && out.value.1.generation == Wanted(l, call.generation))
  {
    var secret, r := NodeSecret(c, root, depth, 0, call.leaf).value, RatchetFor(rs, call.t);
    assert OnChain(c, secret, call.t, r, AsIset(ls.Of(call.t).served));
    ServedIff(c, secret, call.t, r, call.generation, ls.Of(call.t).served);
    if GiveKey(c, r, call.generation).Ok? { GiveOut(c, secret, call.leaf, rs, call.t, call.generation, released); }
  }

  /** Recording a request in the ledgers, when its key is put on record and its ratchet put back. */
  lemma RecordTracks(known: Known, leaf: nat, t: KeyType, generation: Option<nat>, ls: Ledgers, rs: Ratchets,
                     next: Ratchet, released: Released)
    requires forall u :: RatchetFor(rs, u).generation == ls.Of(u).next
    requires forall u :: Used(released, leaf, u) == AsIset(ls.Of(u).served)
    requires next.generation == NextAfter(ls.Of(t).next, generation)
    ensures Tracks(known[Chain(leaf, 0) := Leaf(WithRatchet(rs, t, next))], leaf,
                   ls.With(t, Record(ls.Of(t), generation)), released + iset{(leaf, t, Wanted(ls.Of(t), generation))})
  {
    var w := Wanted(ls.Of(t), generation);
    var ls', released' := ls.With(t, Record(ls.Of(t), generation)), released + iset{(leaf, t, w)};
    UsedAfter(released, leaf, t, w);
    assert AsIset(ls.Of(t).served + {w}) == AsIset(ls.Of(t).served) + iset{w};
    forall u ensures Used(released', leaf, u) == AsIset(ls'.Of(u).served) {
      if u != t { assert ls'.Of(u) == ls.Of(u); }
    }
  }

  /** A request for a covered leaf whose path splits succeeds if and only if it is servable, and then
      the ledgers with its generation recorded are right. */
  lemma RequestServedIff(c: Cipher, root: bytes, depth: nat, known: Known, call: Call, released: Released, ls: Ledgers)
    requires PathSplits(c, root, depth, call.leaf) && call.leaf < Pow2(depth) && Inv(c, root, depth, known, released)
    requires Covered(depth, known, call.leaf) && Tracks(known, call.leaf, ls, released)
    ensures NodeSecret(c, root, depth, 0, call.leaf).Some?
    ensures var (known', r) := Request(c, depth, known, call.leaf, call.t, call.generation);
            && (r.Ok? <==> Servable(c, NodeSecret(c, root, depth, 0, call.leaf).value, ls, call))
            && (r.Ok? ==> Tracks(known', call.leaf, ls.With(call.t, Record(ls.Of(call.t), call.generation)),
                                 ReleasedAfter(released, call, r)))
  {
    FoundRatchets(c, root, depth, known, released, call.leaf, ls);
    var (taken, node) := TakeNode(c, depth, known, call.leaf);
    if ToRatchets(c, node.value).Ok? {
      var rs := ToRatchets(c, node.value).value;
      FoundServedIff(c, root, depth, released, call, ls, rs);
      var out := GiveKey(c, RatchetFor(rs, call.t), call.generation);
      if out.Ok? {
        RecordTracks(taken, call.leaf, call.t, call.generation, ls, rs, out.value.0, released);
      }
    }
  }

  lemma SplitsShared(c: Cipher, root: bytes, depth: nat, f: nat, leaf: nat)
    requires PathSplits(c, root, depth, f)
    ensures SharedSplit(c, root, depth, f, leaf)
  {
  }

  lemma {:induction false} RunServes(c: Cipher, root: bytes, depth: nat, known: Known, calls: seq<Call>,
                                     released: Released, f: nat, ls: Ledgers, secret: bytes)
    requires PathSplits(c, root, depth, f) && f < Pow2(depth) && Inv(c, root, depth, known, released)
    requires NodeSecret(c, root, depth, 0, f) == Some(secret)
    requires Covered(depth, known, f) && Tracks(known, f, ls, released)
    ensures Covered(depth, Run(c, depth, known, calls).0, f) <==> AllServable(c, secret, ls, calls, f)
    decreases |calls|
  {
    if calls != [] {
      var call := calls[0];
      var (next, r) := Request(c, depth, known, call.leaf, call.t, call.generation);
      var released' := ReleasedAfter(released, call, r);
      RequestIsSafe(c, root, depth, known, call.leaf, call.t, call.generation, released);
      RequestCoverage(c, root, depth, known, call.leaf, call.t, call.generation, released, f);
      if call.leaf != f {
        SplitsShared(c, root, depth, f, call.leaf);
        OtherTracks(c, root, depth, known, call, released, f, ls);
        RunServes(c, root, depth, next, calls[1..], released', f, ls, secret);
      } else {
        RequestServedIff(c, root, depth, known, call, released, ls);
        if r.Ok? {
          var ls' := ls.With(call.t, Record(ls.Of(call.t), call.generation));
          RunServes(c, root, depth, next, calls[1..], released', f, ls', secret);
        } else {
          StaysUncovered(c, root, depth, next, calls[1..], released', f);
        }
      }
    }
  }

  /** So each single result is known beforehand. */
  lemma {:induction false} RunAnswers(c: Cipher, root: bytes, depth: nat, known: Known, calls: seq<Call>,
                                      released: Released, f: nat, ls: Ledgers, secret: bytes, i: nat)
    requires PathSplits(c, root, depth, f) && f < Pow2(depth) && Inv(c, root, depth, known, released)
    requires NodeSecret(c, root, depth, 0, f) == Some(secret)
    requires Covered(depth, known, f) && Tracks(known, f, ls, released)
    requires i < |calls| && calls[i].leaf == f
    ensures Results(c, depth, known, calls)[i].Ok? <==> AllServable(c, secret, ls, calls[..i + 1], f)
    decreases |calls|
  {
    var call := calls[0];
    var (next, r) := Request(c, depth, known, call.leaf, call.t, call.generation);
    var released' := ReleasedAfter(released, call, r);
    RequestIsSafe(c, root, depth, known, call.leaf, call.t, call.generation, released);
    RequestCoverage(c, root, depth, known, call.leaf, call.t, call.generation, released, f);
    assert calls[..i + 1][0] == call && calls[..i + 1][1..] == calls[1..][..i];
    if call.leaf != f {
      SplitsShared(c, root, depth, f, call.leaf);
      OtherTracks(c, root, depth, known, call, released, f, ls);
      RunAnswers(c, root, depth, next, calls[1..], released', f, ls, secret, i - 1);
    } else {
      RequestServedIff(c, root, depth, known, call, released, ls);
      var ls' := ls.With(call.t, Record(ls.Of(call.t), call.generation));
      if i == 0 {
        assert AllServable(c, secret, ls', [], f);
      } else if r.Ok? {
        RunAnswers(c, root, depth, next, calls[1..], released', f, ls', secret, i - 1);
      } else {
        StaysUncovered(c, root, depth, next, calls[1..], released', f);
        assert calls[1..][i - 1].leaf == f;
      }
    }
  }

  // ------------------------------------------------------------------
  // Below a node that does not split
  // ------------------------------------------------------------------

  /** Nothing is known strictly below a node. */
  ghost predicate Sealed(known: Known, level: nat, pos: nat) {
    forall g: nat, m: nat :: m < level && T.Up(g, level) == pos ==> Chain(g, m) !in known
  }

  lemma {:induction false} SharedAbove(f: nat, g: nat, level: nat, l: nat)
    requires level <= l && T.Up(f, level) == T.Up(g, level)
    ensures T.Up(f, l) == T.Up(g, l)
    decreases l
  {
    if level < l { SharedAbove(f, g, level, l - 1); }
  }

  /** What does not split stays without anything below. */
  lemma ConsumeKeepsSealed(c: Cipher, root: bytes, depth: nat, known: Known, leaf: nat, level: nat,
                           released: Released, top: nat, pos: nat)
    requires 1 <= level <= depth && leaf < Pow2(depth) && Inv(c, root, depth, known, released)
    requires 1 <= top <= depth && !Splits(c, root, depth, top, pos) && Sealed(known, top, pos)
    ensures Sealed(ConsumeNode(c, known, Chain(leaf, level)).0, top, pos)
  {
    var x, p := Chain(leaf, level), T.Up(leaf, level);
    ConsumeOkIff(c, root, depth, known, leaf, level, released);
    var (known', r) := ConsumeNode(c, known, x);
    if x in known && r.Ok? {
      KnownAbove(c, root, depth, known, leaf, level, released);
      ConsumeSplits(c, known, level, p);
      forall g: nat, m: nat | m < top && T.Up(g, top) == pos ensures Chain(g, m) !in known' {
        ChainIs(g, m, level - 1, 2 * p);
        ChainIs(g, m, level - 1, 2 * p + 1);
        assert Chain(g, m) !in known;
        assert m + 1 == level && T.Up(g, m) / 2 == p ==> Chain(g, level) == x;
      }
    }
  }

  lemma {:induction false} DownKeepsSealed(c: Cipher, root: bytes, depth: nat, known: Known, leaf: nat, level: nat,
                                           released: Released, top: nat, pos: nat)
    requires level <= depth && leaf < Pow2(depth) && Inv(c, root, depth, known, released)
    requires 1 <= top <= depth && !Splits(c, root, depth, top, pos) && Sealed(known, top, pos)
    ensures Sealed(ConsumeDown(c, known, leaf, level).0, top, pos)
    decreases level
  {
    if level > 0 {
      ConsumeKeepsSealed(c, root, depth, known, leaf, level, released, top, pos);
      ConsumeKeepsInv(c, root, depth, known, leaf, level, released);
      var (next, r) := ConsumeNode(c, known, Chain(leaf, level));
      if r.Ok? { DownKeepsSealed(c, root, depth, next, leaf, level - 1, released, top, pos); }
    }
  }

  /** A request for a leaf below such a node fails; one for another leaf puts nothing there. */
  lemma RequestKeepsSealed(c: Cipher, root: bytes, depth: nat, known: Known, call: Call, released: Released,
                           top: nat, pos: nat)
    requires Inv(c, root, depth, known, released)
    requires 1 <= top <= depth && !Splits(c, root, depth, top, pos) && Sealed(known, top, pos)
    ensures var (known', r) := Request(c, depth, known, call.leaf, call.t, call.generation);
            && Sealed(known', top, pos)
            && (T.Up(call.leaf, top) == pos ==> r.Err?)
  {
    var leaf := call.leaf;
    if leaf < Pow2(depth) {
      DownKeepsSealed(c, root, depth, known, leaf, depth, released, top, pos);
      forall g: nat, m: nat ensures Chain(g, m) == Chain(leaf, 0) ==> m == 0 && g == leaf { ChainIs(g, m, 0, leaf); }
      if T.Up(leaf, top) == pos {
        assert Chain(leaf, 0) !in known;
        assert Chain(leaf, 0) !in ConsumeDown(c, known, leaf, depth).0;
      }
    }
  }

  /** It uncovers every leaf below the node. */
  lemma RequestUncovers(c: Cipher, root: bytes, depth: nat, known: Known, call: Call, released: Released,
                        top: nat, f: nat)
    requires Inv(c, root, depth, known, released) && f < Pow2(depth) && call.leaf < Pow2(depth)
    requires 1 <= top <= depth && !Splits(c, root, depth, top, T.Up(f, top)) && Sealed(known, top, T.Up(f, top))
    requires T.Up(call.leaf, top) == T.Up(f, top)
    ensures Uncovered(depth, Request(c, depth, known, call.leaf, call.t, call.generation).0, f)
  {
    var known' := Request(c, depth, known, call.leaf, call.t, call.generation).0;
    RequestKeepsSealed(c, root, depth, known, call, released, top, T.Up(f, top));
    RequestCoverage(c, root, depth, known, call.leaf, call.t, call.generation, released, call.leaf);
    forall l: nat | l <= depth ensures Chain(f, l) !in known' {
      if l >= top {
        SharedAbove(f, call.leaf, top, l);
        assert Chain(call.leaf, l) !in known';
      }
    }
  }

  /** No call is for a leaf below the node above `f` at this level. */
  ghost predicate NoneBelow(depth: nat, calls: seq<Call>, level: nat, f: nat) {
    forall i :: 0 <= i < |calls| && calls[i].leaf < Pow2(depth) ==> T.Up(calls[i].leaf, level) != T.Up(f, level)
  }

  lemma NotBelowIsShared(c: Cipher, root: bytes, depth: nat, f: nat, leaf: nat, top: nat)
    requires FirstFailure(c, root, depth, f, top) && T.Up(leaf, top) != T.Up(f, top)
    ensures SharedSplit(c, root, depth, f, leaf)
  {
    forall l: nat | 1 <= l <= depth && T.Up(f, l) == T.Up(leaf, l) ensures Splits(c, root, depth, l, T.Up(f, l)) {
      if l <= top { SharedAbove(f, leaf, l, top); }
    }
  }

  lemma {:induction false} RunSealed(c: Cipher, root: bytes, depth: nat, known: Known, calls: seq<Call>,
                                     released: Released, f: nat, top: nat)
    requires FirstFailure(c, root, depth, f, top) && f < Pow2(depth) && Inv(c, root, depth, known, released)
    requires Covered(depth, known, f) && Sealed(known, top, T.Up(f, top))
    ensures Covered(depth, Run(c, depth, known, calls).0, f) <==> NoneBelow(depth, calls, top, f)
    decreases |calls|
  {
    if calls != [] {
      var call := calls[0];
      var (next, r) := Request(c, depth, known, call.leaf, call.t, call.generation);
      var released' := ReleasedAfter(released, call, r);
      RequestIsSafe(c, root, depth, known, call.leaf, call.t, call.generation, released);
      RequestCoverage(c, root, depth, known, call.leaf, call.t, call.generation, released, f);
      RequestKeepsSealed(c, root, depth, known, call, released, top, T.Up(f, top));
      NoneBelowCons(depth, calls, top, f);
      if call.leaf < Pow2(depth) && T.Up(call.leaf, top) == T.Up(f, top) {
        RequestUncovers(c, root, depth, known, call, released, top, f);
        StaysUncovered(c, root, depth, next, calls[1..], released', f);
      } else {
        if call.leaf < Pow2(depth) { NotBelowIsShared(c, root, depth, f, call.leaf, top); }
        RunSealed(c, root, depth, next, calls[1..], released', f, top);
      }
    }
  }

  lemma NoneBelowCons(depth: nat, calls: seq<Call>, level: nat, f: nat)
    requires calls != []
    ensures NoneBelow(depth, calls, level, f)
            <==> (calls[0].leaf < Pow2(depth) ==> T.Up(calls[0].leaf, level) != T.Up(f, level))
                 && NoneBelow(depth, calls[1..], level, f)
  {
    assert forall i :: 0 < i < |calls| ==> calls[i] == calls[1..][i - 1];
    assert forall i :: 0 <= i < |calls| - 1 ==> calls[1..][i] == calls[i + 1];
  }

  lemma {:induction false} SealedRefuses(c: Cipher, root: bytes, depth: nat, known: Known, calls: seq<Call>,
                                         released: Released, top: nat, i: nat)
    requires Inv(c, root, depth, known, released) && i < |calls|
    requires 1 <= top <= depth && !Splits(c, root, depth, top, T.Up(calls[i].leaf, top))
    requires Sealed(known, top, T.Up(calls[i].leaf, top))
    ensures Results(c, depth, known, calls)[i].Err?
    decreases |calls|
  {
    var call := calls[0];
    var (next, r) := Request(c, depth, known, call.leaf, call.t, call.generation);
    RequestIsSafe(c, root, depth, known, call.leaf, call.t, call.generation, released);
    RequestKeepsSealed(c, root, depth, known, call, released, top, T.Up(calls[i].leaf, top));
    if i > 0 {
      assert calls[i] == calls[1..][i - 1];
      SealedRefuses(c, root, depth, next, calls[1..], ReleasedAfter(released, call, r), top, i - 1);
    }
  }

  // ------------------------------------------------------------------
  // From a new tree
  // ------------------------------------------------------------------

  lemma NewTreeTracks(c: Cipher, root: bytes, depth: nat, f: nat)
    requires f < Pow2(depth)
    ensures var start: Known := map[T.Node(depth, 0) := Secret(root)];
            && Inv(c, root, depth, start, iset{}) && Covered(depth, start, f)
            && Tracks(start, f, Ledgers(NONE_SERVED, NONE_SERVED), iset{})
  {
    InvInitially(c, root, depth);
    T.TopPosition(f, depth);
    var start: Known := map[T.Node(depth, 0) := Secret(root)];
    assert Chain(f, depth) in start;
  }

  lemma NewTreeSealed(root: bytes, depth: nat, level: nat, pos: nat)
    requires level <= depth
    ensures Sealed(map[T.Node(depth, 0) := Secret(root)], level, pos)
  {
    var start: Known := map[T.Node(depth, 0) := Secret(root)];
    forall g: nat, m: nat | m < level && T.Up(g, level) == pos ensures Chain(g, m) !in start { ChainIs(g, m, depth, 0); }
  }

  /** In every run from a new tree, a leaf whose path splits can still be served if and only if every
      call for it was servable: it named no generation, or an unserved one at most 1024 ahead, and
      its keys could be derived. A leaf below a node that does not split can be so as long as no
      call was for any leaf below that node. Where key derivation does not fail, the calls decide. */
  lemma ServiceableIff(c: Cipher, root: bytes, depth: nat, calls: seq<Call>, f: nat)
    requires f < Pow2(depth)
    ensures PathSplits(c, root, depth, f) ==>
              var secret := NodeSecret(c, root, depth, 0, f);
              secret.Some? &&
              (Covered(depth, Run(c, depth, map[T.Node(depth, 0) := Secret(root)], calls).0, f)
               <==> AllServable(c, secret.value, Ledgers(NONE_SERVED, NONE_SERVED), calls, f))
    ensures !PathSplits(c, root, depth, f) ==>
              exists level: nat :: FirstFailure(c, root, depth, f, level) &&
                (Covered(depth, Run(c, depth, map[T.Node(depth, 0) := Secret(root)], calls).0, f)
                 <==> NoneBelow(depth, calls, level, f))
    ensures Total(c) ==>
              (Covered(depth, Run(c, depth, map[T.Node(depth, 0) := Secret(root)], calls).0, f)
               <==> AllAdmissible(c.outOfOrder, Ledgers(NONE_SERVED, NONE_SERVED), calls, f))
  {
    var start: Known, none := map[T.Node(depth, 0) := Secret(root)], Ledgers(NONE_SERVED, NONE_SERVED);
    NewTreeTracks(c, root, depth, f);
    if Total(c) { TotalSplits(c, root, depth, f); }
    if PathSplits(c, root, depth, f) {
      SecretOnPath(c, root, depth, f, 0);
      var secret := NodeSecret(c, root, depth, 0, f).value;
      RunServes(c, root, depth, start, calls, iset{}, f, none, secret);
      if Total(c) { TotalServable(c, secret, none, calls, f); }
    } else {
      var level := FailureFrom(c, root, depth, f, depth);
      NewTreeSealed(root, depth, level, T.Up(f, level));
      RunSealed(c, root, depth, start, calls, iset{}, f, level);
    }
  }

  /** And a call is answered with a key if and only if the path of its leaf splits and it and all
      calls for the leaf before it were servable. */
  lemma AnsweredIff(c: Cipher, root: bytes, depth: nat, calls: seq<Call>, i: nat)
    requires i < |calls| && calls[i].leaf < Pow2(depth)
    ensures Results(c, depth, map[T.Node(depth, 0) := Secret(root)], calls)[i].Ok?
            <==> && PathSplits(c, root, depth, calls[i].leaf)
                 && NodeSecret(c, root, depth, 0, calls[i].leaf).Some?
                 && AllServable(c, NodeSecret(c, root, depth, 0, calls[i].leaf).value,
                                Ledgers(NONE_SERVED, NONE_SERVED), calls[..i + 1], calls[i].leaf)
    ensures Total(c) ==>
              (Results(c, depth, map[T.Node(depth, 0) := Secret(root)], calls)[i].Ok?
               <==> AllAdmissible(c.outOfOrder, Ledgers(NONE_SERVED, NONE_SERVED), calls[..i + 1], calls[i].leaf))
  {
    var start: Known, none := map[T.Node(depth, 0) := Secret(root)], Ledgers(NONE_SERVED, NONE_SERVED);
    var f := calls[i].leaf;
    NewTreeTracks(c, root, depth, f);
    if Total(c) { TotalSplits(c, root, depth, f); }
    if PathSplits(c, root, depth, f) {
      SecretOnPath(c, root, depth, f, 0);
      var secret := NodeSecret(c, root, depth, 0, f).value;
      RunAnswers(c, root, depth, start, calls, iset{}, f, none, secret, i);
      if Total(c) { TotalServable(c, secret, none, calls[..i + 1], f); }
    } else {
      var level := FailureFrom(c, root, depth, f, depth);
      NewTreeSealed(root, depth, level, T.Up(f, level));
      SealedRefuses(c, root, depth, start, calls, iset{}, level, i);
    }
  }
}
