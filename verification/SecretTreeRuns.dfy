/** Whole runs of a secret tree: every key that is given out is the right one, and none is given
    out twice, for every sequence of requests and every pattern of failures. */
module SecretTreeRuns {
  import opened Bytes
  import opened Wrappers
  import opened KeyRatchet
  import opened SecretTree
  import T = TreeMath

  // ------------------------------------------------------------------
  // The tree that the epoch's secret defines
  // ------------------------------------------------------------------

  /** The secret of a node, by derivation from the root. */
  function NodeSecret(c: Cipher, root: bytes, depth: nat, level: nat, pos: nat): Option<bytes>
    requires level <= depth
    decreases depth - level
  {
    if level == depth then Some(root)
    else
      var parent := NodeSecret(c, root, depth, level + 1, pos / 2);
      if parent.None? then None
      else c.expand(parent.value, TREE, if pos % 2 == 0 then LEFT else RIGHT, None)
  }

  /** The message key of a leaf, a key type and a generation. */
  function IdealKey(c: Cipher, root: bytes, depth: nat, leaf: nat, t: KeyType, generation: nat): Option<MessageKey> {
    var s := NodeSecret(c, root, depth, 0, leaf);
    if s.None? then None else ChainKey(c, s.value, t, generation)
  }

  // ------------------------------------------------------------------
  // Invariant
  // ------------------------------------------------------------------

  type Released = iset<(nat, KeyType, nat)>

  ghost function Used(released: Released, leaf: nat, t: KeyType): iset<nat> {
    iset g: nat | (leaf, t, g) in released
  }

  /** A node above `leaf` holds its own secret, and nothing of the leaf has been given out; or
      it is the leaf and holds ratchets that stand on the leaf's chains. */
  ghost predicate NodeOk(c: Cipher, root: bytes, depth: nat, node: Node, level: nat, leaf: nat, released: Released)
    requires level <= depth
  {
    match node
    case Secret(s) =>
      && NodeSecret(c, root, depth, level, T.Up(leaf, level)) == Some(s)
      && (forall t, g: nat :: (leaf, t, g) !in released)
    case Leaf(rs) =>
      && level == 0
      && var s := NodeSecret(c, root, depth, 0, leaf);
         && s.Some?
         && OnChain(c, s.value, Application, rs.application, Used(released, leaf, Application))
         && OnChain(c, s.value, Handshake, rs.handshake, Used(released, leaf, Handshake))
  }

  /** At most one node on the way from the leaf to the root is known. */
  ghost predicate OneAbove(depth: nat, known: Known, leaf: nat) {
    forall l, m :: 0 <= l < m <= depth ==> Chain(leaf, l) !in known || Chain(leaf, m) !in known
  }

  ghost predicate LeafInv(c: Cipher, root: bytes, depth: nat, known: Known, leaf: nat, released: Released) {
    && OneAbove(depth, known, leaf)
    && (forall l :: 0 <= l <= depth && Chain(leaf, l) in known ==>
          NodeOk(c, root, depth, known[Chain(leaf, l)], l, leaf, released))
  }

  /** What every request keeps. */
  ghost predicate Inv(c: Cipher, root: bytes, depth: nat, known: Known, released: Released) {
    && (forall leaf: nat :: leaf < Pow2(depth) ==> LeafInv(c, root, depth, known, leaf, released))
    && (forall leaf: nat :: leaf >= Pow2(depth) ==> Chain(leaf, 0) !in known)
  }

  lemma ChainIs(leaf: nat, level: nat, l: nat, pos: nat)
    ensures Chain(leaf, level) == T.Node(l, pos) <==> level == l && T.Up(leaf, level) == pos
  {
    if Chain(leaf, level) == T.Node(l, pos) { T.NodeInjective(level, T.Up(leaf, level), l, pos); }
  }

  /** A new tree knows the root. */
  lemma InvInitially(c: Cipher, root: bytes, depth: nat)
    ensures Inv(c, root, depth, map[T.Node(depth, 0) := Secret(root)], iset{})
  {
    var known: Known := map[T.Node(depth, 0) := Secret(root)];
    forall leaf: nat | leaf < Pow2(depth) ensures LeafInv(c, root, depth, known, leaf, iset{}) {
      T.TopPosition(leaf, depth);
      forall l: nat | l <= depth ensures Chain(leaf, l) in known <==> l == depth { ChainIs(leaf, l, depth, 0); }
    }
    forall leaf: nat | leaf >= Pow2(depth) ensures Chain(leaf, 0) !in known { ChainIs(leaf, 0, depth, 0); }
  }

  /** Dropping a node keeps the invariant. */
  lemma RemoveKeepsInv(c: Cipher, root: bytes, depth: nat, known: Known, x: nat, released: Released)
    requires Inv(c, root, depth, known, released)
    ensures Inv(c, root, depth, known - {x}, released)
  {
    forall leaf: nat | leaf < Pow2(depth) ensures LeafInv(c, root, depth, known - {x}, leaf, released) {
      assert LeafInv(c, root, depth, known, leaf, released);
    }
  }

  // ------------------------------------------------------------------
  // Consuming a node
  // ------------------------------------------------------------------

  /** Replacing a node by its children moves every leaf below it one level down, and touches no
      other leaf. */
  lemma SplitMembership(known: Known, known': Known, level: nat, pos: nat, depth: nat, leaf: nat)
    requires 1 <= level <= depth
    requires OneAbove(depth, known, leaf) && T.Node(level, pos) in known
    requires known'.Keys == known.Keys - {T.Node(level, pos)} + {T.Node(level - 1, 2 * pos), T.Node(level - 1, 2 * pos + 1)}
    ensures T.Up(leaf, level) == pos ==> forall l: nat :: l <= depth ==> (Chain(leaf, l) in known' <==> l == level - 1)
    ensures T.Up(leaf, level) != pos ==>
              forall l: nat :: l <= depth ==>
                (Chain(leaf, l) in known' <==> Chain(leaf, l) in known)
                && Chain(leaf, l) != T.Node(level - 1, 2 * pos) && Chain(leaf, l) != T.Node(level - 1, 2 * pos + 1)
  {
    assert T.Up(leaf, level) == T.Up(leaf, level - 1) / 2;
    forall l: nat | l <= depth
      ensures T.Up(leaf, level) == pos ==> (Chain(leaf, l) in known' <==> l == level - 1)
      ensures T.Up(leaf, level) != pos ==>
                (Chain(leaf, l) in known' <==> Chain(leaf, l) in known)
                && Chain(leaf, l) != T.Node(level - 1, 2 * pos) && Chain(leaf, l) != T.Node(level - 1, 2 * pos + 1)
    {
      ChainIs(leaf, l, level, pos);
      ChainIs(leaf, l, level - 1, 2 * pos);
      ChainIs(leaf, l, level - 1, 2 * pos + 1);
      if T.Up(leaf, level) == pos { ChainIs(leaf, level, level, pos); }
    }
  }

  /** The result of a split, in tree terms. */
  lemma ConsumeSplits(c: Cipher, known: Known, level: nat, pos: nat)
    requires level >= 1 && T.Node(level, pos) in known && known[T.Node(level, pos)].Secret?
    requires ConsumeNode(c, known, T.Node(level, pos)).1.Ok?
    ensures var known' := ConsumeNode(c, known, T.Node(level, pos)).0;
            var s := known[T.Node(level, pos)].secret;
            var a, b := T.Node(level - 1, 2 * pos), T.Node(level - 1, 2 * pos + 1);
            && known'.Keys == known.Keys - {T.Node(level, pos)} + {a, b}
            && (forall x :: x in known && x != T.Node(level, pos) && x != a && x != b ==> known'[x] == known[x])
            && known'[a].Secret? && c.expand(s, TREE, LEFT, None) == Some(known'[a].secret)
            && known'[b].Secret? && c.expand(s, TREE, RIGHT, None) == Some(known'[b].secret)
  {
    T.LeftOfNode(level, pos);
    T.RightOfNode(level, pos);
    if T.Node(level - 1, 2 * pos) == T.Node(level - 1, 2 * pos + 1) {
      T.NodeInjective(level - 1, 2 * pos, level - 1, 2 * pos + 1);
    }
  }

  lemma SplitKeepsLeaf(c: Cipher, root: bytes, depth: nat, known: Known, level: nat, pos: nat, leaf: nat,
                       released: Released)
    requires 1 <= level <= depth && LeafInv(c, root, depth, known, leaf, released)
    requires T.Node(level, pos) in known && known[T.Node(level, pos)].Secret?
    requires ConsumeNode(c, known, T.Node(level, pos)).1.Ok?
    ensures LeafInv(c, root, depth, ConsumeNode(c, known, T.Node(level, pos)).0, leaf, released)
  {
    var known' := ConsumeNode(c, known, T.Node(level, pos)).0;
    ConsumeSplits(c, known, level, pos);
    SplitMembership(known, known', level, pos, depth, leaf);
    if T.Up(leaf, level) == pos {
      assert Chain(leaf, level) == T.Node(level, pos);
      assert NodeOk(c, root, depth, known[Chain(leaf, level)], level, leaf, released);
      var below := T.Up(leaf, level - 1);
      assert below / 2 == pos;
      assert below == 2 * pos || below == 2 * pos + 1;
      assert NodeOk(c, root, depth, known'[Chain(leaf, level - 1)], level - 1, leaf, released);
    }
  }

  /** The children of a node above a leaf of the tree are no leaves outside it. */
  lemma SplitStaysInside(known: Known, known': Known, depth: nat, leaf: nat, level: nat)
    requires 1 <= level <= depth && leaf < Pow2(depth)
    requires var pos := T.Up(leaf, level);
             known'.Keys == known.Keys - {T.Node(level, pos)} + {T.Node(level - 1, 2 * pos), T.Node(level - 1, 2 * pos + 1)}
    requires forall f: nat :: f >= Pow2(depth) ==> Chain(f, 0) !in known
    ensures forall f: nat :: f >= Pow2(depth) ==> Chain(f, 0) !in known'
  {
    var pos := T.Up(leaf, level);
    assert T.Up(leaf, level) == T.Up(leaf, level - 1) / 2;
    forall f: nat | f >= Pow2(depth) ensures Chain(f, 0) !in known' {
      ChainIs(f, 0, level - 1, 2 * pos);
      ChainIs(f, 0, level - 1, 2 * pos + 1);
    }
  }

  lemma ConsumeKeepsInv(c: Cipher, root: bytes, depth: nat, known: Known, leaf: nat, level: nat, released: Released)
    requires 1 <= level <= depth && leaf < Pow2(depth) && Inv(c, root, depth, known, released)
    ensures Inv(c, root, depth, ConsumeNode(c, known, Chain(leaf, level)).0, released)
  {
    var x := Chain(leaf, level);
    var (known', r) := ConsumeNode(c, known, x);
    if x !in known || r.Err? {
      assert known' == known - {x};
      RemoveKeepsInv(c, root, depth, known, x, released);
    } else {
      KnownAbove(c, root, depth, known, leaf, level, released);
      var pos := T.Up(leaf, level);
      forall f: nat | f < Pow2(depth) ensures LeafInv(c, root, depth, known', f, released) {
        SplitKeepsLeaf(c, root, depth, known, level, pos, f, released);
      }
      ConsumeSplits(c, known, level, pos);
      SplitStaysInside(known, known', depth, leaf, level);
    }
  }

  /** Above the leaves there are secrets only. */
  lemma KnownAbove(c: Cipher, root: bytes, depth: nat, known: Known, leaf: nat, level: nat, released: Released)
    requires 1 <= level <= depth && leaf < Pow2(depth) && Inv(c, root, depth, known, released)
    requires Chain(leaf, level) in known
    ensures known[Chain(leaf, level)].Secret?
  {
    assert LeafInv(c, root, depth, known, leaf, released);
    assert NodeOk(c, root, depth, known[Chain(leaf, level)], level, leaf, released);
  }

  lemma {:induction false} DownKeepsInv(c: Cipher, root: bytes, depth: nat, known: Known, leaf: nat, level: nat,
                                        released: Released)
    requires level <= depth && leaf < Pow2(depth) && Inv(c, root, depth, known, released)
    ensures Inv(c, root, depth, ConsumeDown(c, known, leaf, level).0, released)
    decreases level
  {
    if level > 0 {
      ConsumeKeepsInv(c, root, depth, known, leaf, level, released);
      var (next, r) := ConsumeNode(c, known, Chain(leaf, level));
      if r.Ok? { DownKeepsInv(c, root, depth, next, leaf, level - 1, released); }
    }
  }

  // ------------------------------------------------------------------
  // A request
  // ------------------------------------------------------------------

  /** No node on the way from the leaf to the root is known. */
  ghost predicate Uncovered(depth: nat, known: Known, leaf: nat) {
    forall l: nat :: l <= depth ==> Chain(leaf, l) !in known
  }

  lemma TakeKeepsInv(c: Cipher, root: bytes, depth: nat, known: Known, leaf: nat, released: Released)
    requires Inv(c, root, depth, known, released)
    ensures var (taken, node) := TakeNode(c, depth, known, leaf);
            && Inv(c, root, depth, taken, released)
            && (node.Ok? ==>
                  leaf < Pow2(depth) && Uncovered(depth, taken, leaf)
                  && NodeOk(c, root, depth, node.value, 0, leaf, released))
  {
    var x := Chain(leaf, 0);
    if x in known {
      assert LeafInv(c, root, depth, known, leaf, released);
      RemoveKeepsInv(c, root, depth, known, x, released);
      TakenUncovers(c, root, depth, known, leaf, released);
    } else if leaf < Pow2(depth) {
      DownKeepsInv(c, root, depth, known, leaf, depth, released);
      var (next, r) := ConsumeDown(c, known, leaf, depth);
      if r.Ok? && x in next {
        assert LeafInv(c, root, depth, next, leaf, released);
        RemoveKeepsInv(c, root, depth, next, x, released);
        TakenUncovers(c, root, depth, next, leaf, released);
      }
    }
  }

  lemma TakenUncovers(c: Cipher, root: bytes, depth: nat, known: Known, leaf: nat, released: Released)
    requires LeafInv(c, root, depth, known, leaf, released) && Chain(leaf, 0) in known
    ensures Uncovered(depth, known - {Chain(leaf, 0)}, leaf)
    ensures NodeOk(c, root, depth, known[Chain(leaf, 0)], 0, leaf, released)
  {
    assert OneAbove(depth, known, leaf);
    forall l: nat | l <= depth ensures Chain(leaf, l) !in known - {Chain(leaf, 0)} {
      if l > 0 { assert Chain(leaf, 0) !in known || Chain(leaf, l) !in known; }
    }
  }

  /** Ratchets of a leaf that stand on its chains. */
  ghost predicate RatchetsOk(c: Cipher, secret: bytes, leaf: nat, rs: Ratchets, released: Released) {
    && OnChain(c, secret, Application, rs.application, Used(released, leaf, Application))
    && OnChain(c, secret, Handshake, rs.handshake, Used(released, leaf, Handshake))
  }

  lemma MadeOk(c: Cipher, root: bytes, depth: nat, node: Node, leaf: nat, released: Released)
    requires NodeOk(c, root, depth, node, 0, leaf, released) && ToRatchets(c, node).Ok?
    ensures NodeSecret(c, root, depth, 0, leaf).Some?
    ensures RatchetsOk(c, NodeSecret(c, root, depth, 0, leaf).value, leaf, ToRatchets(c, node).value, released)
  {
    if node.Secret? {
      assert T.Up(leaf, 0) == leaf;
      NewOnChain(c, node.secret, Application);
      NewOnChain(c, node.secret, Handshake);
      assert Used(released, leaf, Application) == iset{};
      assert Used(released, leaf, Handshake) == iset{};
    }
  }

  /** Putting ratchets into an uncovered leaf, after giving out one of its keys. */
  lemma PutKeepsInv(c: Cipher, root: bytes, depth: nat, taken: Known, leaf: nat, rs: Ratchets, t: KeyType,
                    generation: nat, released: Released)
    requires Inv(c, root, depth, taken, released) && leaf < Pow2(depth) && Uncovered(depth, taken, leaf)
    requires NodeSecret(c, root, depth, 0, leaf).Some?
    requires RatchetsOk(c, NodeSecret(c, root, depth, 0, leaf).value, leaf, rs, released + iset{(leaf, t, generation)})
    ensures Inv(c, root, depth, taken[Chain(leaf, 0) := Leaf(rs)], released + iset{(leaf, t, generation)})
  {
    var x := Chain(leaf, 0);
    var known', released' := taken[x := Leaf(rs)], released + iset{(leaf, t, generation)};
    forall f: nat | f < Pow2(depth) ensures LeafInv(c, root, depth, known', f, released') {
      assert LeafInv(c, root, depth, taken, f, released);
      forall l: nat | l <= depth
        ensures f == leaf ==> (Chain(f, l) in known' <==> l == 0)
        ensures f != leaf ==> Chain(f, l) != x
      {
        ChainIs(f, l, 0, leaf);
      }
      if f != leaf { OtherLeafKept(c, root, depth, taken, known', f, released, released'); }
    }
    forall f: nat | f >= Pow2(depth) ensures Chain(f, 0) !in known' { ChainIs(f, 0, 0, leaf); }
  }

  lemma OtherLeafKept(c: Cipher, root: bytes, depth: nat, known: Known, known': Known, f: nat,
                      released: Released, released': Released)
    requires LeafInv(c, root, depth, known, f, released)
    requires forall l: nat :: l <= depth ==> (Chain(f, l) in known' <==> Chain(f, l) in known)
    requires forall l: nat :: l <= depth && Chain(f, l) in known ==> known'[Chain(f, l)] == known[Chain(f, l)]
    requires forall t, g: nat :: (f, t, g) in released' <==> (f, t, g) in released
    ensures LeafInv(c, root, depth, known', f, released')
  {
    assert Used(released', f, Application) == Used(released, f, Application);
    assert Used(released', f, Handshake) == Used(released, f, Handshake);
  }

  lemma UsedAfter(released: Released, leaf: nat, t: KeyType, generation: nat)
    ensures Used(released + iset{(leaf, t, generation)}, leaf, t) == Used(released, leaf, t) + iset{generation}
    ensures forall u :: u != t ==> Used(released + iset{(leaf, t, generation)}, leaf, u) == Used(released, leaf, u)
  {
    forall u | u != t
      ensures Used(released + iset{(leaf, t, generation)}, leaf, u) == Used(released, leaf, u)
    {
      var a, b := Used(released + iset{(leaf, t, generation)}, leaf, u), Used(released, leaf, u);
      assert forall g :: g in a <==> g in b;
    }
  }

  lemma GiveOut(c: Cipher, secret: bytes, leaf: nat, rs: Ratchets, t: KeyType, generation: Option<nat>,
                released: Released)
    requires RatchetsOk(c, secret, leaf, rs, released)
    requires GiveKey(c, RatchetFor(rs, t), generation).Ok?
    ensures var out := GiveKey(c, RatchetFor(rs, t), generation).value;
            var g := out.1.generation;
            && ChainKey(c, secret, t, g) == Some(out.1)
            && (generation.Some? ==> g == generation.value)
            && g < U32_MAX && (leaf, t, g) !in released
            && RatchetsOk(c, secret, leaf, WithRatchet(rs, t, out.0), released + iset{(leaf, t, g)})
  {
    var r, used := RatchetFor(rs, t), Used(released, leaf, t);
    if generation.None? {
      NextOnChain(c, secret, t, r, used);
      UsedAfter(released, leaf, t, r.generation);
    } else {
      GetOnChain(c, secret, t, r, generation.value, used);
      UsedAfter(released, leaf, t, generation.value);
    }
  }

  /** A key that a request returns is the tree's key for its leaf, type and generation, and has
      not been returned before; the invariant holds again after success and after failure. */
  lemma RequestIsSafe(c: Cipher, root: bytes, depth: nat, known: Known, leaf: nat, t: KeyType,
                      generation: Option<nat>, released: Released)
    requires Inv(c, root, depth, known, released)
    ensures var (known', r) := Request(c, depth, known, leaf, t, generation);
            && (r.Ok? ==>
                  && IsIdeal(c, root, depth, Given(leaf, t, r.value))
                  && (generation.Some? ==> r.value.generation == generation.value)
                  && (leaf, t, r.value.generation) !in released
                  && Inv(c, root, depth, known', released + iset{(leaf, t, r.value.generation)}))
            && (r.Err? ==> Inv(c, root, depth, known', released))
  {
    TakeKeepsInv(c, root, depth, known, leaf, released);
    var (taken, node) := TakeNode(c, depth, known, leaf);
    if node.Ok? && ToRatchets(c, node.value).Ok? {
      MadeOk(c, root, depth, node.value, leaf, released);
      var secret, rs := NodeSecret(c, root, depth, 0, leaf).value, ToRatchets(c, node.value).value;
      var r := RatchetFor(rs, t);
      var out := GiveKey(c, r, generation);
      if out.Ok? {
        GiveOut(c, secret, leaf, rs, t, generation, released);
        PutKeepsInv(c, root, depth, taken, leaf, WithRatchet(rs, t, out.value.0), t, out.value.1.generation, released);
      }
    }
  }

  // ------------------------------------------------------------------
  // Runs
  // ------------------------------------------------------------------

  datatype Call = Call(leaf: nat, t: KeyType, generation: Option<nat>)

  datatype Given = Given(leaf: nat, t: KeyType, key: MessageKey)

  function Run(c: Cipher, depth: nat, known: Known, calls: seq<Call>): (Known, seq<Given>)
    decreases |calls|
  {
    if calls == [] then (known, [])
    else
      var call := calls[0];
      var (next, r) := Request(c, depth, known, call.leaf, call.t, call.generation);
      var (last, given) := Run(c, depth, next, calls[1..]);
      (last, (if r.Ok? then [Given(call.leaf, call.t, r.value)] else []) + given)
  }

  ghost predicate Distinct(given: seq<Given>) {
    forall i, j :: 0 <= i < j < |given| ==>
      (given[i].leaf, given[i].t, given[i].key.generation) != (given[j].leaf, given[j].t, given[j].key.generation)
  }

  ghost predicate AllNew(given: seq<Given>, released: Released) {
    forall i :: 0 <= i < |given| ==> (given[i].leaf, given[i].t, given[i].key.generation) !in released
  }

  ghost predicate AllIdeal(c: Cipher, root: bytes, depth: nat, given: seq<Given>) {
    forall i :: 0 <= i < |given| ==> IsIdeal(c, root, depth, given[i])
  }

  /** The tree's own key, of a leaf in the tree and a `u32` generation. */
  ghost predicate IsIdeal(c: Cipher, root: bytes, depth: nat, g: Given) {
    && g.leaf < Pow2(depth) && g.key.generation < U32_MAX
    && IdealKey(c, root, depth, g.leaf, g.t, g.key.generation) == Some(g.key)
  }

  /** One more key in front of a safe list. */
  lemma ConsSafe(c: Cipher, root: bytes, depth: nat, g: Given, tail: seq<Given>, released: Released)
    requires IsIdeal(c, root, depth, g)
    requires (g.leaf, g.t, g.key.generation) !in released
    requires AllIdeal(c, root, depth, tail) && Distinct(tail)
    requires AllNew(tail, released + iset{(g.leaf, g.t, g.key.generation)})
    ensures AllIdeal(c, root, depth, [g] + tail) && Distinct([g] + tail) && AllNew([g] + tail, released)
  {
    var all := [g] + tail;
    assert forall i :: 0 < i < |all| ==> all[i] == tail[i - 1];
  }

  lemma {:induction false} RunIsSafe(c: Cipher, root: bytes, depth: nat, known: Known, calls: seq<Call>,
                                     released: Released)
    requires Inv(c, root, depth, known, released)
    ensures var given := Run(c, depth, known, calls).1;
            AllIdeal(c, root, depth, given) && Distinct(given) && AllNew(given, released)
    decreases |calls|
  {
    if calls != [] {
      var call := calls[0];
      RequestIsSafe(c, root, depth, known, call.leaf, call.t, call.generation, released);
      var (next, r) := Request(c, depth, known, call.leaf, call.t, call.generation);
      var tail := Run(c, depth, next, calls[1..]).1;
      if r.Ok? {
        var released' := released + iset{(call.leaf, call.t, r.value.generation)};
        RunIsSafe(c, root, depth, next, calls[1..], released');
        ConsSafe(c, root, depth, Given(call.leaf, call.t, r.value), tail, released);
      } else {
        RunIsSafe(c, root, depth, next, calls[1..], released);
        assert [] + tail == tail;
      }
    }
  }

  /** From a new tree, over every sequence of requests for any leaves, types and generations, in
      any order and with any failures: all keys given out are the tree's keys, and no leaf,
      type and generation occurs twice. */
  lemma KeysAreRightAndUsedOnce(c: Cipher, root: bytes, depth: nat, calls: seq<Call>)
    ensures var given := Run(c, depth, map[T.Node(depth, 0) := Secret(root)], calls).1;
            AllIdeal(c, root, depth, given) && Distinct(given)
  {
    InvInitially(c, root, depth);
    RunIsSafe(c, root, depth, map[T.Node(depth, 0) := Secret(root)], calls, iset{});
  }
}
