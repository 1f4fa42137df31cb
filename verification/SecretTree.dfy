/** The secret tree of an epoch (section 9 of RFC 9420): secrets are derived from the root down
    on demand, and every secret is dropped when it has been used. */
module SecretTree {
  import opened Bytes
  import opened Wrappers
  import opened KeyRatchet
  import T = TreeMath

  datatype Ratchets = Ratchets(application: Ratchet, handshake: Ratchet)

  datatype Node = Secret(secret: bytes) | Leaf(ratchets: Ratchets)

  /** `known_secrets`: by node number. */
  type Known = map<nat, Node>

  const TREE: bytes := [116, 114, 101, 101]
  const LEFT: bytes := [108, 101, 102, 116]
  const RIGHT: bytes := [114, 105, 103, 104, 116]

  // ------------------------------------------------------------------
  // Operations as values
  // ------------------------------------------------------------------

  /** `consume_node`: a secret is taken out and its children's secrets are put in. */
  function ConsumeNode(c: Cipher, known: Known, x: nat): (Known, MlsResult<()>) {
    var rest := known - {x};
    if x !in known || known[x].Leaf? then (rest, Ok(()))
    else if T.IsLeaf(x) then (rest, Err(LeafNodeNoChildren))
    else
      var left := c.expand(known[x].secret, TREE, LEFT, None);
      var right := c.expand(known[x].secret, TREE, RIGHT, None);
      if left.None? || right.None? then (rest, Err(CryptoProviderError))
      else (rest[T.Left(x) := Secret(left.value)][T.Right(x) := Secret(right.value)], Ok(()))
  }

  /** The node above a leaf at some level. */
  function Chain(leaf: nat, level: nat): nat {
    T.Node(level, T.Up(leaf, level))
  }

  /** `consume_node` along the way down to a leaf, from a level to the leaf's parent. */
  function ConsumeDown(c: Cipher, known: Known, leaf: nat, level: nat): (Known, MlsResult<()>)
    decreases level
  {
    if level == 0 then (known, Ok(()))
    else
      var (next, r) := ConsumeNode(c, known, Chain(leaf, level));
      if r.Err? then (next, r) else ConsumeDown(c, next, leaf, level - 1)
  }

  /** The first half of `take_leaf_ratchet`: the leaf's node, taken out. */
  function TakeNode(c: Cipher, depth: nat, known: Known, leaf: nat): (Known, MlsResult<Node>) {
    var x := Chain(leaf, 0);
    if x in known then (known - {x}, Ok(known[x]))
    else if leaf >= Pow2(depth) then (known, Err(InvalidLeafConsumption))
    else
      var (next, r) := ConsumeDown(c, known, leaf, depth);
      if r.Err? then (next, Err(r.error))
      else if x !in next then (next, Err(InvalidLeafConsumption))
      else (next - {x}, Ok(next[x]))
  }

  /** The second half: a secret becomes a pair of new ratchets. */
  function ToRatchets(c: Cipher, node: Node): MlsResult<Ratchets> {
    match node
    case Leaf(rs) => Ok(rs)
    case Secret(s) =>
      var application :- NewRatchet(c, s, Application);
      var handshake :- NewRatchet(c, s, Handshake);
      Ok(Ratchets(application, handshake))
  }

  function RatchetFor(rs: Ratchets, t: KeyType): Ratchet {
    if t.Handshake? then rs.handshake else rs.application
  }

  function WithRatchet(rs: Ratchets, t: KeyType, r: Ratchet): Ratchets {
    if t.Handshake? then rs.(handshake := r) else rs.(application := r)
  }

  /** `next_message_key` (no generation) and `message_key_generation` of a leaf. A request that
      fails does not put the leaf's ratchets back. */
  function Request(c: Cipher, depth: nat, known: Known, leaf: nat, t: KeyType, generation: Option<nat>)
    : (Known, MlsResult<MessageKey>)
  {
    var (taken, node) := TakeNode(c, depth, known, leaf);
    if node.Err? then (taken, Err(node.error))
    else
      var rs := ToRatchets(c, node.value);
      if rs.Err? then (taken, Err(rs.error))
      else
        var r := RatchetFor(rs.value, t);
        var out := GiveKey(c, r, generation);
        if out.Err? then (taken, Err(out.error))
        else (taken[Chain(leaf, 0) := Leaf(WithRatchet(rs.value, t, out.value.0))], Ok(out.value.1))
  }

  // ------------------------------------------------------------------
  // The tree object
  // ------------------------------------------------------------------

  lemma {:induction false} CopathLevels(depth: nat, level: nat, pos: nat, i: nat)
    requires level <= depth && i < depth - level
    ensures |T.Copath(depth, level, pos)| == depth - level
    ensures T.Copath(depth, level, pos)[i].path == T.Node(level + i + 1, T.Up(pos, i + 1))
    decreases depth - level
  {
    if depth - level > 1 {
      CopathLevels(depth, level + 1, pos / 2, if i == 0 then 0 else i - 1);
    }
    if i > 0 {
      assert T.Copath(depth, level, pos)[i] == T.Copath(depth, level + 1, pos / 2)[i - 1];
      T.UpShift(pos, i);
    } else {
      assert T.Up(pos, 1) == T.Up(pos, 0) / 2;
    }
  }

  lemma LeafBelow(depth: nat, x: nat)
    requires T.IsLeaf(x)
    ensures T.TrailingOnes(x) == 0 && T.Position(x) == x / 2
    ensures x <= 2 * T.Root(Pow2(depth)) <==> x / 2 < Pow2(depth)
    ensures x / 2 < Pow2(depth) ==> T.Below(Pow2(depth), depth, 0, x / 2)
  {
    if x / 2 < Pow2(depth) { T.AllBelow(depth, 0, x / 2); }
  }

  class SecretTree {
    const cipher: Cipher
    const leafCount: nat
    ghost const depth: nat
    var known: Known

    ghost predicate Valid()
      reads this
    {
      leafCount == Pow2(depth)
    }

    /** `SecretTree::new`; zero leaves have no root. The tree is a proper one when the leaf count
        is a power of two, as the ratchet tree counts them. */
    constructor (cipher: Cipher, leafCount: nat, encryptionSecret: bytes, ghost depth: nat)
      requires leafCount > 0
      ensures this.cipher == cipher && this.leafCount == leafCount && this.depth == depth
      ensures known == map[T.Root(leafCount) := Secret(encryptionSecret)]
      ensures leafCount == Pow2(depth) ==>
                Valid() && known == map[T.Node(depth, 0) := Secret(encryptionSecret)]
    {
      T.RootIsTop(depth);
      this.cipher, this.leafCount, this.depth := cipher, leafCount, depth;
      known := map[T.Root(leafCount) := Secret(encryptionSecret)];
    }

    method Consume(x: nat) returns (r: MlsResult<()>)
      modifies this
      ensures (known, r) == ConsumeNode(cipher, old(known), x)
    {
      var was := known;
      known := known - {x};
      if x !in was || was[x].Leaf? { return Ok(()); }
      if T.IsLeaf(x) { return Err(LeafNodeNoChildren); }
      var left := cipher.expand(was[x].secret, TREE, LEFT, None);
      if left.None? { return Err(CryptoProviderError); }
      var right := cipher.expand(was[x].secret, TREE, RIGHT, None);
      if right.None? { return Err(CryptoProviderError); }
      known := known[T.Left(x) := Secret(left.value)];
      known := known[T.Right(x) := Secret(right.value)];
      r := Ok(());
    }

    /** `take_leaf_ratchet`, up to the making of ratchets. `x` is a leaf's node number. */
    method TakeLeafNode(x: nat) returns (node: MlsResult<Node>)
      requires Valid() && T.IsLeaf(x)
      modifies this
      ensures Valid() && (known, node) == TakeNode(cipher, depth, old(known), x / 2)
    {
      ghost var leaf := x / 2;
      assert Chain(leaf, 0) == x;
      if x in known {
        node := Ok(known[x]);
        known := known - {x};
        return;
      }
      LeafBelow(depth, x);
      var path := T.DirectCopath(x, leafCount, depth);
      if x / 2 < leafCount {
        if depth > 0 { CopathLevels(depth, 0, leaf, 0); }
        var i := |path|;
        while i > 0
          invariant 0 <= i <= |path| == depth
          invariant ConsumeDown(cipher, known, leaf, i) == ConsumeDown(cipher, old(known), leaf, depth)
          invariant Valid()
        {
          CopathLevels(depth, 0, leaf, i - 1);
          var r := Consume(path[i - 1].path);
          if r.Err? { return Err(r.error); }
          i := i - 1;
        }
      }
      if x !in known { return Err(InvalidLeafConsumption); }
      node := Ok(known[x]);
      known := known - {x};
    }

    method MessageKey(x: nat, t: KeyType, generation: Option<nat>) returns (r: MlsResult<MessageKey>)
      requires Valid() && T.IsLeaf(x)
      modifies this
      ensures Valid() && (known, r) == Request(cipher, depth, old(known), x / 2, t, generation)
    {
      assert Chain(x / 2, 0) == x;
      var node := TakeLeafNode(x);
      if node.Err? { return Err(node.error); }
      var rs := ToRatchets(cipher, node.value);
      if rs.Err? { return Err(rs.error); }
      var ratchet := RatchetFor(rs.value, t);
      var out;
      if generation.None? {
        out := NextKey(cipher, ratchet);
      } else {
        out := GetMessageKey(cipher, ratchet, generation.value);
      }
      if out.Err? { return Err(out.error); }
      known := known[x := Leaf(WithRatchet(rs.value, t, out.value.0))];
      r := Ok(out.value.1);
    }
  }
}
