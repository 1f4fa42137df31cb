/** Node numbering of the left-balanced binary tree (appendix C of RFC 9420): leaves at even
    numbers, parents between their children. */
module TreeMath {
  import opened Bytes
  import opened Wrappers

  // ------------------------------------------------------------------
  // The bit operations of the source
  // ------------------------------------------------------------------

  function TrailingOnes(x: nat): nat {
    if x % 2 == 0 then 0 else 1 + TrailingOnes(x / 2)
  }

  predicate IsLeaf(x: nat) { x % 2 == 0 }

  /** `x ^ (0x01 << (x.trailing_ones() - 1))`. */
  function Left(x: nat): nat
    requires !IsLeaf(x)
  {
    Xor(x, Pow2(TrailingOnes(x) - 1))
  }

  /** `x ^ (0x03 << (x.trailing_ones() - 1))`. */
  function Right(x: nat): nat
    requires !IsLeaf(x)
  {
    Xor(x, 3 * Pow2(TrailingOnes(x) - 1))
  }

  /** `(x & !(1 << (lvl + 1))) | (1 << lvl)`. */
  function Parent(x: nat): nat {
    Or(AndNot(x, Pow2(TrailingOnes(x) + 1)), Pow2(TrailingOnes(x)))
  }

  function Root(leafCount: nat): nat
    requires leafCount > 0
  {
    leafCount - 1
  }

  datatype ParentSibling = ParentSibling(parent: nat, sibling: nat)

  /** `parent_sibling`. */
  function GetParentSibling(x: nat, leafCount: nat): Option<ParentSibling>
    requires leafCount > 0
  {
    if x == Root(leafCount) then None
    else
      var p := Parent(x);
      ParentIsInner(x);
      Some(ParentSibling(p, if x < p then Right(p) else Left(p)))
  }

  // ------------------------------------------------------------------
  // Nodes by level and position
  // ------------------------------------------------------------------

  /** The number of the node at a level, counted from the leaves, and a position from the left. */
  function Node(level: nat, pos: nat): nat {
    if level == 0 then 2 * pos else 2 * Node(level - 1, pos) + 1
  }

  /** The position of the ancestor of a node, some levels up. */
  function Up(pos: nat, levels: nat): nat {
    if levels == 0 then pos else Up(pos, levels - 1) / 2
  }

  function Flip(pos: nat): nat {
    if pos % 2 == 0 then pos + 1 else pos - 1
  }

  /** What is left of a number without its trailing ones and the zero before them. */
  function Position(x: nat): nat {
    if x % 2 == 0 then x / 2 else Position(x / 2)
  }

  /** Every number is a node, at the level of its trailing ones. */
  lemma {:induction false} EveryNumberIsNode(x: nat)
    ensures x == Node(TrailingOnes(x), Position(x))
  {
    if x % 2 == 1 { EveryNumberIsNode(x / 2); }
  }

  lemma {:induction false} NodeLevel(level: nat, pos: nat)
    ensures TrailingOnes(Node(level, pos)) == level
    ensures IsLeaf(Node(level, pos)) <==> level == 0
  {
    if level > 0 {
      NodeLevel(level - 1, pos);
      var below := Node(level - 1, pos);
      assert (2 * below + 1) / 2 == below && (2 * below + 1) % 2 == 1;
    }
  }

  /** Level and position determine the number, and the other way round. */
  lemma {:induction false} NodeInjective(l: nat, p: nat, m: nat, q: nat)
    requires Node(l, p) == Node(m, q)
    ensures l == m && p == q
  {
    if l > 0 && m > 0 { NodeInjective(l - 1, p, m - 1, q); }
  }

  /** Prepending a one bit to the first operand and a zero bit to the second. */
  lemma XorShift(x: nat, y: nat, r: nat)
    requires Xor(x, y) == r
    ensures Xor(2 * x + 1, 2 * y) == 2 * r + 1
  {
    LowestBit(x, 1, y, 0);
  }

  lemma ShiftRight(x: nat, p: nat, r: nat)
    requires Xor(x, 3 * p) == r
    ensures Xor(2 * x + 1, 3 * (2 * p)) == 2 * r + 1
  {
    XorShift(x, 3 * p, r);
  }

  lemma XorBaseLeft(pos: nat)
    ensures Xor(4 * pos + 1, 1) == 4 * pos
  {
    XorZero(2 * pos);
    LowestBit(2 * pos, 1, 0, 1);
  }

  lemma XorLowest(pos: nat)
    ensures Xor(2 * pos, 1) == 2 * pos + 1
  {
    XorZero(pos);
    LowestBit(pos, 0, 0, 1);
  }

  lemma XorBaseRight(pos: nat)
    ensures Xor(4 * pos + 1, 3) == 4 * pos + 2
  {
    XorLowest(pos);
    LowestBit(2 * pos, 1, 1, 1);
  }

  lemma {:induction false} LeftOfNode(level: nat, pos: nat)
    requires level > 0
    ensures !IsLeaf(Node(level, pos)) && Left(Node(level, pos)) == Node(level - 1, 2 * pos)
  {
    NodeLevel(level, pos);
    if level == 1 {
      XorBaseLeft(pos);
    } else {
      LeftOfNode(level - 1, pos);
      NodeLevel(level - 1, pos);
      XorShift(Node(level - 1, pos), Pow2(level - 2), Node(level - 2, 2 * pos));
    }
  }

  lemma {:induction false} RightOfNode(level: nat, pos: nat)
    requires level > 0
    ensures !IsLeaf(Node(level, pos)) && Right(Node(level, pos)) == Node(level - 1, 2 * pos + 1)
  {
    NodeLevel(level, pos);
    if level == 1 {
      XorBaseRight(pos);
    } else {
      RightOfNode(level - 1, pos);
      NodeLevel(level - 1, pos);
      ShiftRight(Node(level - 1, pos), Pow2(level - 2), Node(level - 2, 2 * pos + 1));
    }
  }

  /** `(x & !c) | b`, with a one bit prepended to `x` and zero bits to the masks. */
  lemma SetClearShift(x: nat, c: nat, b: nat, r: nat)
    requires Or(AndNot(x, c), b) == r
    ensures Or(AndNot(2 * x + 1, 2 * c), 2 * b) == 2 * r + 1
  {
    LowestBit(x, 1, c, 0);
    LowestBit(AndNot(x, c), 1, b, 0);
  }

  lemma ClearBase(half: nat, bit: nat)
    requires bit < 2
    ensures AndNot(2 * (2 * half + bit), 2) == 4 * half
  {
    AndNotZero(half);
    LowestBit(half, bit, 0, 1);
    LowestBit(2 * half + bit, 0, 1, 0);
  }

  lemma SetBase(half: nat)
    ensures Or(4 * half, 1) == 4 * half + 1
  {
    OrZero(2 * half);
    LowestBit(2 * half, 0, 0, 1);
  }

  lemma {:induction false} ParentOfNode(level: nat, pos: nat)
    ensures Parent(Node(level, pos)) == Node(level + 1, pos / 2)
  {
    NodeLevel(level, pos);
    if level == 0 {
      ClearBase(pos / 2, pos % 2);
      SetBase(pos / 2);
    } else {
      ParentOfNode(level - 1, pos);
      NodeLevel(level - 1, pos);
      SetClearShift(Node(level - 1, pos), Pow2(level), Pow2(level - 1), Node(level, pos / 2));
    }
  }

  lemma {:induction false} AndNotZero(a: nat)
    ensures AndNot(a, 0) == a
  {
    if a > 0 { AndNotZero(a / 2); }
  }

  lemma ParentIsInner(x: nat)
    ensures !IsLeaf(Parent(x))
  {
    EveryNumberIsNode(x);
    ParentOfNode(TrailingOnes(x), Position(x));
    NodeLevel(TrailingOnes(x) + 1, Position(x) / 2);
  }

  lemma {:induction false} ParentBetweenChildren(level: nat, pos: nat)
    ensures Node(level, 2 * pos) < Node(level + 1, pos) < Node(level, 2 * pos + 1)
  {
    if level > 0 { ParentBetweenChildren(level - 1, pos); }
  }

  lemma {:induction false} RootIsTop(depth: nat)
    ensures Root(Pow2(depth)) == Node(depth, 0)
  {
    if depth > 0 { RootIsTop(depth - 1); }
  }

  /** The other child of a node's parent, on the side that the comparison selects. */
  lemma OtherChild(level: nat, pos: nat)
    ensures var x, p := Node(level, pos), Node(level + 1, pos / 2);
            !IsLeaf(p) && (if x < p then Right(p) else Left(p)) == Node(level, Flip(pos))
  {
    ParentBetweenChildren(level, pos / 2);
    LeftOfNode(level + 1, pos / 2);
    RightOfNode(level + 1, pos / 2);
  }

  /** The parent and the other child, from the bit patterns; none for the root only. */
  lemma ParentSiblingOfNode(leafCount: nat, level: nat, pos: nat)
    requires leafCount > 0
    ensures GetParentSibling(Node(level, pos), leafCount) ==
            if Node(level, pos) == Root(leafCount) then None
            else Some(ParentSibling(Node(level + 1, pos / 2), Node(level, Flip(pos))))
  {
    ParentOfNode(level, pos);
    OtherChild(level, pos);
  }

  // ------------------------------------------------------------------
  // Paths
  // ------------------------------------------------------------------

  datatype CopathNode = CopathNode(path: nat, copath: nat)

  /** The ancestors of a node up to the root, each with the sibling on the way. */
  function Copath(depth: nat, level: nat, pos: nat): seq<CopathNode>
    decreases depth - level
  {
    if level >= depth then []
    else [CopathNode(Node(level + 1, pos / 2), Node(level, Flip(pos)))] + Copath(depth, level + 1, pos / 2)
  }

  lemma {:induction false} TopPosition(pos: nat, depth: nat)
    requires pos < Pow2(depth)
    ensures Up(pos, depth) == 0
  {
    if depth > 0 {
      UpShift(pos, depth - 1);
      TopPosition(pos / 2, depth - 1);
    }
  }

  lemma {:induction false} UpShift(pos: nat, levels: nat)
    ensures Up(pos, levels) / 2 == Up(pos / 2, levels)
  {
    if levels > 0 { UpShift(pos, levels - 1); }
  }

  /** The nodes of the tree, by level and position, are the numbers up to twice the root's. */
  lemma {:induction false} InTree(depth: nat, level: nat, pos: nat)
    requires Node(level, pos) <= 2 * Root(Pow2(depth))
    ensures level <= depth && pos < Pow2(depth - level)
  {
    if level > 0 { InTree(depth - 1, level - 1, pos); }
  }

  /** The root is the ancestor, at level `depth`, of the node at a level and position. */
  ghost predicate Below(leafCount: nat, depth: nat, level: nat, pos: nat)
    requires leafCount > 0
  {
    level <= depth && Node(depth, Up(pos, depth - level)) == Root(leafCount)
  }

  /** In a tree of a power of two of leaves every node is below the root. */
  lemma AllBelow(depth: nat, level: nat, pos: nat)
    requires Node(level, pos) <= 2 * Root(Pow2(depth))
    ensures Below(Pow2(depth), depth, level, pos)
  {
    InTree(depth, level, pos);
    TopPosition(pos, depth - level);
    RootIsTop(depth);
  }

  lemma BelowParent(leafCount: nat, depth: nat, level: nat, pos: nat)
    requires leafCount > 0 && Below(leafCount, depth, level, pos)
    ensures Node(level, pos) == Root(leafCount) <==> level == depth
    ensures level < depth ==> Below(leafCount, depth, level + 1, pos / 2)
  {
    var top := Up(pos, depth - level);
    if Node(level, pos) == Node(depth, top) { NodeInjective(level, pos, depth, top); }
    if level < depth { UpShift(pos, depth - level - 1); }
  }

  /** One turn of the climb: the next ancestor with the sibling on the way, or the root is reached. */
  method ClimbOnce(node: nat, leafCount: nat, ghost depth: nat, ghost level: nat, ghost pos: nat)
    returns (step: Option<CopathNode>)
    requires leafCount > 0 && Below(leafCount, depth, level, pos) && node == Node(level, pos)
    ensures step == if level == depth then None
                    else Some(CopathNode(Node(level + 1, pos / 2), Node(level, Flip(pos))))
    ensures level < depth ==> Below(leafCount, depth, level + 1, pos / 2)
  {
    BelowParent(leafCount, depth, level, pos);
    ParentSiblingOfNode(leafCount, level, pos);
    var next := GetParentSibling(node, leafCount);
    step := if next.None? then None else Some(CopathNode(next.value.parent, next.value.sibling));
  }

  /** `direct_copath` of any node below the root: the loop climbs by `parent_sibling` until it. */
  method DirectCopath(x: nat, leafCount: nat, ghost depth: nat) returns (path: seq<CopathNode>)
    requires leafCount > 0
    requires x <= 2 * Root(leafCount) ==> Below(leafCount, depth, TrailingOnes(x), Position(x))
    ensures path == if x <= 2 * Root(leafCount) then Copath(depth, TrailingOnes(x), Position(x)) else []
  {
    if x > 2 * Root(leafCount) { return []; }
    path := [];
    ghost var level: nat, pos: nat := TrailingOnes(x), Position(x);
    ghost var all := Copath(depth, level, pos);
    EveryNumberIsNode(x);
    assert [] + all == all;
    var next := ClimbOnce(x, leafCount, depth, level, pos);
    while next.Some?
      invariant Below(leafCount, depth, level, pos)
      invariant next == if level == depth then None
                        else Some(CopathNode(Node(level + 1, pos / 2), Node(level, Flip(pos))))
      invariant level < depth ==> Below(leafCount, depth, level + 1, pos / 2)
      invariant path + Copath(depth, level, pos) == all
      decreases depth - level
    {
      ghost var rest := Copath(depth, level + 1, pos / 2);
      assert path + ([next.value] + rest) == path + [next.value] + rest;
      path := path + [next.value];
      level, pos := level + 1, pos / 2;
      next := ClimbOnce(next.value.path, leafCount, depth, level, pos);
    }
    assert path + [] == path;
  }

  // ------------------------------------------------------------------
  // When the climb ends
  // ------------------------------------------------------------------

  /** The node that the loop stands at after some turns, unless it has ended before. */
  function Climb(x: nat, leafCount: nat, turns: nat): Option<nat>
    requires leafCount > 0
  {
    if turns == 0 then Some(x)
    else
      var node := Climb(x, leafCount, turns - 1);
      if node.None? then None
      else
        var next := GetParentSibling(node.value, leafCount);
        if next.None? then None else Some(next.value.parent)
  }

  ghost predicate ClimbEnds(x: nat, leafCount: nat)
    requires leafCount > 0
  {
    exists turns: nat :: Climb(x, leafCount, turns).None?
  }

  lemma {:induction false} ClimbIsUp(leafCount: nat, level: nat, pos: nat, turns: nat)
    requires leafCount > 0
    ensures var node := Climb(Node(level, pos), leafCount, turns);
            node.Some? ==> node.value == Node(level + turns, Up(pos, turns))
  {
    if turns > 0 {
      ClimbIsUp(leafCount, level, pos, turns - 1);
      ParentSiblingOfNode(leafCount, level + turns - 1, Up(pos, turns - 1));
    }
  }

  lemma {:induction false} EndedAtRoot(leafCount: nat, level: nat, pos: nat, turns: nat) returns (depth: nat)
    requires leafCount > 0 && Climb(Node(level, pos), leafCount, turns).None?
    ensures Below(leafCount, depth, level, pos)
  {
    if Climb(Node(level, pos), leafCount, turns - 1).None? {
      depth := EndedAtRoot(leafCount, level, pos, turns - 1);
    } else {
      depth := level + turns - 1;
      ClimbIsUp(leafCount, level, pos, turns - 1);
      ParentSiblingOfNode(leafCount, depth, Up(pos, turns - 1));
    }
  }

  /** The loop ends exactly for the nodes below the root. */
  lemma ClimbEndsIffBelow(leafCount: nat, level: nat, pos: nat)
    requires leafCount > 0
    ensures ClimbEnds(Node(level, pos), leafCount) <==> exists depth: nat :: Below(leafCount, depth, level, pos)
  {
    if ClimbEnds(Node(level, pos), leafCount) {
      var turns: nat :| Climb(Node(level, pos), leafCount, turns).None?;
      var depth := EndedAtRoot(leafCount, level, pos, turns);
    }
    if depth: nat :| Below(leafCount, depth, level, pos) {
      var turns := depth - level;
      ClimbIsUp(leafCount, level, pos, turns);
      ParentSiblingOfNode(leafCount, depth, Up(pos, turns));
      assert Climb(Node(level, pos), leafCount, turns + 1).None?;
    }
  }

  lemma {:induction false} UpFromZero(levels: nat)
    ensures Up(0, levels) == 0
  {
    if levels > 0 { UpFromZero(levels - 1); }
  }

  ghost predicate EndsFromLeaf(leaf: nat, leafCount: nat)
    requires leafCount > 0
  {
    ClimbEnds(Node(0, leaf), leafCount)
  }

  /** It ends from every leaf if and only if the number of leaves is a power of two. */
  lemma ClimbEndsIff(leafCount: nat)
    requires leafCount > 0
    ensures (forall leaf: nat :: leaf < leafCount ==> EndsFromLeaf(leaf, leafCount))
            <==> exists depth: nat :: leafCount == Pow2(depth)
  {
    if depth: nat :| leafCount == Pow2(depth) {
      forall leaf: nat | leaf < leafCount ensures EndsFromLeaf(leaf, leafCount) {
        AllBelow(depth, 0, leaf);
        ClimbEndsIffBelow(leafCount, 0, leaf);
      }
    }
    if EndsFromLeaf(0, leafCount) {
      ClimbEndsIffBelow(leafCount, 0, 0);
      var depth: nat :| Below(leafCount, depth, 0, 0);
      UpFromZero(depth);
      RootIsTop(depth);
      assert leafCount == Pow2(depth);
    }
  }
}
