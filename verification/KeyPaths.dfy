/** The secret tree as paths of key derivations from the epoch's secret (section 9 of RFC 9420), and
    what follows from the paths being different. */
module KeyPaths {
  import opened Bytes
  import opened Wrappers
  import opened KeyRatchet
  import opened SecretTree
  import opened SecretTreeRuns
  import T = TreeMath

  // ------------------------------------------------------------------
  // Derivation along a path
  // ------------------------------------------------------------------

  /** One `kdf_expand_with_label`: label, context and length. */
  datatype Step = Step(name: bytes, context: bytes, len: Option<nat>)

  function Derived(c: Cipher, secret: bytes, s: Step): Option<bytes> {
    c.expand(secret, s.name, s.context, s.len)
  }

  /** The steps one after the other, each from the secret that the last one made. */
  function Along(c: Cipher, secret: bytes, path: seq<Step>): Option<bytes>
    decreases |path|
  {
    if path == [] then Some(secret)
    else
      var before := Along(c, secret, path[..|path| - 1]);
      if before.None? then None else Derived(c, before.value, path[|path| - 1])
  }

  lemma AlongSnoc(c: Cipher, secret: bytes, path: seq<Step>, s: Step)
    ensures Along(c, secret, path + [s]) ==
            var before := Along(c, secret, path);
            if before.None? then None else Derived(c, before.value, s)
  {
    var all := path + [s];
    assert all[..|all| - 1] == path && all[|all| - 1] == s;
  }

  // ------------------------------------------------------------------
  // The paths of the secret tree
  // ------------------------------------------------------------------

  /** From the root to the ancestor of a leaf at a level: left or right, by the leaf's bits. */
  function TreePath(depth: nat, leaf: nat, level: nat): (path: seq<Step>)
    requires level <= depth
    ensures |path| == depth - level
    decreases depth - level
  {
    if level == depth then []
    else TreePath(depth, leaf, level + 1)
         + [Step(Ascii("tree"), if T.Up(leaf, level) % 2 == 0 then Ascii("left") else Ascii("right"), None)]
  }

  /** From a leaf's secret to the chain's secret of a generation. */
  function ChainPath(extractSize: nat, t: KeyType, g: nat): (path: seq<Step>)
    ensures |path| == g + 1
  {
    if g == 0 then
      [Step(match t case Handshake => Ascii("handshake") case Application => Ascii("application"), [], None)]
    else ChainPath(extractSize, t, g - 1) + [Step(Ascii("secret"), ToBE(g - 1, 4), Some(extractSize))]
  }

  function SecretPath(c: Cipher, depth: nat, leaf: nat, t: KeyType, g: nat): (path: seq<Step>)
    ensures |path| == depth + g + 1
  {
    TreePath(depth, leaf, 0) + ChainPath(c.extractSize, t, g)
  }

  function KeyPath(c: Cipher, depth: nat, leaf: nat, t: KeyType, g: nat): (path: seq<Step>)
    ensures |path| == depth + g + 2
  {
    SecretPath(c, depth, leaf, t, g) + [Step(Ascii("key"), ToBE(g, 4), Some(c.keySize))]
  }

  function NoncePath(c: Cipher, depth: nat, leaf: nat, t: KeyType, g: nat): (path: seq<Step>)
    ensures |path| == depth + g + 2
  {
    SecretPath(c, depth, leaf, t, g) + [Step(Ascii("nonce"), ToBE(g, 4), Some(c.nonceSize))]
  }

  // ------------------------------------------------------------------
  // The tree's secrets and keys are what the paths derive
  // ------------------------------------------------------------------

  /** The labels of the source, as text. */
  lemma LabelTexts()
    ensures HANDSHAKE == Ascii("handshake") && APPLICATION == Ascii("application")
    ensures NONCE == Ascii("nonce") && KEY == Ascii("key") && SECRET == Ascii("secret")
    ensures TREE == Ascii("tree") && LEFT == Ascii("left") && RIGHT == Ascii("right")
  {
  }

  /** A new ratchet's secret is expanded from the leaf's with the name of its type. */
  lemma NewRatchetLabel(c: Cipher, leafSecret: bytes)
    ensures var a := c.expand(leafSecret, Ascii("application"), [], None);
            NewRatchet(c, leafSecret, Application)
            == if a.None? then Err(CryptoProviderError) else Ok(Ratchet(a.value, 0, map[]))
    ensures var h := c.expand(leafSecret, Ascii("handshake"), [], None);
            NewRatchet(c, leafSecret, Handshake)
            == if h.None? then Err(CryptoProviderError) else Ok(Ratchet(h.value, 0, map[]))
  {
    LabelTexts();
  }

  lemma {:induction false} NodeAlong(c: Cipher, root: bytes, depth: nat, leaf: nat, level: nat)
    requires level <= depth
    ensures Along(c, root, TreePath(depth, leaf, level)) == NodeSecret(c, root, depth, level, T.Up(leaf, level))
    decreases depth - level
  {
    if level < depth {
      NodeAlong(c, root, depth, leaf, level + 1);
      LabelTexts();
      var side := if T.Up(leaf, level) % 2 == 0 then Ascii("left") else Ascii("right");
      AlongSnoc(c, root, TreePath(depth, leaf, level + 1), Step(Ascii("tree"), side, None));
    }
  }

  lemma {:induction false} ChainAlong(c: Cipher, root: bytes, path: seq<Step>, leafSecret: bytes, t: KeyType, g: nat)
    requires Along(c, root, path) == Some(leafSecret)
    ensures Along(c, root, path + ChainPath(c.extractSize, t, g)) == ChainSecret(c, leafSecret, t, g)
  {
    LabelTexts();
    if g == 0 {
      AlongSnoc(c, root, path, ChainPath(c.extractSize, t, 0)[0]);
    } else {
      var s := Step(Ascii("secret"), ToBE(g - 1, 4), Some(c.extractSize));
      var before := ChainPath(c.extractSize, t, g - 1);
      ChainAlong(c, root, path, leafSecret, t, g - 1);
      AlongSnoc(c, root, path + before, s);
      assert path + before + [s] == path + (before + [s]);
    }
  }

  lemma {:induction false} AlongFails(c: Cipher, root: bytes, path: seq<Step>, more: seq<Step>)
    requires Along(c, root, path).None?
    ensures Along(c, root, path + more).None?
    decreases |more|
  {
    if more == [] {
      assert path + more == path;
    } else {
      var n := |more| - 1;
      AlongFails(c, root, path, more[..n]);
      AlongSnoc(c, root, path + more[..n], more[n]);
      assert path + more[..n] + [more[n]] == path + more;
    }
  }

  lemma SecretAlong(c: Cipher, root: bytes, depth: nat, leaf: nat, t: KeyType, g: nat)
    ensures var s := NodeSecret(c, root, depth, 0, leaf);
            Along(c, root, SecretPath(c, depth, leaf, t, g))
            == if s.None? then None else ChainSecret(c, s.value, t, g)
  {
    NodeAlong(c, root, depth, leaf, 0);
    var s := NodeSecret(c, root, depth, 0, leaf);
    if s.None? {
      AlongFails(c, root, TreePath(depth, leaf, 0), ChainPath(c.extractSize, t, g));
    } else {
      ChainAlong(c, root, TreePath(depth, leaf, 0), s.value, t, g);
    }
  }

  /** The tree's key for a leaf, type and generation is what its two paths derive from the epoch's
      secret, and exists when both do. */
  lemma IdealKeyIsAlong(c: Cipher, root: bytes, depth: nat, leaf: nat, t: KeyType, g: nat)
    ensures var nonce := Along(c, root, NoncePath(c, depth, leaf, t, g));
            var key := Along(c, root, KeyPath(c, depth, leaf, t, g));
            IdealKey(c, root, depth, leaf, t, g)
            == if nonce.None? || key.None? then None else Some(MessageKey(nonce.value, key.value, g))
  {
    LabelTexts();
    SecretAlong(c, root, depth, leaf, t, g);
    var path := SecretPath(c, depth, leaf, t, g);
    AlongSnoc(c, root, path, Step(Ascii("key"), ToBE(g, 4), Some(c.keySize)));
    AlongSnoc(c, root, path, Step(Ascii("nonce"), ToBE(g, 4), Some(c.nonceSize)));
  }

  // ------------------------------------------------------------------
  // Different keys have different paths
  // ------------------------------------------------------------------

  lemma SplitPaths(a: seq<Step>, x: seq<Step>, b: seq<Step>, y: seq<Step>)
    requires |a| == |b| && a + x == b + y
    ensures a == b && x == y
  {
    assert a == (a + x)[..|a|] && b == (b + y)[..|b|];
    assert x == (a + x)[|a|..] && y == (b + y)[|b|..];
  }

  lemma {:induction false} SamePathSameBits(depth: nat, f: nat, g: nat, level: nat)
    requires level <= depth && TreePath(depth, f, level) == TreePath(depth, g, level)
    requires T.Up(f, depth) == T.Up(g, depth)
    ensures T.Up(f, level) == T.Up(g, level)
    decreases depth - level
  {
    if level < depth {
      var a, b := TreePath(depth, f, level), TreePath(depth, g, level);
      SplitPaths(TreePath(depth, f, level + 1), [a[|a| - 1]], TreePath(depth, g, level + 1), [b[|b| - 1]]);
      SamePathSameBits(depth, f, g, level + 1);
      assert a[|a| - 1].context == b[|b| - 1].context;
      SidesDiffer();
      assert T.Up(f, level) % 2 == T.Up(g, level) % 2;
      assert T.Up(f, level) / 2 == T.Up(g, level) / 2;
    }
  }

  lemma SidesDiffer()
    ensures Ascii("left") != Ascii("right") && Ascii("handshake") != Ascii("application")
    ensures Ascii("key") != Ascii("nonce")
  {
    assert |Ascii("left")| != |Ascii("right")|;
    assert |Ascii("handshake")| != |Ascii("application")|;
    assert |Ascii("key")| != |Ascii("nonce")|;
  }

  lemma {:induction false} ChainPathFirst(extractSize: nat, t: KeyType, g: nat)
    ensures ChainPath(extractSize, t, g)[0] == ChainPath(extractSize, t, 0)[0]
  {
    if g > 0 { ChainPathFirst(extractSize, t, g - 1); }
  }

  /** Two leaves, types and generations of one tree have the same path only if they are the same. */
  lemma SecretPathInjective(c: Cipher, depth: nat, f: nat, t: KeyType, g: nat, f': nat, t': KeyType, g': nat)
    requires f < Pow2(depth) && f' < Pow2(depth)
    requires SecretPath(c, depth, f, t, g) == SecretPath(c, depth, f', t', g')
    ensures f == f' && t == t' && g == g'
  {
    SplitPaths(TreePath(depth, f, 0), ChainPath(c.extractSize, t, g),
               TreePath(depth, f', 0), ChainPath(c.extractSize, t', g'));
    T.TopPosition(f, depth);
    T.TopPosition(f', depth);
    SamePathSameBits(depth, f, f', 0);
    ChainPathFirst(c.extractSize, t, g);
    ChainPathFirst(c.extractSize, t', g');
    SidesDiffer();
  }

  // ------------------------------------------------------------------
  // Equal keys are collisions
  // ------------------------------------------------------------------

  /** Step `i` of one path and step `j` of another take different inputs to the same output. */
  ghost predicate Collides(c: Cipher, root: bytes, p: seq<Step>, i: nat, q: seq<Step>, j: nat) {
    && i < |p| && j < |q|
    && var a, b := Along(c, root, p[..i]), Along(c, root, q[..j]);
       && a.Some? && b.Some? && (a.value, p[i]) != (b.value, q[j])
       && Derived(c, a.value, p[i]).Some? && Derived(c, a.value, p[i]) == Derived(c, b.value, q[j])
  }

  ghost predicate Collision(c: Cipher, root: bytes, p: seq<Step>, q: seq<Step>) {
    exists i: nat, j: nat :: Collides(c, root, p, i, q, j)
  }

  /** Different paths of equal length that derive the same have a collision. */
  lemma {:induction false} SameLengthCollides(c: Cipher, root: bytes, p: seq<Step>, q: seq<Step>)
    requires |p| == |q| && p != q
    requires Along(c, root, p).Some? && Along(c, root, p) == Along(c, root, q)
    ensures Collision(c, root, p, q)
    decreases |p|
  {
    var n := |p| - 1;
    var a, b := Along(c, root, p[..n]), Along(c, root, q[..n]);
    if (a.value, p[n]) != (b.value, q[n]) {
      assert Collides(c, root, p, n, q, n);
    } else {
      assert p == p[..n] + [p[n]] && q == q[..n] + [q[n]];
      SameLengthCollides(c, root, p[..n], q[..n]);
      var i: nat, j: nat :| Collides(c, root, p[..n], i, q[..n], j);
      assert p[..n][..i] == p[..i] && q[..n][..j] == q[..j];
      assert Collides(c, root, p, i, q, j);
    }
  }

  /** So have paths whose last steps differ. */
  lemma LastStepCollides(c: Cipher, root: bytes, p: seq<Step>, q: seq<Step>)
    requires p != [] && q != [] && p[|p| - 1] != q[|q| - 1]
    requires Along(c, root, p).Some? && Along(c, root, p) == Along(c, root, q)
    ensures Collision(c, root, p, q)
  {
    assert Collides(c, root, p, |p| - 1, q, |q| - 1);
  }

  lemma GenerationBytes(g: nat, g': nat)
    requires g <= U32_MAX && g' <= U32_MAX && ToBE(g, 4) == ToBE(g', 4)
    ensures g == g'
  {
    assert Pow256(4) == 256 * (256 * (256 * (256 * Pow256(0))));
    ToBEInjective(g, g', 4);
  }

  /** Two keys, or two nonces, of different leaves, types or generations are equal only through a
      collision of the key derivation between steps of their paths. */
  lemma EqualKeysCollide(c: Cipher, root: bytes, depth: nat, f: nat, t: KeyType, x: MessageKey,
                         f': nat, t': KeyType, y: MessageKey)
    requires f < Pow2(depth) && f' < Pow2(depth) && x.generation <= U32_MAX && y.generation <= U32_MAX
    requires IdealKey(c, root, depth, f, t, x.generation) == Some(x)
    requires IdealKey(c, root, depth, f', t', y.generation) == Some(y)
    requires (f, t, x.generation) != (f', t', y.generation)
    ensures x.key == y.key ==>
              Collision(c, root, KeyPath(c, depth, f, t, x.generation), KeyPath(c, depth, f', t', y.generation))
    ensures x.nonce == y.nonce ==>
              Collision(c, root, NoncePath(c, depth, f, t, x.generation), NoncePath(c, depth, f', t', y.generation))
  {
    IdealKeyIsAlong(c, root, depth, f, t, x.generation);
    IdealKeyIsAlong(c, root, depth, f', t', y.generation);
    if x.key == y.key {
      EqualAlongCollides(c, root, depth, f, t, x.generation, f', t', y.generation, Ascii("key"), Some(c.keySize));
    }
    if x.nonce == y.nonce {
      EqualAlongCollides(c, root, depth, f, t, x.generation, f', t', y.generation, Ascii("nonce"), Some(c.nonceSize));
    }
  }

  lemma EqualAlongCollides(c: Cipher, root: bytes, depth: nat, f: nat, t: KeyType, g: nat,
                           f': nat, t': KeyType, g': nat, name: bytes, len: Option<nat>)
    requires f < Pow2(depth) && f' < Pow2(depth) && g <= U32_MAX && g' <= U32_MAX
    requires (f, t, g) != (f', t', g')
    requires var p := SecretPath(c, depth, f, t, g) + [Step(name, ToBE(g, 4), len)];
             var q := SecretPath(c, depth, f', t', g') + [Step(name, ToBE(g', 4), len)];
             Along(c, root, p).Some? && Along(c, root, p) == Along(c, root, q)
    ensures Collision(c, root, SecretPath(c, depth, f, t, g) + [Step(name, ToBE(g, 4), len)],
                      SecretPath(c, depth, f', t', g') + [Step(name, ToBE(g', 4), len)])
  {
    var a, b := SecretPath(c, depth, f, t, g), SecretPath(c, depth, f', t', g');
    var x, y := Step(name, ToBE(g, 4), len), Step(name, ToBE(g', 4), len);
    if g != g' {
      if ToBE(g, 4) == ToBE(g', 4) { GenerationBytes(g, g'); }
      LastStepCollides(c, root, a + [x], b + [y]);
    } else {
      if a + [x] == b + [y] {
        SplitPaths(a, [x], b, [y]);
        SecretPathInjective(c, depth, f, t, g, f', t', g');
      }
      SameLengthCollides(c, root, a + [x], b + [y]);
    }
  }

  // ------------------------------------------------------------------
  // Runs
  // ------------------------------------------------------------------

  /** Over every sequence of requests from a new tree, two of the keys that were given out are equal,
      or have equal nonces, only through a collision of the key derivation. */
  lemma RunKeysDiffer(c: Cipher, root: bytes, depth: nat, calls: seq<Call>, i: nat, j: nat)
    requires i < j < |Run(c, depth, map[T.Node(depth, 0) := Secret(root)], calls).1|
    ensures var given := Run(c, depth, map[T.Node(depth, 0) := Secret(root)], calls).1;
            var a, b := given[i], given[j];
            && (a.key.key == b.key.key ==>
                  Collision(c, root, KeyPath(c, depth, a.leaf, a.t, a.key.generation),
                            KeyPath(c, depth, b.leaf, b.t, b.key.generation)))
            && (a.key.nonce == b.key.nonce ==>
                  Collision(c, root, NoncePath(c, depth, a.leaf, a.t, a.key.generation),
                            NoncePath(c, depth, b.leaf, b.t, b.key.generation)))
  {
    KeysAreRightAndUsedOnce(c, root, depth, calls);
    var given := Run(c, depth, map[T.Node(depth, 0) := Secret(root)], calls).1;
    assert IsIdeal(c, root, depth, given[i]) && IsIdeal(c, root, depth, given[j]);
    EqualKeysCollide(c, root, depth, given[i].leaf, given[i].t, given[i].key, given[j].leaf, given[j].t, given[j].key);
  }
}
