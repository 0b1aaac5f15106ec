/**
 The Merkle fold that the controller and the CLI both use: pair neighbours, let an odd last hash
 pair with itself, hash each pair, repeat until one hash is left.  The fold is stated for any way
 of joining two things, so that the same fold also yields the tree whose hash the root is.

 `H` is the hex SHA-256 of a byte string.  All that is asked of it is the fixed width of its
 output and, where two trees are compared, that it does not collide on the strings hashed there.
 */
module Merkle {

  const WIDTH: nat := 64

  function Pow2(k: nat): (r: nat)
    ensures r >= 1
  {
    if k == 0 then 1 else 2 * Pow2(k - 1)
  }

  function NextLevel<T>(join: (T, T) -> T, xs: seq<T>): (r: seq<T>)
    ensures |r| == (|xs| + 1) / 2
  {
    if |xs| == 0 then []
    else if |xs| == 1 then [join(xs[0], xs[0])]
    else [join(xs[0], xs[1])] + NextLevel(join, xs[2..])
  }

  function Fold<T>(join: (T, T) -> T, xs: seq<T>): T
    requires |xs| >= 1
    decreases |xs|
  {
    if |xs| == 1 then xs[0] else Fold(join, NextLevel(join, xs))
  }

  function HashPair(H: string -> string): (string, string) -> string {
    (a, b) => H(a + b)
  }

  function Root(H: string -> string, hashes: seq<string>): string {
    if |hashes| == 0 then "" else Fold(HashPair(H), hashes)
  }

  function From<T>(xs: seq<T>, i: nat): seq<T> {
    if i < |xs| then xs[i..] else []
  }

  /** One round of the pairing loop: what is built and what is still to come make up the level. */
  lemma LevelRound<T>(join: (T, T) -> T, xs: seq<T>, i: nat, built: seq<T>)
    requires i < |xs|
    ensures built + [join(xs[i], if i + 1 < |xs| then xs[i + 1] else xs[i])] + NextLevel(join, From(xs, i + 2))
         == built + NextLevel(join, From(xs, i))
  {
    if i + 1 < |xs| {
      assert xs[i..][2..] == From(xs, i + 2);
    }
  }

  /** The loop of `buildMerkleTree`. */
  method BuildLevel(H: string -> string, hashes: seq<string>) returns (nextLevel: seq<string>)
    ensures nextLevel == NextLevel(HashPair(H), hashes)
  {
    nextLevel := [];
    var i := 0;
    while i < |hashes|
      invariant nextLevel + NextLevel(HashPair(H), From(hashes, i)) == NextLevel(HashPair(H), hashes)
    {
      LevelRound(HashPair(H), hashes, i, nextLevel);
      var combined;
      if i + 1 < |hashes| {
        combined := hashes[i] + hashes[i + 1];
      } else {
        combined := hashes[i] + hashes[i];
      }
      nextLevel := nextLevel + [H(combined)];
      i := i + 2;
    }
    assert nextLevel + [] == nextLevel;
  }

  /** `buildMerkleTree`. */
  method BuildMerkleTree(H: string -> string, hashes: seq<string>) returns (root: string)
    ensures root == Root(H, hashes)
    decreases |hashes|
  {
    if |hashes| == 0 {
      return "";
    }
    if |hashes| == 1 {
      return hashes[0];
    }
    var nextLevel := BuildLevel(H, hashes);
    root := BuildMerkleTree(H, nextLevel);
  }

  // ---------------------------------------------------------------- the fold from the top down

  /** Number of levels the fold runs through before one element is left. */
  function Depth(n: nat): nat {
    if n <= 1 then 0 else 1 + Depth((n + 1) / 2)
  }

  /** The depth is the ceiling of the base-two logarithm. */
  lemma {:induction false} DepthIsCeilLog2(n: nat)
    requires n >= 1
    ensures n <= Pow2(Depth(n))
    ensures Depth(n) > 0 ==> Pow2(Depth(n) - 1) < n
  {
    if n <= 1 {
    } else {
      DepthIsCeilLog2((n + 1) / 2);
    }
  }

  /** `k` levels of pairing, whether or not one element is left before. */
  function Lift<T>(join: (T, T) -> T, k: nat, xs: seq<T>): seq<T>
    decreases k
  {
    if k == 0 then xs else Lift(join, k - 1, NextLevel(join, xs))
  }

  lemma {:induction false} FoldIsLift<T>(join: (T, T) -> T, xs: seq<T>)
    requires |xs| >= 1
    ensures Lift(join, Depth(|xs|), xs) == [Fold(join, xs)]
    decreases |xs|
  {
    if |xs| <= 1 {
    } else {
      FoldIsLift(join, NextLevel(join, xs));
    }
  }

  lemma {:induction false} LiftToOne<T>(join: (T, T) -> T, k: nat, xs: seq<T>)
    requires 1 <= |xs| <= Pow2(k)
    ensures |Lift(join, k, xs)| == 1
    decreases k
  {
    if k == 0 {
    } else {
      LiftToOne(join, k - 1, NextLevel(join, xs));
    }
  }

  /** Cutting at an even position commutes with pairing. */
  lemma {:induction false} NextLevelSplit<T>(join: (T, T) -> T, xs: seq<T>, ys: seq<T>)
    requires |xs| % 2 == 0
    ensures NextLevel(join, xs + ys) == NextLevel(join, xs) + NextLevel(join, ys)
    decreases |xs|
  {
    if xs == [] {
      assert xs + ys == ys;
    } else {
      NextLevelSplit(join, xs[2..], ys);
      assert (xs + ys)[2..] == xs[2..] + ys;
    }
  }

  lemma {:induction false} LiftSplit<T>(join: (T, T) -> T, k: nat, xs: seq<T>, ys: seq<T>)
    requires |xs| == Pow2(k)
    ensures Lift(join, k, xs + ys) == Lift(join, k, xs) + Lift(join, k, ys)
    decreases k
  {
    if k == 0 {
    } else {
      NextLevelSplit(join, xs, ys);
      LiftSplit(join, k - 1, NextLevel(join, xs), NextLevel(join, ys));
    }
  }

  lemma {:induction false} LiftLast<T>(join: (T, T) -> T, k: nat, xs: seq<T>)
    ensures Lift(join, k + 1, xs) == NextLevel(join, Lift(join, k, xs))
    decreases k
  {
    if k == 0 {
    } else {
      LiftLast(join, k - 1, NextLevel(join, xs));
    }
  }

  /**
   For 2^k < n <= 2^(k+1) the level-by-level fold joins the k-level lift of the first 2^k elements
   with the k-level lift of the rest, each of which is a single element.
   */
  lemma FoldFromTop<T>(join: (T, T) -> T, k: nat, xs: seq<T>)
    requires Pow2(k) < |xs| <= 2 * Pow2(k)
    ensures var l, r := Lift(join, k, xs[..Pow2(k)]), Lift(join, k, xs[Pow2(k)..]);
            |l| == 1 && |r| == 1 && Fold(join, xs) == join(l[0], r[0])
    ensures Depth(|xs|) == k + 1
  {
    var l, r := xs[..Pow2(k)], xs[Pow2(k)..];
    DepthUnique(k, |xs|);
    FoldIsLift(join, xs);
    assert xs == l + r;
    LiftLast(join, k, xs);
    LiftSplit(join, k, l, r);
    LiftToOne(join, k, l);
    LiftToOne(join, k, r);
    var pair := Lift(join, k, xs);
    assert pair[0] == Lift(join, k, l)[0] && pair[1] == Lift(join, k, r)[0];
    assert NextLevel(join, pair)[0] == join(pair[0], pair[1]);
  }

  lemma {:induction false} DepthUnique(k: nat, n: nat)
    requires Pow2(k) < n <= 2 * Pow2(k)
    ensures Depth(n) == k + 1
    decreases k
  {
    if k == 0 {
    } else {
      DepthUnique(k - 1, (n + 1) / 2);
    }
  }

  // ---------------------------------------------------------------- the tree behind a root

  datatype Tree = Leaf(hash: string) | Node(left: Tree, right: Tree)

  function Leaves(hashes: seq<string>): seq<Tree> {
    seq(|hashes|, i requires 0 <= i < |hashes| => Leaf(hashes[i]))
  }

  function JoinTrees(): (Tree, Tree) -> Tree {
    (l, r) => Node(l, r)
  }

  function Value(H: string -> string, t: Tree): string {
    match t
    case Leaf(h) => h
    case Node(l, r) => H(Value(H, l) + Value(H, r))
  }

  function Values(H: string -> string, ts: seq<Tree>): seq<string> {
    seq(|ts|, i requires 0 <= i < |ts| => Value(H, ts[i]))
  }

  lemma {:induction false} LevelOfTrees(H: string -> string, ts: seq<Tree>)
    ensures Values(H, NextLevel(JoinTrees(), ts)) == NextLevel(HashPair(H), Values(H, ts))
  {
    if |ts| < 2 {
    } else {
      LevelOfTrees(H, ts[2..]);
      assert Values(H, ts[2..]) == Values(H, ts)[2..];
    }
  }

  /** Hashing the folded tree is folding the hashes. */
  lemma {:induction false} FoldOfTrees(H: string -> string, ts: seq<Tree>)
    requires |ts| >= 1
    ensures Value(H, Fold(JoinTrees(), ts)) == Fold(HashPair(H), Values(H, ts))
    decreases |ts|
  {
    if |ts| <= 1 {
    } else {
      LevelOfTrees(H, ts);
      FoldOfTrees(H, NextLevel(JoinTrees(), ts));
    }
  }

  /** The leaves a tree commits to, from left to right. */
  function Frontier(t: Tree): seq<string> {
    match t
    case Leaf(h) => [h]
    case Node(l, r) => Frontier(l) + Frontier(r)
  }

  function Frontiers(ts: seq<Tree>): seq<string> {
    if ts == [] then [] else Frontier(ts[0]) + Frontiers(ts[1..])
  }

  ghost predicate Perfect(k: nat, t: Tree) {
    match t
    case Leaf(_) => k == 0
    case Node(l, r) => k > 0 && Perfect(k - 1, l) && Perfect(k - 1, r)
  }

  ghost predicate AllPerfect(k: nat, ts: seq<Tree>) {
    forall i :: 0 <= i < |ts| ==> Perfect(k, ts[i])
  }

  /** A level keeps every leaf in place; only a repeated last tree adds leaves at the end. */
  lemma {:induction false} LevelKeepsLeaves(k: nat, ts: seq<Tree>)
    requires AllPerfect(k, ts)
    ensures AllPerfect(k + 1, NextLevel(JoinTrees(), ts))
    ensures Frontiers(ts) <= Frontiers(NextLevel(JoinTrees(), ts))
  {
    if |ts| == 0 {
    } else if |ts| == 1 {
      assert Frontiers(ts) == Frontier(ts[0]) + Frontiers([]);
    } else {
      var next := NextLevel(JoinTrees(), ts);
      LevelKeepsLeaves(k, ts[2..]);
      assert next[1..] == NextLevel(JoinTrees(), ts[2..]);
      assert ts[1..][1..] == ts[2..];
      assert Frontiers(ts) == Frontier(ts[0]) + Frontier(ts[1]) + Frontiers(ts[2..]);
    }
  }

  lemma {:induction false} FoldKeepsLeaves(k: nat, ts: seq<Tree>)
    requires |ts| >= 1 && AllPerfect(k, ts)
    ensures Perfect(k + Depth(|ts|), Fold(JoinTrees(), ts))
    ensures Frontiers(ts) <= Frontier(Fold(JoinTrees(), ts))
    decreases |ts|
  {
    if |ts| <= 1 {
    } else {
      LevelKeepsLeaves(k, ts);
      FoldKeepsLeaves(k + 1, NextLevel(JoinTrees(), ts));
    }
  }

  lemma {:induction false} FrontiersOfLeaves(hashes: seq<string>)
    ensures Frontiers(Leaves(hashes)) == hashes
  {
    if hashes == [] {
    } else {
      FrontiersOfLeaves(hashes[1..]);
      assert Leaves(hashes)[1..] == Leaves(hashes[1..]);
    }
  }

  /** The tree whose hash is the root of a nonempty list. */
  function TreeOf(hashes: seq<string>): Tree
    requires |hashes| >= 1
  {
    Fold(JoinTrees(), Leaves(hashes))
  }

  lemma TreeOfFacts(H: string -> string, hashes: seq<string>)
    requires |hashes| >= 1
    ensures Root(H, hashes) == Value(H, TreeOf(hashes))
    ensures Perfect(Depth(|hashes|), TreeOf(hashes)) && hashes <= Frontier(TreeOf(hashes))
  {
    FoldOfTrees(H, Leaves(hashes));
    assert Values(H, Leaves(hashes)) == hashes;
    FoldKeepsLeaves(0, Leaves(hashes));
    FrontiersOfLeaves(hashes);
  }

  // ---------------------------------------------------------------- binding

  /** Every string hashed while evaluating a tree. */
  ghost function Inputs(H: string -> string, t: Tree): set<string> {
    match t
    case Leaf(_) => {}
    case Node(l, r) => {Value(H, l) + Value(H, r)} + Inputs(H, l) + Inputs(H, r)
  }

  ghost predicate CollisionFree(H: string -> string, inputs: set<string>) {
    forall x, y :: x in inputs && y in inputs && H(x) == H(y) ==> x == y
  }

  ghost predicate FixedWidth(H: string -> string) {
    forall x :: |H(x)| == WIDTH
  }

  ghost predicate HashWidth(hashes: seq<string>) {
    forall i :: 0 <= i < |hashes| ==> |hashes[i]| == WIDTH
  }

  ghost predicate LeafWidth(t: Tree) {
    match t
    case Leaf(h) => |h| == WIDTH
    case Node(l, r) => LeafWidth(l) && LeafWidth(r)
  }

  lemma {:induction false} LevelLeafWidth(ts: seq<Tree>)
    requires forall i :: 0 <= i < |ts| ==> LeafWidth(ts[i])
    ensures forall i :: 0 <= i < |NextLevel(JoinTrees(), ts)| ==> LeafWidth(NextLevel(JoinTrees(), ts)[i])
  {
    if |ts| < 2 {
    } else {
      LevelLeafWidth(ts[2..]);
    }
  }

  lemma {:induction false} FoldLeafWidth(ts: seq<Tree>)
    requires |ts| >= 1 && forall i :: 0 <= i < |ts| ==> LeafWidth(ts[i])
    ensures LeafWidth(Fold(JoinTrees(), ts))
    decreases |ts|
  {
    if |ts| <= 1 {
    } else {
      LevelLeafWidth(ts);
      FoldLeafWidth(NextLevel(JoinTrees(), ts));
    }
  }

  lemma ValueWidth(H: string -> string, t: Tree)
    requires FixedWidth(H) && LeafWidth(t)
    ensures |Value(H, t)| == WIDTH
  {
  }

  lemma SplitEqual<T>(a: seq<T>, b: seq<T>, c: seq<T>, d: seq<T>)
    requires |a| == |c| && a + b == c + d
    ensures a == c && b == d
  {
    assert (a + b)[..|a|] == a && (c + d)[..|a|] == c;
    assert (a + b)[|a|..] == b && (c + d)[|a|..] == d;
  }

  /** The hash of a perfect tree determines the whole tree. */
  lemma {:induction false} ValueDeterminesTree(H: string -> string, k: nat, t: Tree, u: Tree, inputs: set<string>)
    requires Perfect(k, t) && Perfect(k, u) && FixedWidth(H) && LeafWidth(t) && LeafWidth(u)
    requires Inputs(H, t) <= inputs && Inputs(H, u) <= inputs && CollisionFree(H, inputs)
    requires Value(H, t) == Value(H, u)
    ensures t == u
    decreases k
  {
    if k == 0 {
    } else {
      ValueWidth(H, t.left);
      ValueWidth(H, u.left);
      SplitEqual(Value(H, t.left), Value(H, t.right), Value(H, u.left), Value(H, u.right));
      ValueDeterminesTree(H, k - 1, t.left, u.left, inputs);
      ValueDeterminesTree(H, k - 1, t.right, u.right, inputs);
    }
  }

  /** The strings hashed on the way to the root of a list. */
  ghost function RootInputs(H: string -> string, hashes: seq<string>): set<string> {
    if hashes == [] then {} else Inputs(H, TreeOf(hashes))
  }

  /** Two lists of the same depth have the same root exactly when they fold to the same tree. */
  lemma RootsAgreeExactly(H: string -> string, a: seq<string>, b: seq<string>)
    requires |a| >= 1 && |b| >= 1 && Depth(|a|) == Depth(|b|)
    requires FixedWidth(H) && HashWidth(a) && HashWidth(b)
    requires CollisionFree(H, RootInputs(H, a) + RootInputs(H, b))
    ensures Root(H, a) == Root(H, b) <==> TreeOf(a) == TreeOf(b)
  {
    TreeOfFacts(H, a);
    TreeOfFacts(H, b);
    FoldLeafWidth(Leaves(a));
    FoldLeafWidth(Leaves(b));
    if Root(H, a) == Root(H, b) {
      ValueDeterminesTree(H, Depth(|a|), TreeOf(a), TreeOf(b), RootInputs(H, a) + RootInputs(H, b));
    }
  }

  /** With the number of leaves fixed, the root determines every leaf. */
  lemma RootBindsLeaves(H: string -> string, a: seq<string>, b: seq<string>)
    requires |a| == |b| && FixedWidth(H) && HashWidth(a) && HashWidth(b)
    requires CollisionFree(H, RootInputs(H, a) + RootInputs(H, b))
    requires Root(H, a) == Root(H, b)
    ensures a == b
  {
    if a != [] {
      RootsAgreeExactly(H, a, b);
      TreeOfFacts(H, a);
      TreeOfFacts(H, b);
      assert a == Frontier(TreeOf(a))[..|a|];
    }
  }

  /** Without it, it does not: repeating the last leaf of an odd list keeps the root. */
  lemma RepeatedLastLeafKeepsRoot(H: string -> string, hashes: seq<string>)
    requires |hashes| > 1 && |hashes| % 2 == 1
    ensures Root(H, hashes + [hashes[|hashes| - 1]]) == Root(H, hashes)
  {
    RepeatedLastKeepsLevel(HashPair(H), hashes);
  }

  lemma {:induction false} RepeatedLastKeepsLevel<T>(join: (T, T) -> T, xs: seq<T>)
    requires |xs| % 2 == 1
    ensures NextLevel(join, xs + [xs[|xs| - 1]]) == NextLevel(join, xs)
  {
    var longer := xs + [xs[|xs| - 1]];
    if |xs| == 1 {
      assert longer[2..] == [];
    } else {
      RepeatedLastKeepsLevel(join, xs[2..]);
      assert longer[2..] == xs[2..] + [xs[2..][|xs| - 3]];
    }
  }

  // ---------------------------------------------------------------- lists of different lengths

  ghost predicate DrawnFrom<T>(xs: seq<T>, ys: seq<T>) {
    forall x :: x in xs ==> x in ys
  }

  lemma {:induction false} LevelAddsNoLeaf(ts: seq<Tree>)
    ensures DrawnFrom(Frontiers(NextLevel(JoinTrees(), ts)), Frontiers(ts))
  {
    if |ts| == 0 {
    } else if |ts| == 1 {
      assert ts[1..] == [] && NextLevel(JoinTrees(), ts)[1..] == [];
    } else {
      LevelAddsNoLeaf(ts[2..]);
      assert NextLevel(JoinTrees(), ts)[1..] == NextLevel(JoinTrees(), ts[2..]);
      assert ts[1..][1..] == ts[2..];
      assert Frontiers(ts) == Frontier(ts[0]) + (Frontier(ts[1]) + Frontiers(ts[2..]));
    }
  }

  lemma {:induction false} FoldAddsNoLeaf(ts: seq<Tree>)
    requires |ts| >= 1
    ensures DrawnFrom(Frontier(Fold(JoinTrees(), ts)), Frontiers(ts))
    decreases |ts|
  {
    if |ts| == 1 {
    } else {
      LevelAddsNoLeaf(ts);
      FoldAddsNoLeaf(NextLevel(JoinTrees(), ts));
    }
  }

  /** Every leaf a folded tree commits to is one of the given hashes. */
  lemma TreeAddsNoLeaf(hashes: seq<string>)
    requires |hashes| >= 1
    ensures DrawnFrom(Frontier(TreeOf(hashes)), hashes)
  {
    FoldAddsNoLeaf(Leaves(hashes));
    FrontiersOfLeaves(hashes);
  }

  /** Of two lists with one root and one depth, the shorter begins the longer, which adds no new hash. */
  lemma SharedRootExtends(H: string -> string, a: seq<string>, b: seq<string>)
    requires 1 <= |a| <= |b| && Depth(|a|) == Depth(|b|)
    requires FixedWidth(H) && HashWidth(a) && HashWidth(b)
    requires CollisionFree(H, RootInputs(H, a) + RootInputs(H, b))
    requires Root(H, a) == Root(H, b)
    ensures a == b[..|a|] && DrawnFrom(b, a)
  {
    RootsAgreeExactly(H, a, b);
    TreeOfFacts(H, a);
    TreeOfFacts(H, b);
    TreeAddsNoLeaf(a);
    var f := Frontier(TreeOf(a));
    assert a == f[..|a|] && b == f[..|b|];
    assert f[..|b|][..|a|] == f[..|a|];
  }

  lemma {:induction false} FrontierSize(k: nat, t: Tree)
    requires Perfect(k, t)
    ensures |Frontier(t)| == Pow2(k)
    decreases k
  {
    if k == 0 {
    } else {
      FrontierSize(k - 1, t.left);
      FrontierSize(k - 1, t.right);
    }
  }

  lemma LeavesJoin(a: seq<string>, b: seq<string>)
    ensures Leaves(a + b) == Leaves(a) + Leaves(b)
  {
  }

  lemma {:induction false} LiftOfFrontier(k: nat, t: Tree)
    requires Perfect(k, t)
    ensures Lift(JoinTrees(), k, Leaves(Frontier(t))) == [t]
    decreases k
  {
    if k == 0 {
      assert Leaves([t.hash]) == [t];
    } else {
      var l, r := Frontier(t.left), Frontier(t.right);
      FrontierSize(k - 1, t.left);
      LeavesJoin(l, r);
      LiftLast(JoinTrees(), k - 1, Leaves(l + r));
      LiftSplit(JoinTrees(), k - 1, Leaves(l), Leaves(r));
      LiftOfFrontier(k - 1, t.left);
      LiftOfFrontier(k - 1, t.right);
      assert [t.left] + [t.right] == [t.left, t.right];
      assert NextLevel(JoinTrees(), [t.left, t.right][2..]) == [];
    }
  }

  lemma {:induction false} DepthOfPow2(k: nat)
    ensures Depth(Pow2(k)) == k
  {
    if k == 0 {
    } else {
      DepthOfPow2(k - 1);
      assert (2 * Pow2(k - 1) + 1) / 2 == Pow2(k - 1);
    }
  }

  /** A perfect tree is the fold of its own leaves. */
  lemma RefoldFrontier(k: nat, t: Tree)
    requires Perfect(k, t)
    ensures |Frontier(t)| == Pow2(k) && Depth(Pow2(k)) == k && TreeOf(Frontier(t)) == t
  {
    FrontierSize(k, t);
    DepthOfPow2(k);
    LiftOfFrontier(k, t);
    FoldIsLift(JoinTrees(), Leaves(Frontier(t)));
  }

  /** The leaves of the folded tree are a list of full length with the same depth and root. */
  lemma FullLengthKeepsRoot(H: string -> string, hashes: seq<string>)
    requires |hashes| >= 1
    ensures var full := Frontier(TreeOf(hashes));
            && |full| == Pow2(Depth(|hashes|)) && Depth(|full|) == Depth(|hashes|)
            && Root(H, full) == Root(H, hashes) && DrawnFrom(full, hashes)
  {
    TreeOfFacts(H, hashes);
    RefoldFrontier(Depth(|hashes|), TreeOf(hashes));
    TreeOfFacts(H, Frontier(TreeOf(hashes)));
    TreeAddsNoLeaf(hashes);
  }

  // ---------------------------------------------------------------- lists of different depths

  /** `h` is the hash of two joined hashes. */
  ghost predicate HashesPair(H: string -> string, inputs: set<string>, h: string) {
    exists v :: v in inputs && |v| == 2 * WIDTH && h == H(v)
  }

  lemma PairMore(H: string -> string, fewer: set<string>, more: set<string>, h: string)
    requires HashesPair(H, fewer, h) && fewer <= more
    ensures HashesPair(H, more, h)
  {
  }

  /** Where a shallower tree has a leaf, a deeper one of the same hash has a pair of hashes. */
  lemma {:induction false} LeavesAreNodes(H: string -> string, k: nat, d: nat, t: Tree, u: Tree, inputs: set<string>)
    requires d >= 1 && Perfect(k, t) && Perfect(k + d, u) && FixedWidth(H) && LeafWidth(t) && LeafWidth(u)
    requires Inputs(H, t) <= inputs && Inputs(H, u) <= inputs && CollisionFree(H, inputs)
    requires Value(H, t) == Value(H, u)
    ensures forall h :: h in Frontier(t) ==> HashesPair(H, Inputs(H, u), h)
    decreases k
  {
    ValueWidth(H, u.left);
    ValueWidth(H, u.right);
    if k == 0 {
      var v := Value(H, u.left) + Value(H, u.right);
      assert v in Inputs(H, u) && |v| == 2 * WIDTH && t.hash == H(v);
    } else {
      ValueWidth(H, t.left);
      SplitEqual(Value(H, t.left), Value(H, t.right), Value(H, u.left), Value(H, u.right));
      LeavesAreNodes(H, k - 1, d, t.left, u.left, inputs);
      LeavesAreNodes(H, k - 1, d, t.right, u.right, inputs);
      forall h | h in Frontier(t) ensures HashesPair(H, Inputs(H, u), h) {
        if h in Frontier(t.left) {
          PairMore(H, Inputs(H, u.left), Inputs(H, u), h);
        } else {
          PairMore(H, Inputs(H, u.right), Inputs(H, u), h);
        }
      }
    }
  }

  /** Of two lists with one root, every hash of the shallower is the hash of two joined hashes. */
  lemma ShallowerHashesPairs(H: string -> string, a: seq<string>, b: seq<string>)
    requires |a| >= 1 && |b| >= 1 && Depth(|a|) < Depth(|b|)
    requires FixedWidth(H) && HashWidth(a) && HashWidth(b)
    requires CollisionFree(H, RootInputs(H, a) + RootInputs(H, b))
    requires Root(H, a) == Root(H, b)
    ensures forall h :: h in a ==> HashesPair(H, RootInputs(H, b), h)
  {
    TreeOfFacts(H, a);
    TreeOfFacts(H, b);
    FoldLeafWidth(Leaves(a));
    FoldLeafWidth(Leaves(b));
    LeavesAreNodes(H, Depth(|a|), Depth(|b|) - Depth(|a|), TreeOf(a), TreeOf(b), RootInputs(H, a) + RootInputs(H, b));
    forall h | h in a ensures h in Frontier(TreeOf(a)) {
      var i :| 0 <= i < |a| && a[i] == h;
      assert Frontier(TreeOf(a))[i] == h;
    }
  }
}
