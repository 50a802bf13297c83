/**
 * The read-only depth-first walk of PseudoQuadTree::Iterator
 * (include/PseudoQuadTree.hpp:196-317). The visitor is modelled by the sequence of leaf
 * indices (link - 1) it would be handed, and the caller's predicate by a function on
 * the value the walk passes it.
 */
module QuadTreeTraversal {
  import opened Morton
  import opened QuadTreeLayout

  /**
   * What the walk hands the predicate for a node: a copy of the node, the side of its
   * square (the halved area width and height, in units) and its level.
   */
  datatype Visit = Visit(node: Node, side: nat, level: nat)

  function VisitOf(nodes: seq<Node>, D: nat, i: nat, l: nat): Visit
    requires i < |nodes| && l <= D
  {
    Visit(nodes[i], Pow2(D + 2 - l), l)
  }

  // ---------------------------------------------------------------------------
  // The plain walk

  /**
   * Leaves under node i of level l: a deepest node yields its own leaf if it is linked;
   * an inner node walks its raised children in the order 00, 01, 10, 11.
   */
  function Dfs(nodes: seq<Node>, D: nat, i: nat, l: nat): seq<nat>
    requires Topology(nodes, D) && l <= D && LevelStart(l) <= i < LevelStart(l + 1)
    decreases D - l, 1
  {
    LevelStartMonotone(l + 1, D + 1);
    if l == D then
      (if nodes[i].next != InvalidNext then [nodes[i].next - 1] else [])
    else
      Child(nodes, D, i, l, 0) + Child(nodes, D, i, l, 1) + Child(nodes, D, i, l, 2) + Child(nodes, D, i, l, 3)
  }

  /** The walk below child c of inner node i, if its presence flag is raised. */
  function Child(nodes: seq<Node>, D: nat, i: nat, l: nat, c: nat): seq<nat>
    requires Topology(nodes, D) && l < D && LevelStart(l) <= i < LevelStart(l + 1) && c < 4
    decreases D - l, 0
  {
    LevelStartMonotone(l + 1, D);
    ChildInLevel(i, l, c);
    if HasChild(nodes[i], c) then Dfs(nodes, D, nodes[i].next + c, l + 1) else []
  }

  /** depthFirstTraversal() without a predicate: the walk from the root. */
  function Traverse(nodes: seq<Node>, D: nat): seq<nat>
    requires Topology(nodes, D)
  {
    Dfs(nodes, D, 0, 0)
  }

  // ---------------------------------------------------------------------------
  // The walk with a predicate

  /**
   * Like Dfs, but a child is entered only if the predicate accepts it, and a linked
   * deepest node is reported only if the predicate accepts it once more.
   */
  function DfsWith(nodes: seq<Node>, D: nat, accept: Visit -> bool, i: nat, l: nat): seq<nat>
    requires Topology(nodes, D) && l <= D && LevelStart(l) <= i < LevelStart(l + 1)
    decreases D - l, 1
  {
    LevelStartMonotone(l + 1, D + 1);
    if l == D then
      (if nodes[i].next != InvalidNext && accept(VisitOf(nodes, D, i, l)) then [nodes[i].next - 1] else [])
    else
      ChildWith(nodes, D, accept, i, l, 0) + ChildWith(nodes, D, accept, i, l, 1)
      + ChildWith(nodes, D, accept, i, l, 2) + ChildWith(nodes, D, accept, i, l, 3)
  }

  function ChildWith(nodes: seq<Node>, D: nat, accept: Visit -> bool, i: nat, l: nat, c: nat): seq<nat>
    requires Topology(nodes, D) && l < D && LevelStart(l) <= i < LevelStart(l + 1) && c < 4
    decreases D - l, 0
  {
    LevelStartMonotone(l + 1, D);
    ChildInLevel(i, l, c);
    var j := nodes[i].next + c;
    if HasChild(nodes[i], c) && accept(VisitOf(nodes, D, j, l + 1)) then DfsWith(nodes, D, accept, j, l + 1)
    else []
  }

  /** depthFirstTraversal() with a predicate: nothing at all unless the root is accepted. */
  function TraverseWith(nodes: seq<Node>, D: nat, accept: Visit -> bool): (r: seq<nat>)
    requires Topology(nodes, D)
    ensures !accept(VisitOf(nodes, D, 0, 0)) ==> r == []
  {
    if accept(VisitOf(nodes, D, 0, 0)) then DfsWith(nodes, D, accept, 0, 0) else []
  }

  // ---------------------------------------------------------------------------
  // The deepest cells under a node

  /** First deepest index under node i of level l: follow child 00 down to level D. */
  function SubtreeStart(D: nat, l: nat, i: nat): nat
    decreases D - l
  {
    if l >= D then i else SubtreeStart(D, l + 1, 4 * i + 1)
  }

  /** Moving k nodes right on level l moves the first deepest descendant k * 4^(D-l) cells right. */
  lemma {:induction false} SubtreeShift(D: nat, l: nat, i: nat, k: nat)
    requires l <= D
    ensures SubtreeStart(D, l, i + k) == SubtreeStart(D, l, i) + k * Pow4(D - l)
    decreases D - l
  {
    if l < D {
      var p := Pow4(D - l - 1);
      SubtreeShift(D, l + 1, 4 * i + 1, 4 * k);
      assert 4 * (i + k) + 1 == 4 * i + 1 + 4 * k;
      assert Pow4(D - l) == 4 * p;
      MulAssoc(k, 4, p);
    }
  }

  /** The first deepest descendant of a level-l node sits at its key times 4^(D-l). */
  lemma SubtreeScaled(D: nat, l: nat, i: nat)
    requires l <= D && LevelStart(l) <= i
    ensures SubtreeStart(D, l, i) == SubtreeStart(D, l, LevelStart(l)) + (i - LevelStart(l)) * Pow4(D - l)
    ensures SubtreeStart(D, l, LevelStart(l)) == LevelStart(D)
  {
    SubtreeShift(D, l, LevelStart(l), i - LevelStart(l));
    FirstOfLevel(D, l);
  }

  lemma {:induction false} FirstOfLevel(D: nat, l: nat)
    requires l <= D
    ensures SubtreeStart(D, l, LevelStart(l)) == LevelStart(D)
    decreases D - l
  {
    if l < D {
      FirstOfLevel(D, l + 1);
    }
  }

  lemma SubtreeFits(D: nat, l: nat, i: nat)
    requires l <= D && LevelStart(l) <= i < LevelStart(l + 1)
    ensures LevelStart(D) <= SubtreeStart(D, l, i)
    ensures SubtreeStart(D, l, i) + Pow4(D - l) <= LevelStart(D + 1)
  {
    SubtreeScaled(D, l, i);
    LevelStartSeries(l);
    LevelStartSeries(D);
    Pow4Add(l, D - l);
    ScaledBelow(i - LevelStart(l), Pow4(l), Pow4(D - l));
  }

  lemma ScaledBelow(k: int, n: int, p: int)
    requires 0 <= k < n && p >= 0
    ensures 0 <= k * p && k * p + p <= n * p
  {
    var d := n - k - 1;
    assert d * p >= 0;
    assert n * p == (k + 1 + d) * p == k * p + p + d * p;
  }

  /** The deepest cells under child c are the c-th quarter of the parent's. */
  lemma ChildSubtree(D: nat, l: nat, i: nat, c: nat)
    requires l < D && c < 4
    ensures Pow4(D - l) == 4 * Pow4(D - l - 1)
    ensures SubtreeStart(D, l + 1, 4 * i + 1 + c) == SubtreeStart(D, l, i) + c * Pow4(D - l - 1)
  {
    SubtreeShift(D, l + 1, 4 * i + 1, c);
  }

  /** The leaf links of the deepest cells under node i, in index (Z-)order. */
  ghost function SubtreeLinks(nodes: seq<Node>, D: nat, i: nat, l: nat): seq<nat>
    requires |nodes| == LevelStart(D + 1) && l <= D && LevelStart(l) <= i < LevelStart(l + 1)
  {
    SubtreeFits(D, l, i);
    Links(nodes, SubtreeStart(D, l, i), SubtreeStart(D, l, i) + Pow4(D - l))
  }

  /** Four adjacent ranges link the ranges' links in order. */
  lemma LinksFour(nodes: seq<Node>, b0: nat, b1: nat, b2: nat, b3: nat, b4: nat)
    requires b0 <= b1 <= b2 <= b3 <= b4 <= |nodes|
    ensures Links(nodes, b0, b4)
         == Links(nodes, b0, b1) + Links(nodes, b1, b2) + Links(nodes, b2, b3) + Links(nodes, b3, b4)
  {
    LinksSplit(nodes, b0, b1, b2);
    LinksSplit(nodes, b0, b2, b3);
    LinksSplit(nodes, b0, b3, b4);
  }

  /** The links under node i of level l run from its first deepest descendant for 4^(D-l) cells. */
  lemma SubtreeLinksRange(nodes: seq<Node>, D: nat, i: nat, l: nat) returns (lo: nat, hi: nat)
    requires |nodes| == LevelStart(D + 1) && l <= D && LevelStart(l) <= i < LevelStart(l + 1)
    ensures lo == SubtreeStart(D, l, i) && hi == lo + Pow4(D - l) && lo <= hi <= |nodes|
    ensures SubtreeLinks(nodes, D, i, l) == Links(nodes, lo, hi)
  {
    SubtreeFits(D, l, i);
    lo, hi := SubtreeStart(D, l, i), SubtreeStart(D, l, i) + Pow4(D - l);
  }

  /** The links under child c of inner node i. */
  ghost function ChildLinks(nodes: seq<Node>, D: nat, i: nat, l: nat, c: nat): seq<nat>
    requires |nodes| == LevelStart(D + 1) && l < D && LevelStart(l) <= i < LevelStart(l + 1) && c < 4
  {
    ChildInLevel(i, l, c);
    SubtreeLinks(nodes, D, 4 * i + 1 + c, l + 1)
  }

  /** Child c's deepest range is the c-th quarter of the parent's. */
  lemma ChildRange(nodes: seq<Node>, D: nat, i: nat, l: nat, c: nat, p: nat) returns (b: nat, e: nat)
    requires |nodes| == LevelStart(D + 1) && l < D && LevelStart(l) <= i < LevelStart(l + 1) && c < 4
    requires p == Pow4(D - (l + 1))
    ensures b == SubtreeStart(D, l, i) + c * p && e == b + p && e <= |nodes|
    ensures ChildLinks(nodes, D, i, l, c) == Links(nodes, b, e)
  {
    ChildInLevel(i, l, c);
    ChildSubtree(D, l, i, c);
    assert D - (l + 1) == D - l - 1;
    b, e := SubtreeLinksRange(nodes, D, 4 * i + 1 + c, l + 1);
  }

  /** The boundaries of the four children's ranges inside the parent's. */
  lemma ChildBoundaries(nodes: seq<Node>, D: nat, i: nat, l: nat) returns (b0: nat, b1: nat, b2: nat, b3: nat, b4: nat)
    requires |nodes| == LevelStart(D + 1) && l < D && LevelStart(l) <= i < LevelStart(l + 1)
    ensures b0 <= b1 <= b2 <= b3 <= b4 <= |nodes|
    ensures SubtreeLinks(nodes, D, i, l) == Links(nodes, b0, b4)
    ensures ChildLinks(nodes, D, i, l, 0) == Links(nodes, b0, b1)
    ensures ChildLinks(nodes, D, i, l, 1) == Links(nodes, b1, b2)
    ensures ChildLinks(nodes, D, i, l, 2) == Links(nodes, b2, b3)
    ensures ChildLinks(nodes, D, i, l, 3) == Links(nodes, b3, b4)
  {
    var p := Pow4(D - (l + 1));
    var e0, e1, e2, e3: nat;
    var lo, hi := SubtreeLinksRange(nodes, D, i, l);
    ChildSubtree(D, l, i, 0);
    assert D - (l + 1) == D - l - 1;
    b0, e0 := ChildRange(nodes, D, i, l, 0, p);
    b1, e1 := ChildRange(nodes, D, i, l, 1, p);
    b2, e2 := ChildRange(nodes, D, i, l, 2, p);
    b3, e3 := ChildRange(nodes, D, i, l, 3, p);
    b4 := hi;
    assert b0 == lo && e0 == b1 && e1 == b2 && e2 == b3 && e3 == b4;
  }

  /** An inner node's links are its four children's, in child order. */
  lemma SubtreeSplit(nodes: seq<Node>, D: nat, i: nat, l: nat)
    requires |nodes| == LevelStart(D + 1) && l < D && LevelStart(l) <= i < LevelStart(l + 1)
    ensures SubtreeLinks(nodes, D, i, l)
         == ChildLinks(nodes, D, i, l, 0) + ChildLinks(nodes, D, i, l, 1)
          + ChildLinks(nodes, D, i, l, 2) + ChildLinks(nodes, D, i, l, 3)
  {
    var b0, b1, b2, b3, b4 := ChildBoundaries(nodes, D, i, l);
    LinksFour(nodes, b0, b1, b2, b3, b4);
  }

  /** An unoccupied node has no leaf anywhere below it. */
  lemma {:induction false} EmptySubtree(nodes: seq<Node>, D: nat, i: nat, l: nat)
    requires |nodes| == LevelStart(D + 1) && FlagsExact(nodes, D)
    requires l <= D && LevelStart(l) <= i < LevelStart(l + 1) && i < |nodes|
    requires !Occupied(nodes, D, i)
    ensures SubtreeLinks(nodes, D, i, l) == []
    decreases D - l
  {
    if l == D {
      assert SubtreeStart(D, l, i) == i;
      assert Links(nodes, i, i + 1) == Links(nodes, i, i) + [];
    } else {
      LevelStartMonotone(l + 1, D);
      SubtreeSplit(nodes, D, i, l);
      EmptyChild(nodes, D, i, l, 0);
      EmptyChild(nodes, D, i, l, 1);
      EmptyChild(nodes, D, i, l, 2);
      EmptyChild(nodes, D, i, l, 3);
    }
  }

  lemma {:induction false} EmptyChild(nodes: seq<Node>, D: nat, i: nat, l: nat, c: nat)
    requires |nodes| == LevelStart(D + 1) && FlagsExact(nodes, D)
    requires l < D && LevelStart(l) <= i < LevelStart(l + 1) && i < LevelStart(D) && c < 4
    requires !AnyChild(nodes[i])
    ensures ChildLinks(nodes, D, i, l, c) == []
    decreases D - l, 0
  {
    ChildInLevel(i, l, c);
    FlagAt(nodes, D, i, c);
    EmptySubtree(nodes, D, 4 * i + 1 + c, l + 1);
  }

  // ---------------------------------------------------------------------------
  // The plain walk visits the deepest links in Z-order

  /** With exact flags, the walk below node i reports exactly the links below it, in order. */
  lemma {:induction false} DfsIsLinks(nodes: seq<Node>, D: nat, i: nat, l: nat)
    requires Topology(nodes, D) && FlagsExact(nodes, D)
    requires l <= D && LevelStart(l) <= i < LevelStart(l + 1)
    ensures Dfs(nodes, D, i, l) == SubtreeLinks(nodes, D, i, l)
    decreases D - l, 1
  {
    LevelStartMonotone(l + 1, D + 1);
    if l == D {
      assert SubtreeStart(D, l, i) == i;
      assert Links(nodes, i, i + 1)
          == Links(nodes, i, i) + (if nodes[i].next != InvalidNext then [nodes[i].next - 1] else []);
    } else {
      SubtreeSplit(nodes, D, i, l);
      ChildIsLinks(nodes, D, i, l, 0);
      ChildIsLinks(nodes, D, i, l, 1);
      ChildIsLinks(nodes, D, i, l, 2);
      ChildIsLinks(nodes, D, i, l, 3);
    }
  }

  lemma {:induction false} ChildIsLinks(nodes: seq<Node>, D: nat, i: nat, l: nat, c: nat)
    requires Topology(nodes, D) && FlagsExact(nodes, D)
    requires l < D && LevelStart(l) <= i < LevelStart(l + 1) && c < 4
    ensures Child(nodes, D, i, l, c) == ChildLinks(nodes, D, i, l, c)
    decreases D - l, 0
  {
    var j := ChildAt(nodes, D, i, l, c);
    FlagAt(nodes, D, i, c);
    if HasChild(nodes[i], c) {
      DfsIsLinks(nodes, D, j, l + 1);
    } else {
      EmptySubtree(nodes, D, j, l + 1);
    }
  }

  /** The whole walk reports the deepest level's links in index order: 00, 01, 10, 11 at every level. */
  lemma TraverseIsDeepLinks(nodes: seq<Node>, D: nat)
    requires Topology(nodes, D) && FlagsExact(nodes, D)
    ensures Traverse(nodes, D) == DeepLinks(nodes, D)
  {
    DfsIsLinks(nodes, D, 0, 0);
    LevelStartSeries(D);
    FirstOfLevel(D, 0);
    var lo, hi := SubtreeLinksRange(nodes, D, 0, 0);
    assert lo == LevelStart(D) && hi == |nodes|;
  }

  /** Every link of a range whose links are at most n names a leaf below n. */
  lemma LinksBelow(nodes: seq<Node>, lo: nat, hi: nat, n: nat)
    requires lo <= hi <= |nodes|
    requires forall j | lo <= j < hi :: nodes[j].next <= n
    ensures forall v | v in Links(nodes, lo, hi) :: v < n
  {
    var h := lo;
    while h < hi
      invariant lo <= h <= hi
      invariant forall v | v in Links(nodes, lo, h) :: v < n
    {
      h := h + 1;
      assert Links(nodes, lo, h)
          == Links(nodes, lo, h - 1) + (if nodes[h - 1].next != InvalidNext then [nodes[h - 1].next - 1] else []);
    }
  }

  /** A multiset of values below n holding each at most once has at most n elements. */
  lemma {:induction false} CardAtMost(m: multiset<nat>, n: nat)
    requires forall v | v in m :: v < n
    requires forall k | 0 <= k < n :: m[k] <= 1
    ensures |m| <= n
  {
    if n == 0 {
      assert m == multiset{};
    } else {
      var m' := m[n - 1 := 0];
      assert m == m' + multiset{}[n - 1 := m[n - 1]];
      CardAtMost(m', n - 1);
    }
  }

  /**
   * On a well-formed tree the unconditional walk reports every leaf exactly once and
   * nothing else: it is an ordering of 0 .. |leaves|-1.
   */
  lemma TraverseVisitsEachLeafOnce<T>(nodes: seq<Node>, leaves: seq<Leaf<T>>, D: nat)
    requires Wf(nodes, leaves, D)
    ensures var s := Traverse(nodes, D);
            && (forall v | v in s :: v < |leaves|)
            && (forall k: nat | k < |leaves| :: multiset(s)[k] == 1)
            && |s| == |leaves|
  {
    var s := Traverse(nodes, D);
    DeepLinksVisitEachLeafOnce(nodes, leaves, D);
    TraverseIsDeepLinks(nodes, D);
  }

  /** The deepest level's links name every leaf exactly once and nothing else. */
  lemma DeepLinksVisitEachLeafOnce<T>(nodes: seq<Node>, leaves: seq<Leaf<T>>, D: nat)
    requires Wf(nodes, leaves, D)
    ensures var s := DeepLinks(nodes, D);
            && (forall v | v in s :: v < |leaves|)
            && (forall k: nat | k < |leaves| :: multiset(s)[k] == 1)
            && |s| == |leaves|
  {
    DeepLinksBelow(nodes, leaves, D);
    DeepLinksCount(nodes, leaves, D);
    ExactCounts(DeepLinks(nodes, D), |leaves|);
  }

  lemma DeepLinksBelow<T>(nodes: seq<Node>, leaves: seq<Leaf<T>>, D: nat)
    requires Wf(nodes, leaves, D)
    ensures forall v | v in DeepLinks(nodes, D) :: v < |leaves|
  {
    ShapeBounds(D);
    LinksBelow(nodes, LevelStart(D), |nodes|, |leaves|);
  }

  lemma DeepLinksCount<T>(nodes: seq<Node>, leaves: seq<Leaf<T>>, D: nat)
    requires Wf(nodes, leaves, D)
    ensures forall k: nat | k < |leaves| :: multiset(DeepLinks(nodes, D))[k] == 1
  {
    ShapeBounds(D);
    forall k: nat | k < |leaves|
      ensures multiset(DeepLinks(nodes, D))[k] == 1
    {
      LinkCountIsMultiplicity(nodes, LevelStart(D), |nodes|, k);
      assert DeepCount(nodes, D, k) == 1;
    }
  }

  /** A sequence of values below n that holds each of them exactly once has length n. */
  lemma ExactCounts(s: seq<nat>, n: nat)
    requires forall v | v in s :: v < n
    requires forall k: nat | k < n :: multiset(s)[k] == 1
    ensures |s| == n
  {
    var m: multiset<nat> := multiset(s);
    forall v | v in m
      ensures v < n
    {
      assert v in s;
    }
    CardAtLeast(m, n);
    CardAtMost(m, n);
  }

  // ---------------------------------------------------------------------------
  // The walk with a predicate against the plain walk

  /** With a predicate that accepts everything, the walk is the plain walk. */
  lemma {:induction false} AcceptAllIsDfs(nodes: seq<Node>, D: nat, accept: Visit -> bool, i: nat, l: nat)
    requires Topology(nodes, D) && l <= D && LevelStart(l) <= i < LevelStart(l + 1)
    requires forall v :: accept(v)
    ensures DfsWith(nodes, D, accept, i, l) == Dfs(nodes, D, i, l)
    decreases D - l, 1
  {
    if l < D {
      AcceptAllIsChild(nodes, D, accept, i, l, 0);
      AcceptAllIsChild(nodes, D, accept, i, l, 1);
      AcceptAllIsChild(nodes, D, accept, i, l, 2);
      AcceptAllIsChild(nodes, D, accept, i, l, 3);
    }
  }

  lemma {:induction false} AcceptAllIsChild(nodes: seq<Node>, D: nat, accept: Visit -> bool, i: nat, l: nat, c: nat)
    requires Topology(nodes, D) && l < D && LevelStart(l) <= i < LevelStart(l + 1) && c < 4
    requires forall v :: accept(v)
    ensures ChildWith(nodes, D, accept, i, l, c) == Child(nodes, D, i, l, c)
    decreases D - l, 0
  {
    var j := ChildWalks(nodes, D, accept, i, l, c);
    if HasChild(nodes[i], c) {
      AcceptAllIsDfs(nodes, D, accept, j, l + 1);
    }
  }

  lemma TraverseWithAcceptAll(nodes: seq<Node>, D: nat, accept: Visit -> bool)
    requires Topology(nodes, D) && forall v :: accept(v)
    ensures TraverseWith(nodes, D, accept) == Traverse(nodes, D)
  {
    AcceptAllIsDfs(nodes, D, accept, 0, 0);
  }

  /** f picks, in increasing order, the positions of b that spell out a. */
  ghost predicate Embeds(a: seq<nat>, b: seq<nat>, f: seq<nat>)
  {
    && |f| == |a|
    && (forall k | 0 <= k < |f| :: f[k] < |b| && a[k] == b[f[k]])
    && (forall j, k | 0 <= j < k < |f| :: f[j] < f[k])
  }

  ghost predicate IsSubsequence(a: seq<nat>, b: seq<nat>)
  {
    exists f :: Embeds(a, b, f)
  }

  function Shift(f: seq<nat>, d: nat): (g: seq<nat>)
    ensures |g| == |f| && forall k | 0 <= k < |f| :: g[k] == f[k] + d
  {
    seq(|f|, k requires 0 <= k < |f| => f[k] + d)
  }

  /** Embeddings of two parts combine into an embedding of the concatenations. */
  lemma EmbedConcat(a1: seq<nat>, b1: seq<nat>, f1: seq<nat>, a2: seq<nat>, b2: seq<nat>, f2: seq<nat>)
    returns (f: seq<nat>)
    requires Embeds(a1, b1, f1) && Embeds(a2, b2, f2)
    ensures Embeds(a1 + a2, b1 + b2, f)
  {
    f := f1 + Shift(f2, |b1|);
    forall k | 0 <= k < |f|
      ensures f[k] < |b1 + b2| && (a1 + a2)[k] == (b1 + b2)[f[k]]
    {
      if k >= |f1| {
        assert f[k] == f2[k - |f1|] + |b1|;
      }
    }
  }

  lemma EmbedFour(a: seq<seq<nat>>, b: seq<seq<nat>>, f: seq<seq<nat>>) returns (g: seq<nat>)
    requires |a| == 4 && |b| == 4 && |f| == 4
    requires forall c | 0 <= c < 4 :: Embeds(a[c], b[c], f[c])
    ensures Embeds(a[0] + a[1] + a[2] + a[3], b[0] + b[1] + b[2] + b[3], g)
  {
    var g1 := EmbedConcat(a[0], b[0], f[0], a[1], b[1], f[1]);
    var g2 := EmbedConcat(a[0] + a[1], b[0] + b[1], g1, a[2], b[2], f[2]);
    g := EmbedConcat(a[0] + a[1] + a[2], b[0] + b[1] + b[2], g2, a[3], b[3], f[3]);
  }

  /** Whatever the predicate, the walk below node i reports a subsequence of the plain walk. */
  lemma {:induction false} DfsWithEmbeds(nodes: seq<Node>, D: nat, accept: Visit -> bool, i: nat, l: nat)
    returns (f: seq<nat>)
    requires Topology(nodes, D) && l <= D && LevelStart(l) <= i < LevelStart(l + 1)
    ensures Embeds(DfsWith(nodes, D, accept, i, l), Dfs(nodes, D, i, l), f)
    decreases D - l, 1
  {
    if l == D {
      if |DfsWith(nodes, D, accept, i, l)| == 0 {
        f := [];
      } else {
        f := [0];
      }
    } else {
      var f0 := ChildWithEmbeds(nodes, D, accept, i, l, 0);
      var f1 := ChildWithEmbeds(nodes, D, accept, i, l, 1);
      var f2 := ChildWithEmbeds(nodes, D, accept, i, l, 2);
      var f3 := ChildWithEmbeds(nodes, D, accept, i, l, 3);
      f := EmbedFour([ChildWith(nodes, D, accept, i, l, 0), ChildWith(nodes, D, accept, i, l, 1),
                      ChildWith(nodes, D, accept, i, l, 2), ChildWith(nodes, D, accept, i, l, 3)],
                     [Child(nodes, D, i, l, 0), Child(nodes, D, i, l, 1),
                      Child(nodes, D, i, l, 2), Child(nodes, D, i, l, 3)],
                     [f0, f1, f2, f3]);
    }
  }

  lemma {:induction false} ChildWithEmbeds(nodes: seq<Node>, D: nat, accept: Visit -> bool, i: nat, l: nat, c: nat)
    returns (f: seq<nat>)
    requires Topology(nodes, D) && l < D && LevelStart(l) <= i < LevelStart(l + 1) && c < 4
    ensures Embeds(ChildWith(nodes, D, accept, i, l, c), Child(nodes, D, i, l, c), f)
    decreases D - l, 0
  {
    var j := ChildWalks(nodes, D, accept, i, l, c);
    if HasChild(nodes[i], c) && accept(VisitOf(nodes, D, j, l + 1)) {
      f := DfsWithEmbeds(nodes, D, accept, j, l + 1);
    } else {
      f := [];
    }
  }

  /** Child c of node i is node j = 4i + 1 + c on the next level, and the walk below it starts there. */
  lemma ChildAt(nodes: seq<Node>, D: nat, i: nat, l: nat, c: nat) returns (j: nat)
    requires Topology(nodes, D) && l < D && LevelStart(l) <= i < LevelStart(l + 1) && c < 4
    ensures i < |nodes| && j == nodes[i].next + c == 4 * i + 1 + c
    ensures l + 1 <= D && LevelStart(l + 1) <= j < LevelStart(l + 2) && j < |nodes|
    ensures Child(nodes, D, i, l, c) == if HasChild(nodes[i], c) then Dfs(nodes, D, j, l + 1) else []
  {
    LevelStartMonotone(l + 1, D);
    LevelStartMonotone(l + 2, D + 1);
    ChildInLevel(i, l, c);
    j := nodes[i].next + c;
  }

  /** As ChildAt, for both walks below child c. */
  lemma ChildWalks(nodes: seq<Node>, D: nat, accept: Visit -> bool, i: nat, l: nat, c: nat) returns (j: nat)
    requires Topology(nodes, D) && l < D && LevelStart(l) <= i < LevelStart(l + 1) && c < 4
    ensures i < |nodes| && j == nodes[i].next + c == 4 * i + 1 + c
    ensures l + 1 <= D && LevelStart(l + 1) <= j < LevelStart(l + 2) && j < |nodes|
    ensures Child(nodes, D, i, l, c) == if HasChild(nodes[i], c) then Dfs(nodes, D, j, l + 1) else []
    ensures ChildWith(nodes, D, accept, i, l, c)
            == if HasChild(nodes[i], c) && accept(VisitOf(nodes, D, j, l + 1)) then DfsWith(nodes, D, accept, j, l + 1) else []
  {
    j := ChildAt(nodes, D, i, l, c);
  }

  /** The predicate walk reports a subsequence of the unconditional walk. */
  lemma TraverseWithIsSubsequence(nodes: seq<Node>, D: nat, accept: Visit -> bool)
    requires Topology(nodes, D)
    ensures IsSubsequence(TraverseWith(nodes, D, accept), Traverse(nodes, D))
  {
    if accept(VisitOf(nodes, D, 0, 0)) {
      var f := DfsWithEmbeds(nodes, D, accept, 0, 0);
      assert Embeds(TraverseWith(nodes, D, accept), Traverse(nodes, D), f);
    } else {
      assert Embeds([], Traverse(nodes, D), []);
    }
  }
}
