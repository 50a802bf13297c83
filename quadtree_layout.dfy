/**
 * The node array of the pseudo quad-tree (include/PseudoQuadTree.hpp): a complete
 * 4-ary tree of depth D stored breadth-first, the children of node i at 4i+1 .. 4i+4,
 * and the deepest level D reusing `next` as a link into the leaf array.
 *
 * World coordinates are exact integers in "units" of a quarter of a deepest cell,
 * measured from the corner of the area: the area is 2^(D+2) units on each side, a node
 * of level l spans 2^(D+2-l) units and its centre sits at (2g + 1) * 2^(D+1-l) for grid
 * coordinate g. The source's float coordinates are origin + u * width / 2^(D+2).
 */
module QuadTreeLayout {
  import opened Morton

  /** The sentinel for "no child base" / "no leaf yet" (Node::INVALID_NEXT). */
  const InvalidNext: nat := 0

  /** `next` is a 28-bit bit-field. */
  const NextFieldModulus: nat := 0x1000_0000

  /** MAX_TREE_HEIGHT as declared by the source (never checked there). */
  const DeclaredMaxTreeHeight: nat := 14

  /** The largest constructor height for which every heap index and leaf link fits in `next`. */
  const MaxTreeHeight: nat := 12

  datatype Node = Node(x: int, z: int, next: nat,
                       has00: bool, has01: bool, has10: bool, has11: bool)

  /** Quadrant c: bit 0 is the x half (01), bit 1 the z half (10). */
  function HasChild(n: Node, c: nat): bool
    requires c < 4
  {
    if c == 0 then n.has00 else if c == 1 then n.has01 else if c == 2 then n.has10 else n.has11
  }

  function AnyChild(n: Node): bool
  {
    n.has00 || n.has01 || n.has10 || n.has11
  }

  /** The node with presence flag c raised and everything else as it was. */
  function WithChild(n: Node, c: nat): (r: Node)
    requires c < 4
    ensures HasChild(r, c)
    ensures forall c' | 0 <= c' < 4 && c' != c :: HasChild(r, c') == HasChild(n, c')
    ensures r.x == n.x && r.z == n.z && r.next == n.next
  {
    if c == 0 then n.(has00 := true)
    else if c == 1 then n.(has01 := true)
    else if c == 2 then n.(has10 := true)
    else n.(has11 := true)
  }

  datatype Leaf<T> = Leaf(value: T, x: real, z: real)

  // ---------------------------------------------------------------------------
  // Breadth-first layout

  lemma LevelBelow(i: nat, D: nat)
    requires i < LevelStart(D + 1)
    ensures Level(i) <= D
  {
    LevelRange(i);
    if Level(i) > D {
      LevelStartMonotone(D + 1, Level(i));
    }
  }

  /** Position of node i within its level: its Morton key. */
  function Key(i: nat): nat
  {
    LevelRange(i);
    i - LevelStart(Level(i))
  }

  lemma KeyOnLevel(i: nat, l: nat)
    requires LevelStart(l) <= i < LevelStart(l + 1)
    ensures Level(i) == l && Key(i) == i - LevelStart(l)
    ensures Key(i) < Pow4(l)
  {
    LevelOfRange(i, l);
    LevelStartSeries(l);
  }

  /** Child c of node i has Morton key 4 * Key(i) + c, i.e. grid (2x + c%2, 2z + c/2). */
  lemma ChildKey(i: nat, c: nat)
    requires c < 4
    ensures Level(4 * i + 1 + c) == Level(i) + 1
    ensures Key(4 * i + 1 + c) == 4 * Key(i) + c
    ensures EvenBits(Key(4 * i + 1 + c)) == 2 * EvenBits(Key(i)) + c % 2
    ensures OddBits(Key(4 * i + 1 + c)) == 2 * OddBits(Key(i)) + c / 2
  {
    var l := Level(i);
    LevelRange(i);
    KeyOnLevel(i, l);
    ChildLevel(i, l, c);
    KeyOnLevel(4 * i + 1 + c, l + 1);
    assert Key(4 * i + 1 + c) == 4 * Key(i) + c;
    DeinterleaveStep(Key(i), c);
  }

  /** x centre, in units, of the node at heap index i of a depth-D tree. */
  function CentreX(D: nat, i: nat): int
    requires i < LevelStart(D + 1)
  {
    LevelBelow(i, D);
    (2 * EvenBits(Key(i)) + 1) * Pow2(D + 1 - Level(i))
  }

  /** z centre, in units, of the node at heap index i of a depth-D tree. */
  function CentreZ(D: nat, i: nat): int
    requires i < LevelStart(D + 1)
  {
    LevelBelow(i, D);
    (2 * OddBits(Key(i)) + 1) * Pow2(D + 1 - Level(i))
  }

  /** The centre of node i on level l, from its key on that level. */
  lemma NodeCentre(D: nat, i: nat, l: nat)
    requires l <= D && LevelStart(l) <= i < LevelStart(l + 1)
    ensures i < LevelStart(D + 1)
    ensures CentreX(D, i) == (2 * EvenBits(i - LevelStart(l)) + 1) * Pow2(D + 1 - l)
    ensures CentreZ(D, i) == (2 * OddBits(i - LevelStart(l)) + 1) * Pow2(D + 1 - l)
  {
    LevelStartMonotone(l + 1, D + 1);
    KeyOnLevel(i, l);
  }

  /**
   * The fixed topology laid down by construction: the heap has the size of a complete
   * 4-ary tree of depth D (at most MaxTreeHeight + 1), every node above level D points
   * at its first child, and every `next` fits its bit-field.
   */
  ghost predicate Topology(nodes: seq<Node>, D: nat)
  {
    && |nodes| == LevelStart(D + 1)
    && D <= MaxTreeHeight + 1
    && (forall i | 0 <= i < LevelStart(D) :: nodes[i].next == 4 * i + 1)
    && (forall i | 0 <= i < |nodes| :: nodes[i].next < NextFieldModulus)
  }

  /** Every node sits at the centre its Morton key gives. */
  ghost predicate Centred(nodes: seq<Node>, D: nat)
    requires |nodes| == LevelStart(D + 1)
  {
    forall i | 0 <= i < |nodes| :: nodes[i].x == CentreX(D, i) && nodes[i].z == CentreZ(D, i)
  }

  ghost predicate Shaped(nodes: seq<Node>, D: nat)
  {
    Topology(nodes, D) && Centred(nodes, D)
  }

  /** The deepest level holds LevelStart(D+1) - LevelStart(D) = 4^D cells. */
  lemma ShapeBounds(D: nat)
    ensures LevelStart(D + 1) == 4 * LevelStart(D) + 1
    ensures LevelStart(D + 1) == LevelStart(D) + Pow4(D)
  {
    LevelStartSeries(D);
  }

  // ---------------------------------------------------------------------------
  // Occupancy and leaf links

  /** Node n holds something: a leaf link at level D, a raised flag above it. */
  ghost predicate Occupied(nodes: seq<Node>, D: nat, n: nat)
    requires n < |nodes|
  {
    if n >= LevelStart(D) then nodes[n].next != InvalidNext else AnyChild(nodes[n])
  }

  /** Every presence flag is raised exactly when the child it names is occupied. */
  ghost predicate FlagsExact(nodes: seq<Node>, D: nat)
    requires |nodes| == LevelStart(D + 1)
  {
    ShapeBounds(D);
    forall i, c | 0 <= i < LevelStart(D) && 0 <= c < 4 ::
      HasChild(nodes[i], c) == Occupied(nodes, D, 4 * i + 1 + c)
  }

  /** One instance of FlagsExact: flag c of inner node i is the occupancy of child 4i + 1 + c. */
  lemma FlagAt(nodes: seq<Node>, D: nat, i: nat, c: nat)
    requires |nodes| == LevelStart(D + 1) && FlagsExact(nodes, D) && i < LevelStart(D) && c < 4
    ensures 4 * i + 1 + c < |nodes|
    ensures HasChild(nodes[i], c) == Occupied(nodes, D, 4 * i + 1 + c)
  {
    ShapeBounds(D);
  }

  /** The leaf indices (link - 1) held by nodes lo .. hi-1, in index order. */
  function Links(nodes: seq<Node>, lo: nat, hi: nat): seq<nat>
    requires lo <= hi <= |nodes|
    decreases hi - lo
  {
    if lo == hi then []
    else Links(nodes, lo, hi - 1) + (if nodes[hi - 1].next != InvalidNext then [nodes[hi - 1].next - 1] else [])
  }

  function Range(n: nat): (r: seq<nat>)
    ensures |r| == n && forall k | 0 <= k < n :: r[k] == k
  {
    seq(n, k => k)
  }

  lemma {:induction false} LinksSplit(nodes: seq<Node>, lo: nat, mid: nat, hi: nat)
    requires lo <= mid <= hi <= |nodes|
    ensures Links(nodes, lo, hi) == Links(nodes, lo, mid) + Links(nodes, mid, hi)
    decreases hi - mid
  {
    if mid < hi {
      LinksSplit(nodes, lo, mid, hi - 1);
    }
  }

  /** Links depend only on the `next` fields of the range. */
  lemma {:induction false} LinksFrame(nodes: seq<Node>, nodes': seq<Node>, lo: nat, hi: nat)
    requires lo <= hi <= |nodes| && hi <= |nodes'|
    requires forall j | lo <= j < hi :: nodes[j].next == nodes'[j].next
    ensures Links(nodes, lo, hi) == Links(nodes', lo, hi)
    decreases hi - lo
  {
    if lo < hi {
      LinksFrame(nodes, nodes', lo, hi - 1);
    }
  }

  /** A range none of whose nodes is linked holds no leaf. */
  lemma {:induction false} LinksEmpty(nodes: seq<Node>, lo: nat, hi: nat)
    requires lo <= hi <= |nodes|
    requires forall j | lo <= j < hi :: nodes[j].next == InvalidNext
    ensures Links(nodes, lo, hi) == []
    decreases hi - lo
  {
    if lo < hi {
      LinksEmpty(nodes, lo, hi - 1);
    }
  }

  lemma {:induction false} LinksLength(nodes: seq<Node>, lo: nat, hi: nat)
    requires lo <= hi <= |nodes|
    ensures |Links(nodes, lo, hi)| <= hi - lo
    decreases hi - lo
  {
    if lo < hi {
      LinksLength(nodes, lo, hi - 1);
    }
  }

  /** The leaf links of the deepest level, in Z-order. */
  function DeepLinks(nodes: seq<Node>, D: nat): seq<nat>
    requires |nodes| == LevelStart(D + 1)
  {
    LevelStartMonotone(D, D + 1);
    Links(nodes, LevelStart(D), |nodes|)
  }

  /** How many nodes of lo .. hi-1 link to leaf k. */
  ghost function LinkCount(nodes: seq<Node>, lo: nat, hi: nat, k: nat): nat
    requires lo <= hi <= |nodes|
    decreases hi - lo
  {
    if lo == hi then 0 else LinkCount(nodes, lo, hi - 1, k) + (if nodes[hi - 1].next == k + 1 then 1 else 0)
  }

  /** The number of links to leaf k is its multiplicity among the links. */
  lemma LinkCountIsMultiplicity(nodes: seq<Node>, lo: nat, hi: nat, k: nat)
    requires lo <= hi <= |nodes|
    ensures multiset(Links(nodes, lo, hi))[k] == LinkCount(nodes, lo, hi, k)
  {
    var h := lo;
    assert Links(nodes, lo, lo) == [];
    while h < hi
      invariant lo <= h <= hi
      invariant multiset(Links(nodes, lo, h))[k] == LinkCount(nodes, lo, h, k)
    {
      h := h + 1;
      MultiplicityStep(nodes, lo, h, k);
    }
  }

  lemma MultiplicityStep(nodes: seq<Node>, lo: nat, hi: nat, k: nat)
    requires lo < hi <= |nodes|
    requires multiset(Links(nodes, lo, hi - 1))[k] == LinkCount(nodes, lo, hi - 1, k)
    ensures multiset(Links(nodes, lo, hi))[k] == LinkCount(nodes, lo, hi, k)
  {
    LinksLast(nodes, lo, hi, k);
  }

  lemma LinksLast(nodes: seq<Node>, lo: nat, hi: nat, k: nat)
    requires lo < hi <= |nodes|
    ensures multiset(Links(nodes, lo, hi))[k]
         == multiset(Links(nodes, lo, hi - 1))[k] + (if nodes[hi - 1].next == k + 1 then 1 else 0)
  {
  }

  /** Link counts depend only on the `next` fields of the range. */
  lemma {:induction false} LinkCountFrame(nodes: seq<Node>, nodes': seq<Node>, lo: nat, hi: nat, k: nat)
    requires lo <= hi <= |nodes| && hi <= |nodes'|
    requires forall j | lo <= j < hi :: nodes'[j].next == nodes[j].next
    ensures LinkCount(nodes', lo, hi, k) == LinkCount(nodes, lo, hi, k)
    decreases hi
  {
    if lo < hi {
      LinkCountFrame(nodes, nodes', lo, hi - 1, k);
    }
  }

  /** How many deepest cells link to leaf k. */
  ghost function DeepCount(nodes: seq<Node>, D: nat, k: nat): nat
    requires |nodes| == LevelStart(D + 1)
  {
    LevelStartMonotone(D, D + 1);
    LinkCount(nodes, LevelStart(D), |nodes|, k)
  }

  /** A multiset holding each of 0 .. n-1 at least once has at least n elements. */
  lemma {:induction false} CardAtLeast(m: multiset<nat>, n: nat)
    requires forall k | 0 <= k < n :: m[k] >= 1
    ensures |m| >= n
  {
    if n > 0 {
      var m' := m - multiset{n - 1};
      assert m == m' + multiset{n - 1};
      assert forall k | 0 <= k < n - 1 :: m'[k] >= 1;
      CardAtLeast(m', n - 1);
    }
  }

  /**
   * When every one of n leaves is linked from a deepest cell, there are at most 4^D
   * of them, which keeps n + 1 inside the `next` bit-field for D <= MaxTreeHeight + 1.
   */
  lemma LeafCountBound(nodes: seq<Node>, n: nat, D: nat)
    requires |nodes| == LevelStart(D + 1) && D <= MaxTreeHeight + 1
    requires forall k | 0 <= k < n :: DeepCount(nodes, D, k) == 1
    ensures n <= Pow4(D) && n + 1 < NextFieldModulus
  {
    ShapeBounds(D);
    var links := Links(nodes, LevelStart(D), |nodes|);
    var m := multiset(links);
    forall k | 0 <= k < n
      ensures m[k] >= 1
    {
      LinkCountIsMultiplicity(nodes, LevelStart(D), |nodes|, k);
      assert DeepCount(nodes, D, k) == LinkCount(nodes, LevelStart(D), |nodes|, k);
    }
    CardAtLeast(m, n);
    LinksLength(nodes, LevelStart(D), |nodes|);
    Pow4Monotone(D, MaxTreeHeight + 1);
    DeepestLevelFits();
  }

  /** 4^(MaxTreeHeight + 1) leaf links fit the `next` bit-field. */
  lemma DeepestLevelFits()
    ensures Pow4(MaxTreeHeight + 1) < NextFieldModulus - 1
  {
    assert Pow4(4) == 256;
    assert Pow4(8) == 256 * 256 by {
      Pow4Add(4, 4);
    }
    assert Pow4(12) == 256 * 256 * 256 by {
      Pow4Add(8, 4);
    }
  }

  /**
   * A well-formed populated tree: the shape, exact presence flags, and a bijection
   * between linked deepest cells and the leaf array (every link names a leaf, every
   * leaf is named by exactly one deepest cell), each leaf strictly inside its cell.
   */
  ghost predicate Wf<T>(nodes: seq<Node>, leaves: seq<Leaf<T>>, D: nat)
  {
    && Shaped(nodes, D)
    && FlagsExact(nodes, D)
    && (forall j | LevelStart(D) <= j < |nodes| :: nodes[j].next <= |leaves|)
    && (forall k | 0 <= k < |leaves| :: DeepCount(nodes, D, k) == 1)
    && (forall j | LevelStart(D) <= j < |nodes| && nodes[j].next != InvalidNext ::
          InCell(leaves[nodes[j].next - 1], nodes[j]))
  }

  /** A deepest cell is 4 units wide: the leaf lies strictly within 2 units of its centre. */
  ghost predicate InCell<T>(leaf: Leaf<T>, n: Node)
  {
    && (n.x as real) - 2.0 < leaf.x < (n.x as real) + 2.0
    && (n.z as real) - 2.0 < leaf.z < (n.z as real) + 2.0
  }

  // ---------------------------------------------------------------------------
  // The root-to-cell path of a deepest grid cell (ux, uz)

  /** The grid coordinate, at level l, of the level-l ancestor of deepest coordinate u. */
  function Ancestor(D: nat, u: nat, l: nat): nat
    requires l <= D
  {
    Shr(u, D - l)
  }

  /** Heap index of the level-l node on the path from the root to deepest cell (ux, uz). */
  function PathIndex(D: nat, ux: nat, uz: nat, l: nat): nat
    requires l <= D
  {
    LevelStart(l) + Interleave(Ancestor(D, ux, l), Ancestor(D, uz, l))
  }

  /** Which child the path takes below level l: x bit plus twice the z bit. */
  function PathChild(D: nat, ux: nat, uz: nat, l: nat): (c: nat)
    requires l < D
    ensures c < 4
  {
    Bit(ux, D - l - 1) + 2 * Bit(uz, D - l - 1)
  }

  /** The deepest node of cell (ux, uz). */
  function CellIndex(D: nat, ux: nat, uz: nat): nat
  {
    LevelStart(D) + Interleave(ux, uz)
  }

  lemma AncestorStep(D: nat, u: nat, l: nat)
    requires l < D
    ensures Ancestor(D, u, l + 1) == 2 * Ancestor(D, u, l) + Bit(u, D - l - 1)
  {
  }

  lemma AncestorBound(D: nat, u: nat, l: nat)
    requires l <= D && u < Pow2(D)
    ensures Ancestor(D, u, l) < Pow2(l)
  {
    ShrBound(u, D - l, l);
  }

  /** The level-l path node lies within level l. */
  lemma PathInLevel(D: nat, ux: nat, uz: nat, l: nat)
    requires l <= D && ux < Pow2(D) && uz < Pow2(D)
    ensures LevelStart(l) <= PathIndex(D, ux, uz, l) < LevelStart(l + 1)
  {
    AncestorBound(D, ux, l);
    AncestorBound(D, uz, l);
    InterleaveBound(Ancestor(D, ux, l), Ancestor(D, uz, l), l);
    LevelStartSeries(l);
  }

  /** Each path node lies on its level, the path starts at the root and ends at the cell. */
  lemma PathOnLevel(D: nat, ux: nat, uz: nat, l: nat)
    requires l <= D && ux < Pow2(D) && uz < Pow2(D)
    ensures LevelStart(l) <= PathIndex(D, ux, uz, l) < LevelStart(l + 1)
    ensures Level(PathIndex(D, ux, uz, l)) == l
    ensures Key(PathIndex(D, ux, uz, l)) == Interleave(Ancestor(D, ux, l), Ancestor(D, uz, l))
    ensures l == 0 ==> PathIndex(D, ux, uz, l) == 0
    ensures l == D ==> PathIndex(D, ux, uz, l) == CellIndex(D, ux, uz)
  {
    AncestorBound(D, ux, l);
    AncestorBound(D, uz, l);
    InterleaveBound(Ancestor(D, ux, l), Ancestor(D, uz, l), l);
    LevelStartSeries(l);
    KeyOnLevel(PathIndex(D, ux, uz, l), l);
    if l == 0 {
      assert Ancestor(D, ux, l) == 0 && Ancestor(D, uz, l) == 0 by {
        ShrBound(ux, D, 0);
        ShrBound(uz, D, 0);
      }
    }
  }

  /** The path descends through child PathChild: node 4p + 1 + c of the next level. */
  lemma PathStep(D: nat, ux: nat, uz: nat, l: nat)
    requires l < D
    ensures PathIndex(D, ux, uz, l + 1) == 4 * PathIndex(D, ux, uz, l) + 1 + PathChild(D, ux, uz, l)
  {
    AncestorStep(D, ux, l);
    AncestorStep(D, uz, l);
    InterleaveStep(Ancestor(D, ux, l), Ancestor(D, uz, l), Bit(ux, D - l - 1), Bit(uz, D - l - 1));
  }

  /** A node whose child lies on the path lies on the path itself. */
  lemma PathParent(D: nat, ux: nat, uz: nat, l: nat, i: nat, c: nat)
    requires l < D && c < 4
    requires 4 * i + 1 + c == PathIndex(D, ux, uz, l + 1)
    ensures i == PathIndex(D, ux, uz, l) && c == PathChild(D, ux, uz, l)
  {
    PathStep(D, ux, uz, l);
  }

  /**
   * The source's quadrant test along one axis. At level l the point of deepest cell u sits
   * at 4u + 2; the path node has grid g = Ancestor(D, u, l); its child 00 is centred at
   * (4g + 1) * 2^(D-l) and half of the current extent is 2^(D-l). The point falls inside
   * that child's half-open span exactly when the path turns to the low half.
   */
  lemma QuadrantTest(D: nat, u: nat, l: nat)
    requires l < D
    ensures var s := Pow2(D - l);
            var c00 := (4 * Ancestor(D, u, l) + 1) * s;
            (c00 - s <= 4 * u + 2 < c00 + s) <==> Bit(u, D - l - 1) == 0
  {
    var p := Pow2(D - l - 1);
    var h := Shr(u, D - l - 1);
    assert Pow2(D - l) == 2 * p;
    assert h == 2 * Ancestor(D, u, l) + Bit(u, D - l - 1);
    ShrSplit(u, D - l - 1);
    QuadrantArith(Ancestor(D, u, l), Bit(u, D - l - 1), p, u - h * p, u);
  }

  /** The arithmetic of QuadrantTest: u == (2g + b) * p + r with r < p. */
  lemma QuadrantArith(g: int, b: int, p: int, r: int, u: int)
    requires p >= 1 && (b == 0 || b == 1) && 0 <= r < p && u == (2 * g + b) * p + r
    ensures var c00 := (4 * g + 1) * (2 * p);
            (c00 - 2 * p <= 4 * u + 2 < c00 + 2 * p) <==> b == 0
  {
    var gp := g * p;
    assert (4 * g + 1) * (2 * p) == 8 * gp + 2 * p;
    assert u == 2 * gp + b * p + r;
  }
}
