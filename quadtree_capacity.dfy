/**
 * How many leaves addToRandomLeaves (include/PseudoQuadTree.hpp:87-175) can still place.
 * Its shuffled list holds every deepest cell once, so the free cells it meets are the
 * free deepest cells of the tree: 4^D of them minus the leaves already linked.
 */
module QuadTreeCapacity {
  import opened Morton
  import opened QuadTreeLayout
  import opened QuadTreePlacement
  import opened QuadTreeTraversal

  /** The deepest node of enumeration cell v, (v % 2^D, v / 2^D). */
  function CellNode(D: nat, v: nat): nat
  {
    var (ux, uz) := GridCell(v, Pow2(D));
    CellIndex(D, ux, uz)
  }

  /** Enumeration cell v has no leaf yet. */
  ghost predicate FreeAt(nodes: seq<Node>, D: nat, v: nat)
    requires |nodes| == LevelStart(D + 1) && v < Pow4(D)
  {
    GridCellBijective(D, v, v);
    IsFree(nodes, D, GridCell(v, Pow2(D)).0, GridCell(v, Pow2(D)).1)
  }

  /** The enumeration numbers listed in `order` whose cells are free. */
  ghost function FreeValues(nodes: seq<Node>, D: nat, order: seq<nat>): set<nat>
    requires |nodes| == LevelStart(D + 1)
  {
    set v | v in order && v < Pow4(D) && FreeAt(nodes, D, v)
  }

  /** The free nodes among lo .. hi-1. */
  ghost function FreeNodes(nodes: seq<Node>, lo: nat, hi: nat): set<nat>
    requires hi <= |nodes|
  {
    set j | lo <= j < hi && nodes[j].next == InvalidNext
  }

  /** Over distinct enumeration numbers, FreeCount counts each free cell once. */
  lemma {:induction false} FreeCountIsCard(nodes: seq<Node>, D: nat, order: seq<nat>)
    requires |nodes| == LevelStart(D + 1) && Distinct(order)
    requires forall k | 0 <= k < |order| :: order[k] < Pow4(D)
    ensures FreeCount(nodes, D, Shuffled(order, D)) == |FreeValues(nodes, D, order)|
    decreases |order|
  {
    if order != [] {
      var n := |order| - 1;
      var init, v := order[..n], order[n];
      assert Distinct(init);
      FreeCountIsCard(nodes, D, init);
      ShuffledLast(order, D);
      FreeValuesLast(nodes, D, order);
    }
  }

  /** Shuffling a list with one more number appends that number's cell. */
  lemma ShuffledLast(order: seq<nat>, D: nat)
    requires order != [] && forall k | 0 <= k < |order| :: order[k] < Pow4(D)
    ensures var n := |order| - 1;
            Shuffled(order, D)[..n] == Shuffled(order[..n], D) && Shuffled(order, D)[n] == GridCell(order[n], Pow2(D))
  {
  }

  /** The free numbers of a list with one more, distinct, number. */
  lemma FreeValuesLast(nodes: seq<Node>, D: nat, order: seq<nat>)
    requires |nodes| == LevelStart(D + 1) && order != [] && Distinct(order)
    requires order[|order| - 1] < Pow4(D)
    ensures var n := |order| - 1;
            var v := order[n];
            |FreeValues(nodes, D, order)| == |FreeValues(nodes, D, order[..n])| + if FreeAt(nodes, D, v) then 1 else 0
  {
    var n := |order| - 1;
    var init, v := order[..n], order[n];
    assert order == init + [v];
    assert v !in init;
    if FreeAt(nodes, D, v) {
      assert FreeValues(nodes, D, order) == FreeValues(nodes, D, init) + {v};
    } else {
      assert FreeValues(nodes, D, order) == FreeValues(nodes, D, init);
    }
  }

  /** A one-to-one image of a finite set is as large as the set. */
  lemma {:induction false} InjectiveImage(A: set<nat>, f: nat -> nat)
    requires forall a, b | a in A && b in A && f(a) == f(b) :: a == b
    ensures |set a | a in A :: f(a)| == |A|
    decreases |A|
  {
    if A != {} {
      var x :| x in A;
      var rest := A - {x};
      InjectiveImage(rest, f);
      assert (set a | a in A :: f(a)) == (set a | a in rest :: f(a)) + {f(x)};
      assert f(x) !in (set a | a in rest :: f(a));
    }
  }

  /** Enumeration cell v sits at deepest node CellNode(D, v), and distinct cells at distinct nodes. */
  lemma CellNodeIsCell(D: nat, v: nat, v': nat)
    requires v < Pow4(D) && v' < Pow4(D)
    ensures var (ux, uz) := GridCell(v, Pow2(D));
            ux < Pow2(D) && uz < Pow2(D) && CellNode(D, v) == CellIndex(D, ux, uz)
    ensures LevelStart(D) <= CellNode(D, v) < LevelStart(D + 1)
    ensures CellNode(D, v) == CellNode(D, v') ==> v == v'
  {
    GridCellBijective(D, v, v');
    GridCellBijective(D, v', v);
    var (ux, uz) := GridCell(v, Pow2(D));
    CellIndexBound(D, ux, uz);
    if CellNode(D, v) == CellNode(D, v') {
      InterleaveInjective(ux, uz, GridCell(v', Pow2(D)).0, GridCell(v', Pow2(D)).1);
    }
  }

  /** Every deepest node is the node of some enumeration cell. */
  lemma NodeHasCell(D: nat, j: nat) returns (v: nat)
    requires LevelStart(D) <= j < LevelStart(D + 1)
    ensures v < Pow4(D) && CellNode(D, v) == j
  {
    LevelStartSeries(D);
    var key := j - LevelStart(D);
    DecodeBound(key, D);
    var x, z := EvenBits(key), OddBits(key);
    GridCellOf(D, x, z);
    v := z * Pow2(D) + x;
    InterleaveOfDecode(key);
  }

  /** The free cells of the enumeration are carried one-to-one onto the free deepest nodes. */
  lemma FreeCellsAreFreeNodes(nodes: seq<Node>, D: nat)
    requires |nodes| == LevelStart(D + 1)
    ensures var cells := set v | 0 <= v < Pow4(D) && FreeAt(nodes, D, v);
            |cells| == |FreeNodes(nodes, LevelStart(D), |nodes|)|
  {
    var cells := set v | 0 <= v < Pow4(D) && FreeAt(nodes, D, v);
    var f := (v: nat) => CellNode(D, v);
    forall a, b | a in cells && b in cells && f(a) == f(b)
      ensures a == b
    {
      CellNodeIsCell(D, a, b);
    }
    InjectiveImage(cells, f);
    var image := set a | a in cells :: f(a);
    forall j | j in image
      ensures j in FreeNodes(nodes, LevelStart(D), |nodes|)
    {
      var v :| v in cells && j == f(v);
      CellNodeIsCell(D, v, v);
    }
    forall j | j in FreeNodes(nodes, LevelStart(D), |nodes|)
      ensures j in image
    {
      var v := NodeHasCell(D, j);
      CellNodeIsCell(D, v, v);
      assert v in cells;
    }
    assert image == FreeNodes(nodes, LevelStart(D), |nodes|);
  }

  /** Every node of a range is either linked or free. */
  lemma {:induction false} LinksAndFree(nodes: seq<Node>, lo: nat, hi: nat)
    requires lo <= hi <= |nodes|
    ensures |Links(nodes, lo, hi)| + |FreeNodes(nodes, lo, hi)| == hi - lo
    decreases hi - lo
  {
    if lo < hi {
      LinksAndFree(nodes, lo, hi - 1);
      if nodes[hi - 1].next == InvalidNext {
        assert FreeNodes(nodes, lo, hi) == FreeNodes(nodes, lo, hi - 1) + {hi - 1};
      } else {
        assert FreeNodes(nodes, lo, hi) == FreeNodes(nodes, lo, hi - 1);
      }
    }
  }

  /**
   * In a well-formed tree the shuffled enumeration meets exactly 4^D - |leaves| free
   * cells: the number of deepest cells not yet holding a leaf.
   */
  lemma FreeCountIsFreeCells<T>(nodes: seq<Node>, leaves: seq<Leaf<T>>, D: nat, order: seq<nat>)
    requires Wf(nodes, leaves, D) && IsPermutation(order, Pow4(D))
    ensures FreeCount(nodes, D, Shuffled(order, D)) == Pow4(D) - |leaves|
  {
    ShapeBounds(D);
    FreeCountIsCard(nodes, D, order);
    assert FreeValues(nodes, D, order) == set v | 0 <= v < Pow4(D) && FreeAt(nodes, D, v);
    FreeCellsAreFreeNodes(nodes, D);
    LevelStartSeries(D);
    LinksAndFree(nodes, LevelStart(D), |nodes|);
    DeepLinksVisitEachLeafOnce(nodes, leaves, D);
  }
}
