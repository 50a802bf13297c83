/**
 * What one call of addToRandomLeaves (include/PseudoQuadTree.hpp:87-175) does to the
 * node array and the leaf array, as functions of the previous state, the shuffled cell
 * list and the jitter draws; and the invariants it keeps.
 */
module QuadTreePlacement {
  import opened Morton
  import opened QuadTreeLayout

  /** Half the jitter range in units: leaf_x_offset - leaf_x_offset / 10 with leaf_x_offset = 2. */
  const JitterBound: real := 1.8

  /** Every cell of the list lies on the deepest grid (2^D by 2^D). */
  ghost predicate InGrid(positions: seq<(nat, nat)>, D: nat)
  {
    forall k | 0 <= k < |positions| :: positions[k].0 < Pow2(D) && positions[k].1 < Pow2(D)
  }

  ghost predicate JitterInRange(jitter: seq<(real, real)>)
  {
    forall k | 0 <= k < |jitter| ::
      -JitterBound <= jitter[k].0 <= JitterBound && -JitterBound <= jitter[k].1 <= JitterBound
  }

  ghost predicate Distinct<X>(s: seq<X>)
  {
    forall i, j | 0 <= i < j < |s| :: s[i] != s[j]
  }

  lemma CellIndexBound(D: nat, ux: nat, uz: nat)
    requires ux < Pow2(D) && uz < Pow2(D)
    ensures LevelStart(D) <= CellIndex(D, ux, uz) < LevelStart(D + 1)
  {
    InterleaveBound(ux, uz, D);
    LevelStartSeries(D);
  }

  /** The deepest node of cell (ux, uz) has no leaf yet. */
  predicate IsFree(nodes: seq<Node>, D: nat, ux: nat, uz: nat)
    requires |nodes| == LevelStart(D + 1) && ux < Pow2(D) && uz < Pow2(D)
  {
    CellIndexBound(D, ux, uz);
    nodes[CellIndex(D, ux, uz)].next == InvalidNext
  }

  // ---------------------------------------------------------------------------
  // One placement

  /** Node i lies on the root-to-cell path of (ux, uz). */
  predicate OnPath(D: nat, ux: nat, uz: nat, i: nat)
  {
    Level(i) <= D && i == PathIndex(D, ux, uz, Level(i))
  }

  /** Node i once the descent has raised the path flags of levels 0 .. upTo-1. */
  function Marked(nodes: seq<Node>, D: nat, ux: nat, uz: nat, upTo: nat, i: nat): Node
    requires i < |nodes| && upTo <= D
  {
    if Level(i) < upTo && OnPath(D, ux, uz, i) then WithChild(nodes[i], PathChild(D, ux, uz, Level(i)))
    else nodes[i]
  }

  function MarkPath(nodes: seq<Node>, D: nat, ux: nat, uz: nat, upTo: nat): (r: seq<Node>)
    requires upTo <= D
    ensures |r| == |nodes|
  {
    seq(|nodes|, i requires 0 <= i < |nodes| => Marked(nodes, D, ux, uz, upTo, i))
  }

  /**
   * The node array after one pick of cell (ux, uz): the flag of every path node above
   * level D is raised towards the cell, and the cell's link becomes `link` if it was free.
   */
  function PlaceNodes(nodes: seq<Node>, D: nat, ux: nat, uz: nat, link: nat): (r: seq<Node>)
    requires |nodes| == LevelStart(D + 1) && ux < Pow2(D) && uz < Pow2(D)
    ensures |r| == |nodes|
  {
    var m := MarkPath(nodes, D, ux, uz, D);
    var d := CellIndex(D, ux, uz);
    CellIndexBound(D, ux, uz);
    if m[d].next == InvalidNext then m[d := m[d].(next := link)] else m
  }

  /** The leaf stored for cell (ux, uz): its centre 4u + 2 moved by the jitter draw. */
  function NewLeaf<T>(value: T, ux: nat, uz: nat, jitter: (real, real)): Leaf<T>
  {
    Leaf(value, (4 * ux + 2) as real + jitter.0, (4 * uz + 2) as real + jitter.1)
  }

  /** Outcome of a population call; ok is false when the cell list ran out first. */
  datatype Outcome<T> = Outcome(nodes: seq<Node>, leaves: seq<Leaf<T>>, ok: bool)

  /**
   * The population loop: pop cells from the back of the shuffled list until `count`
   * leaves are placed, skipping cells that are already occupied. The source pops from an
   * empty list when it runs out; here that is reported as ok == false.
   */
  function Populate<T>(nodes: seq<Node>, leaves: seq<Leaf<T>>, D: nat, value: T, count: nat,
                       positions: seq<(nat, nat)>, jitter: seq<(real, real)>): Outcome<T>
    requires |nodes| == LevelStart(D + 1) && InGrid(positions, D) && |jitter| >= count
    decreases |positions|
  {
    if count == 0 then Outcome(nodes, leaves, true)
    else if |positions| == 0 then Outcome(nodes, leaves, false)
    else
      var p := positions[|positions| - 1];
      var nodes' := PlaceNodes(nodes, D, p.0, p.1, |leaves| + 1);
      if IsFree(nodes, D, p.0, p.1) then
        Populate(nodes', leaves + [NewLeaf(value, p.0, p.1, jitter[0])], D, value, count - 1,
                 positions[..|positions| - 1], jitter[1..])
      else
        Populate(nodes', leaves, D, value, count, positions[..|positions| - 1], jitter)
  }

  /** Number of cells of the list whose deepest node is still free. */
  ghost function FreeCount(nodes: seq<Node>, D: nat, positions: seq<(nat, nat)>): nat
    requires |nodes| == LevelStart(D + 1) && InGrid(positions, D)
  {
    if positions == [] then 0
    else
      var p := positions[|positions| - 1];
      FreeCount(nodes, D, positions[..|positions| - 1]) + (if IsFree(nodes, D, p.0, p.1) then 1 else 0)
  }

  // ---------------------------------------------------------------------------
  // What one placement changes

  /** The node array after placing at (ux, uz), index by index. */
  lemma PlacedAt(nodes: seq<Node>, D: nat, ux: nat, uz: nat, link: nat, i: nat)
    requires |nodes| == LevelStart(D + 1) && ux < Pow2(D) && uz < Pow2(D) && i < |nodes|
    ensures var r := PlaceNodes(nodes, D, ux, uz, link);
            && (OnPath(D, ux, uz, i) && Level(i) < D ==> r[i] == WithChild(nodes[i], PathChild(D, ux, uz, Level(i))))
            && (!OnPath(D, ux, uz, i) ==> r[i] == nodes[i])
            && (i == CellIndex(D, ux, uz) ==>
                  r[i] == if nodes[i].next == InvalidNext then nodes[i].(next := link) else nodes[i])
  {
    CellIndexBound(D, ux, uz);
    PathOnLevel(D, ux, uz, D);
    LevelBelow(i, D);
  }

  /**
   * A placement changes nothing off the path, raises exactly the path flag on each path
   * node above the deepest level, and writes the link only into a free cell.
   */
  lemma PlaceFrame(nodes: seq<Node>, D: nat, ux: nat, uz: nat, link: nat)
    requires |nodes| == LevelStart(D + 1) && ux < Pow2(D) && uz < Pow2(D)
    ensures var r := PlaceNodes(nodes, D, ux, uz, link);
            && (forall i | 0 <= i < |nodes| && !OnPath(D, ux, uz, i) :: r[i] == nodes[i])
            && (forall i | 0 <= i < |nodes| && OnPath(D, ux, uz, i) && Level(i) < D ::
                  r[i] == WithChild(nodes[i], PathChild(D, ux, uz, Level(i))))
            && (var d := CellIndex(D, ux, uz);
                && d < |nodes|
                && r[d] == if nodes[d].next == InvalidNext then nodes[d].(next := link) else nodes[d])
  {
    var r := PlaceNodes(nodes, D, ux, uz, link);
    forall i | 0 <= i < |nodes|
      ensures !OnPath(D, ux, uz, i) ==> r[i] == nodes[i]
      ensures OnPath(D, ux, uz, i) && Level(i) < D ==> r[i] == WithChild(nodes[i], PathChild(D, ux, uz, Level(i)))
    {
      PlacedAt(nodes, D, ux, uz, link, i);
    }
    CellIndexBound(D, ux, uz);
    PlacedAt(nodes, D, ux, uz, link, CellIndex(D, ux, uz));
  }

  /** Placing keeps the topology: only a deepest link is written, and it fits the bit-field. */
  lemma PlaceKeepsTopology(nodes: seq<Node>, D: nat, ux: nat, uz: nat, link: nat)
    requires Topology(nodes, D) && ux < Pow2(D) && uz < Pow2(D) && link < NextFieldModulus
    ensures Topology(PlaceNodes(nodes, D, ux, uz, link), D)
  {
    var r := PlaceNodes(nodes, D, ux, uz, link);
    forall i | 0 <= i < |nodes|
      ensures r[i].next < NextFieldModulus
      ensures i < LevelStart(D) ==> r[i].next == nodes[i].next
    {
      PlacedAt(nodes, D, ux, uz, link, i);
      CellIndexBound(D, ux, uz);
    }
  }

  /** Placing moves no node. */
  lemma PlaceKeepsCentred(nodes: seq<Node>, D: nat, ux: nat, uz: nat, link: nat)
    requires |nodes| == LevelStart(D + 1) && Centred(nodes, D) && ux < Pow2(D) && uz < Pow2(D)
    ensures Centred(PlaceNodes(nodes, D, ux, uz, link), D)
  {
    var r := PlaceNodes(nodes, D, ux, uz, link);
    forall i | 0 <= i < |nodes|
      ensures r[i].x == nodes[i].x && r[i].z == nodes[i].z
    {
      PlacedAt(nodes, D, ux, uz, link, i);
    }
  }

  /** The link of every cell other than (ux, uz) is untouched. */
  lemma PlaceKeepsOtherLinks(nodes: seq<Node>, D: nat, ux: nat, uz: nat, link: nat, j: nat)
    requires |nodes| == LevelStart(D + 1) && ux < Pow2(D) && uz < Pow2(D)
    requires j < |nodes| && j != CellIndex(D, ux, uz)
    ensures PlaceNodes(nodes, D, ux, uz, link)[j].next == nodes[j].next
  {
    PlacedAt(nodes, D, ux, uz, link, j);
  }

  /** Picking a cell that already holds a leaf changes nothing at all, when the flags are exact. */
  lemma PlaceOccupiedIsIdentity(nodes: seq<Node>, D: nat, ux: nat, uz: nat, link: nat)
    requires |nodes| == LevelStart(D + 1) && FlagsExact(nodes, D)
    requires ux < Pow2(D) && uz < Pow2(D) && !IsFree(nodes, D, ux, uz)
    ensures PlaceNodes(nodes, D, ux, uz, link) == nodes
  {
    var r := PlaceNodes(nodes, D, ux, uz, link);
    forall i | 0 <= i < |nodes|
      ensures r[i] == nodes[i]
    {
      PlacedAt(nodes, D, ux, uz, link, i);
      if OnPath(D, ux, uz, i) && Level(i) < D {
        var l := Level(i);
        OccupiedPathChild(nodes, D, ux, uz, l);
        WithChildRaised(nodes[i], PathChild(D, ux, uz, l));
      }
    }
  }

  lemma WithChildRaised(n: Node, c: nat)
    requires c < 4 && HasChild(n, c)
    ensures WithChild(n, c) == n
  {
  }

  /** With exact flags, a cell that holds a leaf has its flags raised all along its path. */
  lemma {:induction false} OccupiedPathChild(nodes: seq<Node>, D: nat, ux: nat, uz: nat, l: nat)
    requires |nodes| == LevelStart(D + 1) && FlagsExact(nodes, D)
    requires ux < Pow2(D) && uz < Pow2(D) && !IsFree(nodes, D, ux, uz) && l < D
    ensures PathIndex(D, ux, uz, l) < LevelStart(D)
    ensures HasChild(nodes[PathIndex(D, ux, uz, l)], PathChild(D, ux, uz, l))
    decreases D - l
  {
    PathFlag(nodes, D, ux, uz, l);
    var j := PathIndex(D, ux, uz, l + 1);
    if l + 1 < D {
      OccupiedPathChild(nodes, D, ux, uz, l + 1);
      PathFlag(nodes, D, ux, uz, l + 1);
      assert AnyChild(nodes[j]);
    } else {
      PathOnLevel(D, ux, uz, l + 1);
      CellIndexBound(D, ux, uz);
      assert j == CellIndex(D, ux, uz);
    }
  }

  /** The flag of path node l towards the cell tells whether path node l + 1 is occupied. */
  lemma PathFlag(nodes: seq<Node>, D: nat, ux: nat, uz: nat, l: nat)
    requires |nodes| == LevelStart(D + 1) && FlagsExact(nodes, D)
    requires ux < Pow2(D) && uz < Pow2(D) && l < D
    ensures PathIndex(D, ux, uz, l) < LevelStart(D) && PathIndex(D, ux, uz, l + 1) < |nodes|
    ensures HasChild(nodes[PathIndex(D, ux, uz, l)], PathChild(D, ux, uz, l))
            == Occupied(nodes, D, PathIndex(D, ux, uz, l + 1))
    ensures Occupied(nodes, D, PathIndex(D, ux, uz, l)) == AnyChild(nodes[PathIndex(D, ux, uz, l)])
  {
    var i := PathIndex(D, ux, uz, l);
    var c := PathChild(D, ux, uz, l);
    PathInLevel(D, ux, uz, l);
    LevelStartMonotone(l + 1, D);
    PathStep(D, ux, uz, l);
    FlagAt(nodes, D, i, c);
  }

  /** One placement keeps every invariant of the tree. */
  lemma PlacePreservesWf<T>(nodes: seq<Node>, leaves: seq<Leaf<T>>, D: nat, value: T,
                            ux: nat, uz: nat, jitter: (real, real))
    requires Wf(nodes, leaves, D) && ux < Pow2(D) && uz < Pow2(D)
    requires -JitterBound <= jitter.0 <= JitterBound && -JitterBound <= jitter.1 <= JitterBound
    ensures var r := PlaceNodes(nodes, D, ux, uz, |leaves| + 1);
            Wf(r, if IsFree(nodes, D, ux, uz) then leaves + [NewLeaf(value, ux, uz, jitter)] else leaves, D)
  {
    if !IsFree(nodes, D, ux, uz) {
      PlaceOccupiedIsIdentity(nodes, D, ux, uz, |leaves| + 1);
    } else {
      PlaceFreePreservesWf(nodes, leaves, D, value, ux, uz, jitter);
    }
  }

  lemma PlaceFreePreservesWf<T>(nodes: seq<Node>, leaves: seq<Leaf<T>>, D: nat, value: T,
                                ux: nat, uz: nat, jitter: (real, real))
    requires Wf(nodes, leaves, D) && ux < Pow2(D) && uz < Pow2(D) && IsFree(nodes, D, ux, uz)
    requires -JitterBound <= jitter.0 <= JitterBound && -JitterBound <= jitter.1 <= JitterBound
    ensures Wf(PlaceNodes(nodes, D, ux, uz, |leaves| + 1), leaves + [NewLeaf(value, ux, uz, jitter)], D)
  {
    var link := |leaves| + 1;
    var r := PlaceNodes(nodes, D, ux, uz, link);
    var leaves' := leaves + [NewLeaf(value, ux, uz, jitter)];
    // the link fits the bit-field: there are at most 4^D <= 4^13 leaves
    LeafCountBound(nodes, |leaves|, D);
    PlaceKeepsTopology(nodes, D, ux, uz, link);
    PlaceKeepsCentred(nodes, D, ux, uz, link);
    PlaceKeepsFlagsExact(nodes, D, ux, uz, link);
    PlaceAddsLink(nodes, |leaves|, D, ux, uz);
    PlaceKeepsInCell(nodes, leaves, D, value, ux, uz, jitter);
    assert Wf(r, leaves', D);
  }

  /** The deepest level gains exactly one link, to the new leaf index n. */
  lemma PlaceAddsLink(nodes: seq<Node>, n: nat, D: nat, ux: nat, uz: nat)
    requires |nodes| == LevelStart(D + 1) && ux < Pow2(D) && uz < Pow2(D) && IsFree(nodes, D, ux, uz)
    requires forall k | 0 <= k < n :: DeepCount(nodes, D, k) == 1
    requires forall j | LevelStart(D) <= j < |nodes| :: nodes[j].next <= n
    ensures var r := PlaceNodes(nodes, D, ux, uz, n + 1);
            && (forall k | 0 <= k < n + 1 :: DeepCount(r, D, k) == 1)
            && (forall j | LevelStart(D) <= j < |r| :: r[j].next <= n + 1)
  {
    var r := PlaceNodes(nodes, D, ux, uz, n + 1);
    var d := CellIndex(D, ux, uz);
    CellIndexBound(D, ux, uz);
    ShapeBounds(D);
    var lo, hi := LevelStart(D), |nodes|;
    forall j | lo <= j < hi && j != d
      ensures r[j].next == nodes[j].next
    {
      PlaceKeepsOtherLinks(nodes, D, ux, uz, n + 1, j);
    }
    PlacedAt(nodes, D, ux, uz, n + 1, d);
    assert r[d].next == n + 1;
    forall k | 0 <= k < n + 1
      ensures DeepCount(r, D, k) == 1
    {
      LinkCountAround(nodes, r, lo, d, hi, k);
      assert DeepCount(r, D, k) == LinkCount(r, lo, hi, k);
      assert DeepCount(nodes, D, k) == LinkCount(nodes, lo, hi, k);
      if k == n {
        LinkCountNone(nodes, lo, hi, n);
      }
    }
  }

  /**
   * Two arrays that differ only in the link of d, free in the first: the second links
   * to leaf k once more than the first exactly when d links to k.
   */
  lemma {:induction false} LinkCountAround(nodes: seq<Node>, r: seq<Node>, lo: nat, d: nat, hi: nat, k: nat)
    requires lo <= d < hi <= |nodes| && |r| == |nodes|
    requires forall j | lo <= j < hi && j != d :: r[j].next == nodes[j].next
    requires nodes[d].next == InvalidNext
    ensures LinkCount(r, lo, hi, k) == LinkCount(nodes, lo, hi, k) + (if r[d].next == k + 1 then 1 else 0)
    decreases hi
  {
    if hi - 1 == d {
      LinkCountFrame(nodes, r, lo, d, k);
    } else {
      LinkCountAround(nodes, r, lo, d, hi - 1, k);
    }
  }

  /** No node of the range links to leaf k when every link stays at or below k. */
  lemma {:induction false} LinkCountNone(nodes: seq<Node>, lo: nat, hi: nat, k: nat)
    requires lo <= hi <= |nodes|
    requires forall j | lo <= j < hi :: nodes[j].next <= k
    ensures LinkCount(nodes, lo, hi, k) == 0
    decreases hi
  {
    if lo < hi {
      LinkCountNone(nodes, lo, hi - 1, k);
    }
  }

  /** Old leaves stay in their cells, and the new leaf lies in cell (ux, uz). */
  lemma PlaceKeepsInCell<T>(nodes: seq<Node>, leaves: seq<Leaf<T>>, D: nat, value: T,
                            ux: nat, uz: nat, jitter: (real, real))
    requires |nodes| == LevelStart(D + 1) && Centred(nodes, D) && ux < Pow2(D) && uz < Pow2(D)
    requires forall j | LevelStart(D) <= j < |nodes| && nodes[j].next != InvalidNext ::
               nodes[j].next <= |leaves| && InCell(leaves[nodes[j].next - 1], nodes[j])
    requires -JitterBound <= jitter.0 <= JitterBound && -JitterBound <= jitter.1 <= JitterBound
    ensures var r := PlaceNodes(nodes, D, ux, uz, |leaves| + 1);
            var leaves' := leaves + [NewLeaf(value, ux, uz, jitter)];
            forall j | LevelStart(D) <= j < |r| && r[j].next != InvalidNext ::
              r[j].next <= |leaves'| && InCell(leaves'[r[j].next - 1], r[j])
  {
    var r := PlaceNodes(nodes, D, ux, uz, |leaves| + 1);
    var leaves' := leaves + [NewLeaf(value, ux, uz, jitter)];
    var d := CellIndex(D, ux, uz);
    CellIndexBound(D, ux, uz);
    forall j | LevelStart(D) <= j < |r| && r[j].next != InvalidNext
      ensures r[j].next <= |leaves'| && InCell(leaves'[r[j].next - 1], r[j])
    {
      DeepAfter(nodes, D, ux, uz, |leaves| + 1, j);
      if j == d && nodes[d].next == InvalidNext {
        NewLeafInCell(nodes, D, value, ux, uz, jitter);
      } else {
        var v := nodes[j].next;
        assert r[j] == nodes[j] && leaves'[v - 1] == leaves[v - 1];
      }
    }
  }

  /** On the deepest level only the free cell changes: its link becomes `link`. */
  lemma DeepAfter(nodes: seq<Node>, D: nat, ux: nat, uz: nat, link: nat, j: nat)
    requires |nodes| == LevelStart(D + 1) && ux < Pow2(D) && uz < Pow2(D)
    requires LevelStart(D) <= j < |nodes|
    ensures var r := PlaceNodes(nodes, D, ux, uz, link);
            r[j] == if j == CellIndex(D, ux, uz) && nodes[j].next == InvalidNext then nodes[j].(next := link) else nodes[j]
  {
    PlacedAt(nodes, D, ux, uz, link, j);
    LevelOfRange(j, D);
  }

  /** The deepest node of (ux, uz) is centred at 4u + 2, so the jittered leaf lies inside it. */
  lemma NewLeafInCell<T>(nodes: seq<Node>, D: nat, value: T, ux: nat, uz: nat, jitter: (real, real))
    requires |nodes| == LevelStart(D + 1) && Centred(nodes, D) && ux < Pow2(D) && uz < Pow2(D)
    requires -JitterBound <= jitter.0 <= JitterBound && -JitterBound <= jitter.1 <= JitterBound
    ensures CellIndex(D, ux, uz) < |nodes|
    ensures InCell(NewLeaf(value, ux, uz, jitter), nodes[CellIndex(D, ux, uz)])
  {
    var d := CellIndex(D, ux, uz);
    CellIndexBound(D, ux, uz);
    CellCentre(D, ux, uz);
    var cx, cz := nodes[d].x, nodes[d].z;
    assert cx == 4 * ux + 2 && cz == 4 * uz + 2;
    JitteredInside(cx, 4 * ux + 2, jitter.0);
    JitteredInside(cz, 4 * uz + 2, jitter.1);
  }

  lemma JitteredInside(c: int, u: int, j: real)
    requires c == u && -JitterBound <= j <= JitterBound
    ensures (c as real) - 2.0 < (u as real) + j < (c as real) + 2.0
  {
  }

  /** The deepest node of (ux, uz) is centred at 4u + 2 units. */
  lemma CellCentre(D: nat, ux: nat, uz: nat)
    requires ux < Pow2(D) && uz < Pow2(D)
    ensures CellIndex(D, ux, uz) < LevelStart(D + 1)
    ensures CentreX(D, CellIndex(D, ux, uz)) == 4 * ux + 2
    ensures CentreZ(D, CellIndex(D, ux, uz)) == 4 * uz + 2
  {
    var d := CellIndex(D, ux, uz);
    CellIndexBound(D, ux, uz);
    KeyOnLevel(d, D);
    DecodeOfInterleave(ux, uz);
    assert Key(d) == Interleave(ux, uz);
    assert D + 1 - Level(d) == 1;
  }

  /** The presence flags stay exact across one placement into a free cell. */
  lemma PlaceKeepsFlagsExact(nodes: seq<Node>, D: nat, ux: nat, uz: nat, link: nat)
    requires |nodes| == LevelStart(D + 1) && FlagsExact(nodes, D) && ux < Pow2(D) && uz < Pow2(D)
    requires IsFree(nodes, D, ux, uz) && 0 < link
    ensures FlagsExact(PlaceNodes(nodes, D, ux, uz, link), D)
  {
    var r := PlaceNodes(nodes, D, ux, uz, link);
    ShapeBounds(D);
    forall i, c | 0 <= i < LevelStart(D) && 0 <= c < 4
      ensures HasChild(r[i], c) == Occupied(r, D, 4 * i + 1 + c)
    {
      FlagStep(nodes, D, ux, uz, link, i, c);
    }
  }

  lemma FlagStep(nodes: seq<Node>, D: nat, ux: nat, uz: nat, link: nat, i: nat, c: nat)
    requires |nodes| == LevelStart(D + 1) && FlagsExact(nodes, D) && ux < Pow2(D) && uz < Pow2(D)
    requires IsFree(nodes, D, ux, uz) && 0 < link
    requires i < LevelStart(D) && c < 4
    ensures 4 * i + 1 + c < |nodes|
    ensures var r := PlaceNodes(nodes, D, ux, uz, link);
            HasChild(r[i], c) == Occupied(r, D, 4 * i + 1 + c)
  {
    var l := AboveDeepest(i, D);
    FlagAt(nodes, D, i, c);
    FlagAfter(nodes, D, ux, uz, link, i, c);
    OccupiedAfter(nodes, D, ux, uz, link, 4 * i + 1 + c);
    ChildOnPath(D, ux, uz, i, c);
  }

  /** A node strictly above the deepest level has a level below D. */
  lemma AboveDeepest(i: nat, D: nat) returns (l: nat)
    requires i < LevelStart(D)
    ensures l == Level(i) && l < D && LevelStart(l) <= i < LevelStart(l + 1)
  {
    l := Level(i);
    LevelRange(i);
    if l >= D {
      LevelStartMonotone(D, l);
    }
  }

  /** After a placement, flag c of node i is raised iff it was, or the path turns there. */
  lemma FlagAfter(nodes: seq<Node>, D: nat, ux: nat, uz: nat, link: nat, i: nat, c: nat)
    requires |nodes| == LevelStart(D + 1) && ux < Pow2(D) && uz < Pow2(D)
    requires i < LevelStart(D) && c < 4
    ensures Level(i) < D
    ensures var r := PlaceNodes(nodes, D, ux, uz, link);
            HasChild(r[i], c) == (HasChild(nodes[i], c) || (OnPath(D, ux, uz, i) && c == PathChild(D, ux, uz, Level(i))))
  {
    var l := AboveDeepest(i, D);
    LevelStartMonotone(D, D + 1);
    PlacedAt(nodes, D, ux, uz, link, i);
  }

  /** After a placement into a free cell, a node is occupied iff it was, or it is on the path. */
  lemma OccupiedAfter(nodes: seq<Node>, D: nat, ux: nat, uz: nat, link: nat, j: nat)
    requires |nodes| == LevelStart(D + 1) && ux < Pow2(D) && uz < Pow2(D)
    requires IsFree(nodes, D, ux, uz) && 0 < link && j < |nodes|
    ensures var r := PlaceNodes(nodes, D, ux, uz, link);
            Occupied(r, D, j) == (Occupied(nodes, D, j) || OnPath(D, ux, uz, j))
  {
    PlacedAt(nodes, D, ux, uz, link, j);
    LevelBelow(j, D);
    LevelRange(j);
    if j >= LevelStart(D) {
      if Level(j) < D {
        LevelStartMonotone(Level(j) + 1, D);
      }
      assert Level(j) == D;
      PathOnLevel(D, ux, uz, D);
    } else {
      var l := AboveDeepest(j, D);
    }
  }

  /** Child c of node i is on the path iff i is and the path turns to c. */
  lemma ChildOnPath(D: nat, ux: nat, uz: nat, i: nat, c: nat)
    requires ux < Pow2(D) && uz < Pow2(D) && Level(i) < D && c < 4
    ensures OnPath(D, ux, uz, 4 * i + 1 + c) == (OnPath(D, ux, uz, i) && c == PathChild(D, ux, uz, Level(i)))
  {
    var l := Level(i);
    ChildKey(i, c);
    if OnPath(D, ux, uz, 4 * i + 1 + c) {
      PathParent(D, ux, uz, l, i, c);
    }
    if OnPath(D, ux, uz, i) {
      PathStep(D, ux, uz, l);
    }
  }

  // ---------------------------------------------------------------------------
  // The population loop

  /** One pop of the population loop: the last listed cell is tried and dropped from the list. */
  lemma PopulateStep<T>(nodes: seq<Node>, leaves: seq<Leaf<T>>, D: nat, value: T, count: nat,
                        positions: seq<(nat, nat)>, jitter: seq<(real, real)>)
    requires |nodes| == LevelStart(D + 1) && InGrid(positions, D) && |jitter| >= count
    requires count > 0 && |positions| > 0
    ensures var (ux, uz) := positions[|positions| - 1];
            var rest := positions[..|positions| - 1];
            var nodes' := PlaceNodes(nodes, D, ux, uz, |leaves| + 1);
            && InGrid(rest, D)
            && Populate(nodes, leaves, D, value, count, positions, jitter)
               == if IsFree(nodes, D, ux, uz)
                  then Populate(nodes', leaves + [NewLeaf(value, ux, uz, jitter[0])], D, value, count - 1, rest, jitter[1..])
                  else Populate(nodes', leaves, D, value, count, rest, jitter)
  {
    assert InGrid(positions[..|positions| - 1], D);
  }

  /** Population stops with ok once count reaches zero, and without once the list is empty. */
  lemma PopulateDone<T>(nodes: seq<Node>, leaves: seq<Leaf<T>>, D: nat, value: T, count: nat,
                        positions: seq<(nat, nat)>, jitter: seq<(real, real)>)
    requires |nodes| == LevelStart(D + 1) && InGrid(positions, D) && |jitter| >= count
    requires count == 0 || positions == []
    ensures Populate(nodes, leaves, D, value, count, positions, jitter) == Outcome(nodes, leaves, count == 0)
  {
  }

  /**
   * Where the population loop stands: `i` leaves placed, `stack` still to pop, a
   * well-formed tree, and what is left to do yields the overall outcome `goal`.
   */
  ghost predicate PopulatingAt<T>(goal: Outcome<T>, nodes: seq<Node>, leaves: seq<Leaf<T>>, D: nat, value: T,
                                  count: nat, i: nat, stack: seq<(nat, nat)>, jitter: seq<(real, real)>)
  {
    && Wf(nodes, leaves, D) && InGrid(stack, D) && i <= count <= |jitter| && JitterInRange(jitter)
    && goal == Populate(nodes, leaves, D, value, count - i, stack, jitter[i..])
  }

  /** The cell the population loop pops lies on the grid, and the tree can take one more leaf. */
  lemma PopulatingPop<T>(goal: Outcome<T>, nodes: seq<Node>, leaves: seq<Leaf<T>>, D: nat, value: T,
                         count: nat, i: nat, stack: seq<(nat, nat)>, jitter: seq<(real, real)>)
    requires PopulatingAt(goal, nodes, leaves, D, value, count, i, stack, jitter) && i < count && stack != []
    ensures stack[|stack| - 1].0 < Pow2(D) && stack[|stack| - 1].1 < Pow2(D)
    ensures Shaped(nodes, D) && |leaves| + 1 < NextFieldModulus
  {
    LeafCountBound(nodes, |leaves|, D);
  }

  /**
   * After placing at the popped cell the loop stands one cell further on, with one more
   * leaf placed when the cell was free.
   */
  lemma PopulatingNext<T>(goal: Outcome<T>, nodes: seq<Node>, leaves: seq<Leaf<T>>, D: nat, value: T,
                          count: nat, i: nat, stack: seq<(nat, nat)>, jitter: seq<(real, real)>,
                          nodes': seq<Node>, leaves': seq<Leaf<T>>, i': nat)
    requires PopulatingAt(goal, nodes, leaves, D, value, count, i, stack, jitter) && i < count && stack != []
    requires var (ux, uz) := stack[|stack| - 1];
             var free := IsFree(nodes, D, ux, uz);
             && ux < Pow2(D) && uz < Pow2(D)
             && nodes' == PlaceNodes(nodes, D, ux, uz, |leaves| + 1)
             && leaves' == (if free then leaves + [NewLeaf(value, ux, uz, jitter[i])] else leaves)
             && i' == if free then i + 1 else i
    ensures PopulatingAt(goal, nodes', leaves', D, value, count, i', stack[..|stack| - 1], jitter)
  {
    var (ux, uz) := stack[|stack| - 1];
    PopulateStep(nodes, leaves, D, value, count - i, stack, jitter[i..]);
    PlacePreservesWf(nodes, leaves, D, value, ux, uz, jitter[i]);
    assert jitter[i..][1..] == jitter[i + 1..];
  }

  /** Population keeps every invariant of the tree. */
  lemma {:induction false} PopulatePreservesWf<T>(nodes: seq<Node>, leaves: seq<Leaf<T>>, D: nat, value: T,
                                                  count: nat, positions: seq<(nat, nat)>, jitter: seq<(real, real)>)
    requires Wf(nodes, leaves, D) && InGrid(positions, D) && |jitter| >= count && JitterInRange(jitter)
    ensures var r := Populate(nodes, leaves, D, value, count, positions, jitter);
            Wf(r.nodes, r.leaves, D)
    decreases |positions|
  {
    if count > 0 && |positions| > 0 {
      var p := positions[|positions| - 1];
      var rest := positions[..|positions| - 1];
      assert InGrid(rest, D);
      PlacePreservesWf(nodes, leaves, D, value, p.0, p.1, jitter[0]);
      var nodes' := PlaceNodes(nodes, D, p.0, p.1, |leaves| + 1);
      if IsFree(nodes, D, p.0, p.1) {
        var leaves' := leaves + [NewLeaf(value, p.0, p.1, jitter[0])];
        assert JitterInRange(jitter[1..]);
        PopulatePreservesWf(nodes', leaves', D, value, count - 1, rest, jitter[1..]);
        assert Populate(nodes, leaves, D, value, count, positions, jitter)
            == Populate(nodes', leaves', D, value, count - 1, rest, jitter[1..]);
      } else {
        PopulatePreservesWf(nodes', leaves, D, value, count, rest, jitter);
        assert Populate(nodes, leaves, D, value, count, positions, jitter)
            == Populate(nodes', leaves, D, value, count, rest, jitter);
      }
    }
  }

  /** Free counts depend only on the links of the listed cells. */
  lemma {:induction false} FreeCountFrame(nodes: seq<Node>, nodes': seq<Node>, D: nat, positions: seq<(nat, nat)>)
    requires |nodes| == LevelStart(D + 1) && |nodes'| == |nodes| && InGrid(positions, D)
    requires forall k | 0 <= k < |positions| ::
               IsFree(nodes, D, positions[k].0, positions[k].1) == IsFree(nodes', D, positions[k].0, positions[k].1)
    ensures FreeCount(nodes, D, positions) == FreeCount(nodes', D, positions)
    decreases |positions|
  {
    if positions != [] {
      FreeCountFrame(nodes, nodes', D, positions[..|positions| - 1]);
    }
  }

  /** Placing at p leaves every other cell's freedom as it was. */
  lemma PlaceKeepsOtherFreedom(nodes: seq<Node>, D: nat, ux: nat, uz: nat, link: nat, positions: seq<(nat, nat)>)
    requires |nodes| == LevelStart(D + 1) && ux < Pow2(D) && uz < Pow2(D) && InGrid(positions, D)
    requires forall k | 0 <= k < |positions| :: positions[k] != (ux, uz)
    ensures FreeCount(PlaceNodes(nodes, D, ux, uz, link), D, positions) == FreeCount(nodes, D, positions)
  {
    var r := PlaceNodes(nodes, D, ux, uz, link);
    forall k | 0 <= k < |positions|
      ensures IsFree(nodes, D, positions[k].0, positions[k].1) == IsFree(r, D, positions[k].0, positions[k].1)
    {
      var (x, z) := positions[k];
      CellIndexBound(D, x, z);
      if CellIndex(D, x, z) == CellIndex(D, ux, uz) {
        InterleaveInjective(x, z, ux, uz);
      }
      PlaceKeepsOtherLinks(nodes, D, ux, uz, link, CellIndex(D, x, z));
    }
    FreeCountFrame(r, nodes, D, positions);
  }

  /** Picking an occupied cell changes no link. */
  lemma PlaceOccupiedKeepsFreedom(nodes: seq<Node>, D: nat, ux: nat, uz: nat, link: nat, positions: seq<(nat, nat)>)
    requires |nodes| == LevelStart(D + 1) && ux < Pow2(D) && uz < Pow2(D) && InGrid(positions, D)
    requires !IsFree(nodes, D, ux, uz)
    ensures FreeCount(PlaceNodes(nodes, D, ux, uz, link), D, positions) == FreeCount(nodes, D, positions)
  {
    var r := PlaceNodes(nodes, D, ux, uz, link);
    forall k | 0 <= k < |positions|
      ensures IsFree(nodes, D, positions[k].0, positions[k].1) == IsFree(r, D, positions[k].0, positions[k].1)
    {
      var (x, z) := positions[k];
      CellIndexBound(D, x, z);
      CellIndexBound(D, ux, uz);
      PlacedAt(nodes, D, ux, uz, link, CellIndex(D, x, z));
    }
    FreeCountFrame(r, nodes, D, positions);
  }

  /**
   * With distinct cells in the list, population succeeds exactly when the list holds at
   * least `count` free cells; it then appends exactly `count` leaves, and otherwise one
   * leaf per free cell.
   */
  lemma {:induction false} PopulateCount<T>(nodes: seq<Node>, leaves: seq<Leaf<T>>, D: nat, value: T,
                                            count: nat, positions: seq<(nat, nat)>, jitter: seq<(real, real)>)
    requires |nodes| == LevelStart(D + 1) && InGrid(positions, D) && |jitter| >= count && Distinct(positions)
    ensures var r := Populate(nodes, leaves, D, value, count, positions, jitter);
            && (r.ok <==> count <= FreeCount(nodes, D, positions))
            && |r.leaves| == |leaves| + (if r.ok then count else FreeCount(nodes, D, positions))
    decreases |positions|
  {
    if count > 0 && |positions| > 0 {
      var p := positions[|positions| - 1];
      var rest := positions[..|positions| - 1];
      var nodes' := PlaceNodes(nodes, D, p.0, p.1, |leaves| + 1);
      assert InGrid(rest, D) && Distinct(rest);
      assert forall k | 0 <= k < |rest| :: rest[k] != p;
      var fc := FreeCount(nodes, D, rest);
      assert FreeCount(nodes, D, positions) == fc + (if IsFree(nodes, D, p.0, p.1) then 1 else 0);
      var r := Populate(nodes, leaves, D, value, count, positions, jitter);
      if IsFree(nodes, D, p.0, p.1) {
        PlaceKeepsOtherFreedom(nodes, D, p.0, p.1, |leaves| + 1, rest);
        var leaves' := leaves + [NewLeaf(value, p.0, p.1, jitter[0])];
        PopulateCount(nodes', leaves', D, value, count - 1, rest, jitter[1..]);
        var r' := Populate(nodes', leaves', D, value, count - 1, rest, jitter[1..]);
        assert r == r';
        assert r'.ok <==> count - 1 <= fc;
        assert |r'.leaves| == |leaves| + 1 + (if r'.ok then count - 1 else fc);
      } else {
        PlaceOccupiedKeepsFreedom(nodes, D, p.0, p.1, |leaves| + 1, rest);
        PopulateCount(nodes', leaves, D, value, count, rest, jitter);
        var r' := Populate(nodes', leaves, D, value, count, rest, jitter);
        assert r == r';
        assert r'.ok <==> count <= fc;
        assert |r'.leaves| == |leaves| + (if r'.ok then count else fc);
      }
    }
  }

  /** Population only appends to the leaf array, and every new leaf carries `value`. */
  lemma {:induction false} PopulateAppends<T>(nodes: seq<Node>, leaves: seq<Leaf<T>>, D: nat, value: T,
                                              count: nat, positions: seq<(nat, nat)>, jitter: seq<(real, real)>)
    requires |nodes| == LevelStart(D + 1) && InGrid(positions, D) && |jitter| >= count
    ensures var r := Populate(nodes, leaves, D, value, count, positions, jitter);
            && leaves <= r.leaves
            && (forall k | |leaves| <= k < |r.leaves| :: r.leaves[k].value == value)
    decreases |positions|
  {
    if count > 0 && |positions| > 0 {
      var p := positions[|positions| - 1];
      var rest := positions[..|positions| - 1];
      var nodes' := PlaceNodes(nodes, D, p.0, p.1, |leaves| + 1);
      assert InGrid(rest, D);
      var r := Populate(nodes, leaves, D, value, count, positions, jitter);
      if IsFree(nodes, D, p.0, p.1) {
        var leaves' := leaves + [NewLeaf(value, p.0, p.1, jitter[0])];
        PopulateAppends(nodes', leaves', D, value, count - 1, rest, jitter[1..]);
        assert r == Populate(nodes', leaves', D, value, count - 1, rest, jitter[1..]);
        assert leaves <= leaves' <= r.leaves;
      } else {
        PopulateAppends(nodes', leaves, D, value, count, rest, jitter);
        assert r == Populate(nodes', leaves, D, value, count, rest, jitter);
      }
    }
  }

  // ---------------------------------------------------------------------------
  // The descent, one level at a time

  /** Marking no level changes nothing. */
  lemma MarkPathNone(nodes: seq<Node>, D: nat, ux: nat, uz: nat)
    ensures MarkPath(nodes, D, ux, uz, 0) == nodes
  {
    assert forall i | 0 <= i < |nodes| :: MarkPath(nodes, D, ux, uz, 0)[i] == nodes[i];
  }

  /** Marking one more level raises the path flag of the level-l path node only. */
  lemma MarkPathStep(nodes: seq<Node>, D: nat, ux: nat, uz: nat, l: nat)
    requires l < D && |nodes| == LevelStart(D + 1) && ux < Pow2(D) && uz < Pow2(D)
    ensures var j := PathIndex(D, ux, uz, l);
            && j < |nodes|
            && MarkPath(nodes, D, ux, uz, l)[j] == nodes[j]
            && MarkPath(nodes, D, ux, uz, l + 1)
               == MarkPath(nodes, D, ux, uz, l)[j := WithChild(nodes[j], PathChild(D, ux, uz, l))]
  {
    var j := PathIndex(D, ux, uz, l);
    PathOnLevel(D, ux, uz, l);
    LevelStartMonotone(l + 1, D + 1);
    var a := MarkPath(nodes, D, ux, uz, l + 1);
    var b := MarkPath(nodes, D, ux, uz, l)[j := WithChild(nodes[j], PathChild(D, ux, uz, l))];
    forall i | 0 <= i < |nodes|
      ensures a[i] == b[i]
    {
      if i != j && Level(i) == l {
        assert !OnPath(D, ux, uz, i);
      }
    }
  }

  /** The first child of the level-l path node is centred on the path's low quadrant corner cell. */
  lemma FirstChildCentre(D: nat, ux: nat, uz: nat, l: nat)
    requires l < D && ux < Pow2(D) && uz < Pow2(D)
    ensures var j := PathIndex(D, ux, uz, l);
            && j < LevelStart(D) && 4 * j + 4 < LevelStart(D + 1)
            && CentreX(D, 4 * j + 1) == (4 * Ancestor(D, ux, l) + 1) * Pow2(D - l)
            && CentreZ(D, 4 * j + 1) == (4 * Ancestor(D, uz, l) + 1) * Pow2(D - l)
  {
    FirstChildKey(D, ux, uz, l);
    var j := PathIndex(D, ux, uz, l);
    CentreOfEvenKey(D, l, 4 * j + 1, Ancestor(D, ux, l), Ancestor(D, uz, l));
  }

  /** The first child of the level-l path node has the doubled ancestor coordinates as key. */
  lemma FirstChildKey(D: nat, ux: nat, uz: nat, l: nat)
    requires l < D && ux < Pow2(D) && uz < Pow2(D)
    ensures var j := PathIndex(D, ux, uz, l);
            && j < LevelStart(D) && 4 * j + 4 < LevelStart(D + 1)
            && LevelStart(l + 1) <= 4 * j + 1 < LevelStart(l + 2)
            && 4 * j + 1 - LevelStart(l + 1) == Interleave(2 * Ancestor(D, ux, l), 2 * Ancestor(D, uz, l))
  {
    var j := PathIndex(D, ux, uz, l);
    var ax, az := Ancestor(D, ux, l), Ancestor(D, uz, l);
    PathInLevel(D, ux, uz, l);
    LevelStartMonotone(l + 1, D);
    ChildInLevel(j, l, 0);
    ChildInLevel(j, l, 3);
    LevelStartMonotone(l + 2, D + 1);
    LevelStartSeries(l);
    InterleaveStep(ax, az, 0, 0);
  }

  /** A level-(l+1) node whose key interleaves (2a, 2b) is centred at (4a + 1, 4b + 1) steps of 2^(D-l). */
  lemma CentreOfEvenKey(D: nat, l: nat, c: nat, a: nat, b: nat)
    requires l < D && LevelStart(l + 1) <= c < LevelStart(l + 2)
    requires c - LevelStart(l + 1) == Interleave(2 * a, 2 * b)
    ensures c < LevelStart(D + 1)
    ensures CentreX(D, c) == (4 * a + 1) * Pow2(D - l)
    ensures CentreZ(D, c) == (4 * b + 1) * Pow2(D - l)
  {
    DecodeOfInterleave(2 * a, 2 * b);
    NodeCentre(D, c, l + 1);
    assert D + 1 - (l + 1) == D - l;
    var p := Pow2(D + 1 - (l + 1));
    OddCentre(CentreX(D, c), EvenBits(c - LevelStart(l + 1)), a, p);
    OddCentre(CentreZ(D, c), OddBits(c - LevelStart(l + 1)), b, p);
  }

  lemma OddCentre(centre: int, g: int, a: int, p: int)
    requires centre == (2 * g + 1) * p && g == 2 * a
    ensures centre == (4 * a + 1) * p
  {
  }

  /**
   * The interval tests the descent makes at child 00 of node j, with half-width s, answer
   * bx for the x axis and bz for the z axis.
   */
  ghost predicate Quadrants(m: seq<Node>, j: nat, s: int, px: int, pz: int, bx: bool, bz: bool)
  {
    && 4 * j + 4 < |m|
    && (m[4 * j + 1].x - s <= px < m[4 * j + 1].x + s <==> bx)
    && (m[4 * j + 1].z - s <= pz < m[4 * j + 1].z + s <==> bz)
  }

  /**
   * At level l < D the path node j has its first child at next = 4j + 1, and the source's
   * half-open test of the point 4u + 2 against that child's centre, with half-width
   * 2^(D-l), holds on an axis exactly when the path keeps the low half on that axis.
   */
  lemma DescendStep(nodes: seq<Node>, D: nat, ux: nat, uz: nat, l: nat)
    requires Shaped(nodes, D) && l < D && ux < Pow2(D) && uz < Pow2(D)
    ensures var j := PathIndex(D, ux, uz, l);
            var s := Pow2(D - l);
            && j < LevelStart(D) && nodes[j].next == 4 * j + 1
            && Quadrants(nodes, j, s, 4 * ux + 2, 4 * uz + 2, Bit(ux, D - l - 1) == 0, Bit(uz, D - l - 1) == 0)
  {
    FirstChildCentre(D, ux, uz, l);
    QuadrantTest(D, ux, l);
    QuadrantTest(D, uz, l);
  }

  /**
   * The marking as the descent's loop performs it, one level at a time: the flag of the
   * level-l path node is raised in the array as it stands after the levels above.
   */
  function MarkedTo(nodes: seq<Node>, D: nat, ux: nat, uz: nat, upTo: nat): (r: seq<Node>)
    requires upTo <= D && |nodes| == LevelStart(D + 1) && ux < Pow2(D) && uz < Pow2(D)
    ensures |r| == |nodes|
  {
    if upTo == 0 then nodes
    else
      var m := MarkedTo(nodes, D, ux, uz, upTo - 1);
      var j := PathIndex(D, ux, uz, upTo - 1);
      PathInLevel(D, ux, uz, upTo - 1);
      LevelStartMonotone(upTo, D + 1);
      m[j := WithChild(m[j], PathChild(D, ux, uz, upTo - 1))]
  }

  /** Nodes from level upTo down are not touched by marking the levels above. */
  lemma {:induction false} MarkedToBelow(nodes: seq<Node>, D: nat, ux: nat, uz: nat, upTo: nat, k: nat)
    requires upTo <= D && |nodes| == LevelStart(D + 1) && ux < Pow2(D) && uz < Pow2(D)
    requires LevelStart(upTo) <= k < |nodes|
    ensures MarkedTo(nodes, D, ux, uz, upTo)[k] == nodes[k]
  {
    if upTo > 0 {
      PathInLevel(D, ux, uz, upTo - 1);
      LevelStartMonotone(upTo - 1, upTo);
      MarkedToBelow(nodes, D, ux, uz, upTo - 1, k);
    }
  }

  /** Marking moves no node and changes no `next` field. */
  lemma {:induction false} MarkedToKeeps(nodes: seq<Node>, D: nat, ux: nat, uz: nat, upTo: nat, k: nat)
    requires upTo <= D && |nodes| == LevelStart(D + 1) && ux < Pow2(D) && uz < Pow2(D) && k < |nodes|
    ensures var m := MarkedTo(nodes, D, ux, uz, upTo);
            m[k].x == nodes[k].x && m[k].z == nodes[k].z && m[k].next == nodes[k].next
  {
    if upTo > 0 {
      MarkedToKeeps(nodes, D, ux, uz, upTo - 1, k);
    }
  }

  /** The level-by-level marking is the marking of every path node above level upTo. */
  lemma {:induction false} MarkedToIsMarkPath(nodes: seq<Node>, D: nat, ux: nat, uz: nat, upTo: nat)
    requires upTo <= D && |nodes| == LevelStart(D + 1) && ux < Pow2(D) && uz < Pow2(D)
    ensures MarkedTo(nodes, D, ux, uz, upTo) == MarkPath(nodes, D, ux, uz, upTo)
  {
    if upTo == 0 {
      MarkPathNone(nodes, D, ux, uz);
    } else {
      MarkedToIsMarkPath(nodes, D, ux, uz, upTo - 1);
      MarkedToStep(nodes, D, ux, uz, upTo - 1);
    }
  }

  lemma MarkedToStep(nodes: seq<Node>, D: nat, ux: nat, uz: nat, l: nat)
    requires l < D && |nodes| == LevelStart(D + 1) && ux < Pow2(D) && uz < Pow2(D)
    requires MarkedTo(nodes, D, ux, uz, l) == MarkPath(nodes, D, ux, uz, l)
    ensures MarkedTo(nodes, D, ux, uz, l + 1) == MarkPath(nodes, D, ux, uz, l + 1)
  {
    MarkPathStep(nodes, D, ux, uz, l);
    PathInLevel(D, ux, uz, l);
    MarkedToBelow(nodes, D, ux, uz, l, PathIndex(D, ux, uz, l));
  }

  /**
   * Where the descent stands: the node array is the original one marked down to level l,
   * j is the path node of level l and w = 2^(D+1-l) is the current half-width.
   */
  ghost predicate DescentAt(nodes: seq<Node>, m: seq<Node>, D: nat, ux: nat, uz: nat, l: nat, j: nat, w: nat)
  {
    && Shaped(nodes, D) && ux < Pow2(D) && uz < Pow2(D) && l <= D
    && j == PathIndex(D, ux, uz, l) && w == Pow2(D + 1 - l) && m == MarkedTo(nodes, D, ux, uz, l)
  }

  /** The descent starts at the root with nothing marked. */
  lemma DescentStart(nodes: seq<Node>, D: nat, ux: nat, uz: nat)
    requires Shaped(nodes, D) && ux < Pow2(D) && uz < Pow2(D)
    ensures DescentAt(nodes, nodes, D, ux, uz, 0, 0, Pow2(D + 1))
  {
    PathOnLevel(D, ux, uz, 0);
  }

  /**
   * One level of the descent: the path node still holds its original flags and child
   * base 4j + 1, the interval tests against child 00 with half-width w / 2 decide the
   * path's next child, and raising that child's flag and moving to it is the next level.
   */
  lemma DescendTests(nodes: seq<Node>, m: seq<Node>, D: nat, ux: nat, uz: nat, l: nat, j: nat, w: nat)
    requires DescentAt(nodes, m, D, ux, uz, l, j, w) && l < D
    ensures j < |m| && m[j] == nodes[j] && m[j].next == 4 * j + 1
    ensures Quadrants(m, j, w / 2, 4 * ux + 2, 4 * uz + 2, Bit(ux, D - l - 1) == 0, Bit(uz, D - l - 1) == 0)
  {
    DescendNode(nodes, m, D, ux, uz, l, j, w);
    var s := HalfWidth(D, l, w);
    DescendStep(nodes, D, ux, uz, l);
  }

  /** The path node is as the constructor left it but for lower flags, and so is child 00's centre. */
  lemma DescendNode(nodes: seq<Node>, m: seq<Node>, D: nat, ux: nat, uz: nat, l: nat, j: nat, w: nat)
    requires DescentAt(nodes, m, D, ux, uz, l, j, w) && l < D
    ensures j < LevelStart(D) && 4 * j + 4 < |m| && m[j] == nodes[j]
    ensures m[4 * j + 1].x == nodes[4 * j + 1].x && m[4 * j + 1].z == nodes[4 * j + 1].z
  {
    PathInLevel(D, ux, uz, l);
    LevelStartMonotone(l + 1, D);
    ChildInLevel(j, l, 3);
    LevelStartMonotone(l + 2, D + 1);
    MarkedToBelow(nodes, D, ux, uz, l, j);
    MarkedToKeeps(nodes, D, ux, uz, l, 4 * j + 1);
  }

  /** Half of the level-l half-width is the level-(l+1) half-width. */
  lemma HalfWidth(D: nat, l: nat, w: nat) returns (s: nat)
    requires l < D && w == Pow2(D + 1 - l)
    ensures s == w / 2 == Pow2(D - l) && D + 1 - (l + 1) == D - l
  {
    Pow2Half(D - l);
    assert D - l + 1 == D + 1 - l;
    s := w / 2;
  }

  lemma DescendNext(nodes: seq<Node>, m: seq<Node>, D: nat, ux: nat, uz: nat, l: nat, j: nat, w: nat,
                    m': seq<Node>, j': nat, w': nat)
    requires DescentAt(nodes, m, D, ux, uz, l, j, w) && l < D && j < |nodes|
    requires m' == m[j := WithChild(nodes[j], PathChild(D, ux, uz, l))]
    requires j' == 4 * j + 1 + PathChild(D, ux, uz, l) && w' == w / 2
    ensures DescentAt(nodes, m', D, ux, uz, l + 1, j', w')
  {
    PathInLevel(D, ux, uz, l);
    LevelStartMonotone(l + 1, D + 1);
    MarkedToBelow(nodes, D, ux, uz, l, j);
    PathStep(D, ux, uz, l);
    var s := HalfWidth(D, l, w);
  }

  /** At the bottom the descent stands on the cell's deepest node, and only the flags above it are raised. */
  lemma DescentEnd(nodes: seq<Node>, m: seq<Node>, D: nat, ux: nat, uz: nat, j: nat, w: nat, link: nat)
    requires DescentAt(nodes, m, D, ux, uz, D, j, w)
    ensures |m| == |nodes| == LevelStart(D + 1) && j == CellIndex(D, ux, uz) && j < |m|
    ensures m[j].next == InvalidNext <==> IsFree(nodes, D, ux, uz)
    ensures PlaceNodes(nodes, D, ux, uz, link) == if m[j].next == InvalidNext then m[j := m[j].(next := link)] else m
  {
    PathOnLevel(D, ux, uz, D);
    CellIndexBound(D, ux, uz);
    MarkedToIsMarkPath(nodes, D, ux, uz, D);
  }

  // ---------------------------------------------------------------------------
  // The candidate cells

  /** std::shuffle's result: order[k] is the enumeration index of the k-th cell. */
  ghost predicate IsPermutation(order: seq<nat>, n: nat)
  {
    && |order| == n
    && (forall k | 0 <= k < n :: order[k] < n)
    && Distinct(order)
    && (forall v | 0 <= v < n :: v in order)
  }

  /** The enumerated cell with index xz on a grid `extent` cells wide. */
  function GridCell(xz: nat, extent: nat): (nat, nat)
    requires extent > 0
  {
    (xz % extent, xz / extent)
  }

  /** The enumerated grid of the deepest level, in the order `order` gives. */
  function Shuffled(order: seq<nat>, D: nat): (r: seq<(nat, nat)>)
    requires forall k | 0 <= k < |order| :: order[k] < Pow4(D)
    ensures |r| == |order| && InGrid(r, D)
  {
    ShuffledOnGrid(order, D);
    seq(|order|, k requires 0 <= k < |order| => GridCell(order[k], Pow2(D)))
  }

  lemma ShuffledOnGrid(order: seq<nat>, D: nat)
    requires forall k | 0 <= k < |order| :: order[k] < Pow4(D)
    ensures forall k | 0 <= k < |order| :: GridCell(order[k], Pow2(D)).0 < Pow2(D) && GridCell(order[k], Pow2(D)).1 < Pow2(D)
  {
    forall k | 0 <= k < |order|
      ensures GridCell(order[k], Pow2(D)).0 < Pow2(D) && GridCell(order[k], Pow2(D)).1 < Pow2(D)
    {
      GridCellBijective(D, order[k], order[k]);
    }
  }

  /** The enumeration hits each cell of the 2^D by 2^D grid exactly once. */
  lemma GridCellBijective(D: nat, xz: nat, xz': nat)
    requires xz < Pow4(D) && xz' < Pow4(D)
    ensures GridCell(xz, Pow2(D)).0 < Pow2(D) && GridCell(xz, Pow2(D)).1 < Pow2(D)
    ensures GridCell(xz, Pow2(D)) == GridCell(xz', Pow2(D)) ==> xz == xz'
  {
    Pow4IsSquare(D);
    GridArith(xz, xz', Pow2(D));
  }

  lemma GridArith(k: int, k': int, e: int)
    requires e > 0 && 0 <= k < e * e && 0 <= k' < e * e
    ensures k / e < e
    ensures k % e == k' % e && k / e == k' / e ==> k == k'
  {
    var q := k / e;
    assert k == q * e + k % e;
    if q >= e {
      MulLe(e, q, e);
    }
    assert k' == (k' / e) * e + k' % e;
  }

  lemma MulLe(a: int, b: int, m: int)
    requires a <= b && m >= 0
    ensures a * m <= b * m
  {
  }

  lemma GridCellOf(D: nat, ux: nat, uz: nat)
    requires ux < Pow2(D) && uz < Pow2(D)
    ensures uz * Pow2(D) + ux < Pow4(D) && GridCell(uz * Pow2(D) + ux, Pow2(D)) == (ux, uz)
  {
    var e := Pow2(D);
    Pow4IsSquare(D);
    DivModUnique(uz * e + ux, e, uz, ux);
    MulLe(uz, e - 1, e);
  }

  /**
   * A shuffled enumeration is the whole deepest grid: every cell is on the grid, no cell
   * appears twice, and every cell appears.
   */
  lemma ShuffledGrid(order: seq<nat>, D: nat)
    requires IsPermutation(order, Pow4(D))
    ensures InGrid(Shuffled(order, D), D) && Distinct(Shuffled(order, D))
    ensures forall ux: nat, uz: nat | ux < Pow2(D) && uz < Pow2(D) :: (ux, uz) in Shuffled(order, D)
  {
    var r := Shuffled(order, D);
    forall k, k' | 0 <= k < k' < |r|
      ensures r[k] != r[k']
    {
      GridCellBijective(D, order[k], order[k']);
    }
    forall ux: nat, uz: nat | ux < Pow2(D) && uz < Pow2(D)
      ensures (ux, uz) in r
    {
      GridCellOf(D, ux, uz);
      var v := uz * Pow2(D) + ux;
      assert v in order;
      var k :| 0 <= k < |order| && order[k] == v;
      assert r[k] == (ux, uz);
    }
  }
}
