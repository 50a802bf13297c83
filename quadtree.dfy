/**
 * The PseudoQuadTree<T> object itself (include/PseudoQuadTree.hpp:15-186): its node
 * array `heap_`, its append-only `leaves_` and its height, the constructor that lays the
 * tree out, decodeQuadKey and addToRandomLeaves.
 *
 * Geometry is in units of a quarter of a deepest cell, measured from the area's corner
 * (see QuadTreeLayout); the area's world position and size are left out.
 */
module QuadTree {
  import opened Morton
  import opened QuadTreeLayout
  import opened QuadTreePlacement
  import opened QuadTreeTraversal
  import opened QuadTreeCapacity

  datatype Option<X> = None | Some(value: X)

  // ---------------------------------------------------------------------------
  // Sizing the heap as the constructor writes it

  /** Unsigned 32-bit arithmetic wraps modulo 2^32. */
  const WordModulus: nat := 0x1_0000_0000

  /** `a << s` on a 32-bit unsigned value. */
  function ShiftLeft32(a: nat, s: nat): (r: nat)
    requires s < 32
    ensures r < WordModulus
  {
    (a * Pow2(s)) % WordModulus
  }

  /** static_cast<std::int32_t> of a 32-bit unsigned value (two's complement). */
  function ToInt32(u: nat): int
    requires u < WordModulus
  {
    if u < 0x8000_0000 then u else u - WordModulus
  }

  /** C++ integer division, which truncates toward zero. */
  function DivTowardZero(a: int, b: int): int
    requires b != 0
  {
    if (a >= 0) == (b > 0) then (if a >= 0 then a else -a) / (if b > 0 then b else -b)
    else -((if a >= 0 then a else -a) / (if b > 0 then b else -b))
  }

  /**
   * The heap size of the constructor's initialiser, (1 * (1 - int32(4U << 2(H+1)))) / (1 - 4),
   * for every height the source declares (MAX_TREE_HEIGHT = 14).
   */
  function HeapSizeAsWritten(H: nat): int
    requires H <= DeclaredMaxTreeHeight
  {
    var s := ToInt32(ShiftLeft32(4, 2 * (H + 1)));
    DivTowardZero(1 * (1 - s), 1 - 4)
  }

  /** Below the declared maximum, the initialiser sizes a complete 4-ary tree with H + 2 levels. */
  lemma HeapSizeBelowDeclaredMax(H: nat)
    requires H < DeclaredMaxTreeHeight
    ensures HeapSizeAsWritten(H) == LevelStart(H + 2)
  {
    var p := Pow2(2 * (H + 1));
    assert 4 * p == Pow4(H + 2) by {
      Pow4IsSquare(H + 1);
    }
    LevelStartSeries(H + 2);
    assert Pow4(H + 2) <= Pow4(DeclaredMaxTreeHeight + 1) by {
      Pow4Monotone(H + 2, DeclaredMaxTreeHeight + 1);
    }
    Pow4Fifteen();
    assert ShiftLeft32(4, 2 * (H + 1)) == Pow4(H + 2);
  }

  lemma Pow4Fifteen()
    ensures Pow4(15) == 0x4000_0000
  {
    assert Pow4(5) == 1024;
    Pow4Add(5, 5);
    Pow4Add(10, 5);
  }

  /** At the declared maximum height 14, `4U << 30` wraps to 0 and the heap is empty. */
  lemma HeapSizeWrapsAtDeclaredMax()
    ensures HeapSizeAsWritten(DeclaredMaxTreeHeight) == 0
  {
    Pow4Fifteen();
    Pow4IsSquare(15);
    assert ShiftLeft32(4, 30) == 0;
  }

  /** The intended size: the series 1 + 4 + ... + 4^(H+1), computed without wrapping. */
  function HeapSize(H: nat): (n: nat)
    ensures 3 * n + 1 == Pow4(H + 2)
  {
    LevelStartSeries(H + 2);
    (Pow4(H + 2) - 1) / 3
  }

  /** The intended size is the size of the breadth-first layout, at every declared height. */
  lemma HeapSizeIsLayout(H: nat)
    ensures HeapSize(H) == LevelStart(H + 2)
    ensures H < DeclaredMaxTreeHeight ==> HeapSizeAsWritten(H) == HeapSize(H)
  {
    LevelStartSeries(H + 2);
    if H < DeclaredMaxTreeHeight {
      HeapSizeBelowDeclaredMax(H);
    }
  }

  // ---------------------------------------------------------------------------
  // Child bases in the 28-bit `next` field

  /** The value the constructor stores for node i: 1 + 4i cut to the 28-bit field. */
  function StoredChildBase(i: nat): (r: nat)
    ensures r < NextFieldModulus
  {
    (1 + 4 * i) % NextFieldModulus
  }

  lemma Pow4Thirteen()
    ensures Pow4(13) == 0x400_0000
  {
    assert Pow4(5) == 1024;
    Pow4Add(5, 5);
    Pow4Add(10, 3);
  }

  /**
   * At height 13 the last node above the deepest level, i = LevelStart(14) - 1, needs
   * the child base 357913937, which the 28-bit field cannot hold.
   */
  lemma ChildBaseOverflowsAt13()
    ensures var i := LevelStart(13 + 1) - 1;
            i < LevelStart(13 + 1) && StoredChildBase(i) != 1 + 4 * i
  {
    LevelStartSeries(13);
    Pow4Thirteen();
    assert LevelStart(14) == 89478485;
  }

  /** Up to MaxTreeHeight every child base of a node above the deepest level is stored exactly. */
  lemma ChildBasesFit(H: nat, i: nat)
    requires H <= MaxTreeHeight && i < LevelStart(H + 1)
    ensures StoredChildBase(i) == 1 + 4 * i
  {
    LevelStartMonotone(H + 1, MaxTreeHeight + 1);
    LevelStartSeries(MaxTreeHeight + 1);
    Pow4Thirteen();
  }

  // ---------------------------------------------------------------------------
  // The tree as the constructor leaves it

  /**
   * Node i of a freshly built tree of depth D: centred on its cell, pointing at its first
   * child above the deepest level and at no leaf on it, with every presence flag down.
   */
  function FreshNode(D: nat, i: nat): Node
    requires i < LevelStart(D + 1)
  {
    Node(CentreX(D, i), CentreZ(D, i), if i < LevelStart(D) then 4 * i + 1 else InvalidNext,
         false, false, false, false)
  }

  function FreshHeap(D: nat): (r: seq<Node>)
    ensures |r| == LevelStart(D + 1)
  {
    seq(LevelStart(D + 1), i requires 0 <= i < LevelStart(D + 1) => FreshNode(D, i))
  }

  /** A freshly built tree is well formed, holds no leaf, and walks to nothing. */
  lemma FreshHeapWf<T>(D: nat)
    requires D <= MaxTreeHeight + 1
    ensures Wf<T>(FreshHeap(D), [], D)
    ensures Traverse(FreshHeap(D), D) == []
  {
    var nodes := FreshHeap(D);
    FreshTopology(D);
    FreshFlagsExact(D);
    ShapeBounds(D);
    assert Wf<T>(nodes, [], D);
    TraverseIsDeepLinks(nodes, D);
    LinksEmpty(nodes, LevelStart(D), |nodes|);
  }

  lemma FreshTopology(D: nat)
    requires D <= MaxTreeHeight + 1
    ensures Shaped(FreshHeap(D), D)
  {
    var nodes := FreshHeap(D);
    forall i | 0 <= i < |nodes|
      ensures nodes[i].next < NextFieldModulus
    {
      if i < LevelStart(D) {
        ChildBasesFit(D - 1, i);
      }
    }
  }

  /** No presence flag is raised and no deepest node is linked. */
  lemma FreshFlagsExact(D: nat)
    ensures FlagsExact(FreshHeap(D), D)
    ensures forall i | 0 <= i < |FreshHeap(D)| :: !Occupied(FreshHeap(D), D, i)
  {
    var nodes := FreshHeap(D);
    ShapeBounds(D);
    assert forall i | 0 <= i < |nodes| :: !Occupied(nodes, D, i);
  }

  /** After r rounds of decodeQuadKey, x and z hold the low r bits of the key's x and z. */
  ghost predicate DecodedRounds(k: nat, r: nat, x: nat, z: nat)
  {
    && x < Pow2(r) && z < Pow2(r)
    && x + EvenBits(Shr(k, 2 * r)) * Pow2(r) == EvenBits(k)
    && z + OddBits(Shr(k, 2 * r)) * Pow2(r) == OddBits(k)
  }

  /** One more round adds bit 2r of the key to x and bit 2r + 1 to z, both at bit r. */
  lemma DecodeOneMore(k: nat, r: nat, x: nat, z: nat)
    requires DecodedRounds(k, r, x, z)
    ensures DecodedRounds(k, r + 1, x + Bit(k, 2 * r) * Pow2(r), z + Bit(k, 2 * r + 1) * Pow2(r))
  {
    var p := Pow2(r);
    DecodeRound(k, r);
    RoundArith(x, EvenBits(Shr(k, 2 * r)), EvenBits(Shr(k, 2 * r + 2)), Bit(k, 2 * r), p, EvenBits(k));
    RoundArith(z, OddBits(Shr(k, 2 * r)), OddBits(Shr(k, 2 * r + 2)), Bit(k, 2 * r + 1), p, OddBits(k));
    assert Pow2(r + 1) == 2 * p && 2 * r + 2 == 2 * (r + 1);
  }

  /** A key bit moved to bit r is a natural number. */
  lemma PlacedBit(k: nat, i: nat, r: nat)
    ensures 0 <= Bit(k, i) * Pow2(r)
  {
  }

  lemma RoundArith(x: int, e: int, e': int, b: int, p: int, t: int)
    requires x + e * p == t && e == 2 * e' + b
    ensures (x + b * p) + e' * (2 * p) == t
  {
  }

  /**
   * The node the constructor's first loop writes at index i of level l: centre
   * step + 2 * g * step on each axis from the decoded key, child base 1 + 4i stored in the
   * bit-field, flags as the initialiser left them.
   */
  lemma BuiltNode(D: nat, i: nat, l: nat, quadKey: nat, quadKeySize: nat, step: nat, x: nat, z: nat, n: Node)
    requires l <= D && i == LevelStart(l) + quadKey && i < LevelStart(l + 1)
    requires quadKeySize == 2 * l + 1 && step == Pow2(D + 1 - l)
    requires quadKey < Pow4((quadKeySize + 1) / 2) ==> x == EvenBits(quadKey) && z == OddBits(quadKey)
    requires !AnyChild(n)
    ensures i < LevelStart(D + 1)
    ensures var cx, cz := step + 2 * (x as int) * step, step + 2 * (z as int) * step;
            n.(x := cx, z := cz, next := StoredChildBase(i)) == FreshNode(D, i).(next := StoredChildBase(i))
  {
    LevelStartSeries(l);
    assert (quadKeySize + 1) / 2 == l + 1;
    NodeCentre(D, i, l);
    CentreArith(x, step);
    CentreArith(z, step);
  }

  /**
   * Where the constructor's first loop stands: node i is the quadKey-th of level l, which
   * holds levelCount nodes, whose keys are quadKeySize bits long and whose step is step.
   */
  ghost predicate Walk(D: nat, i: nat, l: nat, quadKey: nat, levelCount: nat, quadKeySize: nat, step: nat)
  {
    && l <= D + 1 && i == LevelStart(l) + quadKey && quadKey < Pow4(l)
    && levelCount == Pow4(l) && quadKeySize == 2 * l + 1 && step == Pow2(D + 1 - l)
  }

  /** Inside the heap the walk is on a level of the tree, and one more node moves it on. */
  lemma WalkStep(D: nat, i: nat, l: nat, quadKey: nat, levelCount: nat, quadKeySize: nat, step: nat)
    requires Walk(D, i, l, quadKey, levelCount, quadKeySize, step) && i < LevelStart(D + 1)
    ensures l <= D && i < LevelStart(l + 1) && quadKeySize <= 2 * D + 1
    ensures quadKey + 1 < levelCount ==> Walk(D, i + 1, l, quadKey + 1, levelCount, quadKeySize, step)
    ensures quadKey + 1 == levelCount ==> Walk(D, i + 1, l + 1, 0, levelCount * 4, quadKeySize + 2, step / 2)
  {
    LevelStartSeries(l);
    if quadKey + 1 == levelCount {
      LevelStartMonotone(l + 1, D + 1);
    }
  }

  lemma CentreArith(g: int, s: int)
    ensures s + 2 * g * s == (2 * g + 1) * s
  {
  }

  /** When the walk has passed every node of a depth-D tree, it stands at the start of level D + 1. */
  lemma LevelDone(D: nat, l: nat, quadKey: nat)
    requires l <= D + 1 && LevelStart(l) + quadKey == LevelStart(D + 1) && quadKey < Pow4(l)
    ensures l == D + 1 && quadKey == 0 && Pow4(l) / 4 == Pow4(D)
  {
    if l <= D {
      LevelStartSeries(l);
      LevelStartMonotone(l + 1, D + 1);
    }
  }

  /** The first i nodes are laid out (centre and child base), the rest are untouched. */
  ghost predicate LaidOut(D: nat, s: seq<Node>, i: nat)
  {
    && i <= |s| <= LevelStart(D + 1)
    && (forall k | 0 <= k < i :: s[k] == FreshNode(D, k).(next := StoredChildBase(k)))
    && (forall k | i <= k < |s| :: !AnyChild(s[k]))
  }

  lemma LaidOutStep(D: nat, s: seq<Node>, i: nat, n: Node)
    requires LaidOut(D, s, i) && i < |s|
    requires n == FreshNode(D, i).(next := StoredChildBase(i))
    ensures LaidOut(D, s[i := n], i + 1)
  {
  }

  /** The deepest level starts a quarter of the next level's size before the end. */
  lemma DeepestStart(D: nat)
    ensures Pow4(D + 1) / 4 == Pow4(D) <= LevelStart(D + 1)
    ensures LevelStart(D + 1) - Pow4(D + 1) / 4 == LevelStart(D)
  {
    LevelStartSeries(D);
  }

  /** Nodes before j are final, the rest are laid out with their stored child base. */
  ghost predicate Cleared(D: nat, s: seq<Node>, j: nat)
  {
    && |s| == LevelStart(D + 1)
    && (forall k | 0 <= k < j && k < |s| :: s[k] == FreshNode(D, k))
    && (forall k | j <= k < |s| :: s[k] == FreshNode(D, k).(next := StoredChildBase(k)))
  }

  /** Above the deepest level the stored child base is exact, so those nodes are final already. */
  lemma ClearedStart(D: nat, s: seq<Node>)
    requires D <= MaxTreeHeight + 1 && LaidOut(D, s, |s|) && |s| == LevelStart(D + 1)
    ensures Cleared(D, s, LevelStart(D))
  {
    ShapeBounds(D);
    forall k | 0 <= k < LevelStart(D)
      ensures s[k] == FreshNode(D, k)
    {
      ChildBasesFit(D - 1, k);
    }
  }

  lemma ClearStep(D: nat, s: seq<Node>, j: nat)
    requires Cleared(D, s, j) && LevelStart(D) <= j < |s|
    ensures Cleared(D, s[j := s[j].(next := InvalidNext)], j + 1)
  {
    var t := s[j := s[j].(next := InvalidNext)];
    assert t[j] == FreshNode(D, j);
    assert forall k | 0 <= k < j :: t[k] == s[k];
    assert forall k | j < k < |t| :: t[k] == s[k];
  }

  lemma ClearedAll(D: nat, s: seq<Node>)
    requires Cleared(D, s, |s|)
    ensures s == FreshHeap(D)
  {
  }

  /**
   * The quadrant the descent picks from the two interval tests is the path's next child:
   * 00, 10 (z + 1), 01 (x + 1) or 11, with the x bit first and the z bit second.
   */
  lemma ChildChoice(D: nat, ux: nat, uz: nat, l: nat, inX: bool, inZ: bool)
    requires l < D && ux < Pow2(D) && uz < Pow2(D)
    requires inX <==> Bit(ux, D - l - 1) == 0
    requires inZ <==> Bit(uz, D - l - 1) == 0
    ensures PathIndex(D, ux, uz, l + 1) == 4 * PathIndex(D, ux, uz, l) + 1 + PathChild(D, ux, uz, l)
    ensures PathChild(D, ux, uz, l) == if inX then (if inZ then 0 else 2) else (if inZ then 1 else 3)
  {
    PathStep(D, ux, uz, l);
  }

  /** A link stored into the 28-bit `next` field. */
  function StoredLink(link: nat): (r: nat)
    ensures r < NextFieldModulus
    ensures link < NextFieldModulus ==> r == link
  {
    link % NextFieldModulus
  }

  // ---------------------------------------------------------------------------
  // The object

  class PseudoQuadTree<T> {
    /** heap_: every node of the complete 4-ary tree, breadth-first. */
    const heap: array<Node>
    /** leaves_: only ever appended to. */
    var leaves: seq<Leaf<T>>
    /** tree_height_: the deepest level D, one more than the height the constructor is given. */
    const height: nat

    ghost predicate Valid()
      reads this, heap
    {
      height >= 1 && Wf(heap[..], leaves, height)
    }

    /**
     * The constructor: sizes the heap as a complete tree with treeHeight + 2 levels, walks
     * it once giving each node its centre (from its decoded Morton key) and the child base
     * 1 + 4i, then clears `next` on the deepest level.
     */
    constructor (treeHeight: nat)
      requires treeHeight <= MaxTreeHeight
      ensures height == treeHeight + 1 && leaves == []
      ensures heap.Length == LevelStart(treeHeight + 2)
      ensures heap[..] == FreshHeap(height)
      ensures Valid()
      ensures fresh(heap)
    {
      HeapSizeBelowDeclaredMax(treeHeight);
      var size := HeapSizeAsWritten(treeHeight);
      heap := new Node[size](_ => Node(0, 0, InvalidNext, false, false, false, false));
      height := treeHeight + 1;
      leaves := [];
      new;
      var i, levelCount := LayOut();
      DeepestStart(height);
      // the deepest level starts levelCount / 4 nodes before the end
      ClearDeepest(i - levelCount / 4, i);
      FreshHeapWf<T>(height);
    }

    /**
     * The constructor's first loop: node i, the quadKey-th of its level, gets the centre of
     * its decoded key and the child base 1 + 4i; the level's step halves and the key grows
     * by two bits when a level is done. Returns the loop's final i and level size.
     */
    method LayOut() returns (i: nat, levelCount: nat)
      requires heap.Length == LevelStart(height + 1) && height <= MaxTreeHeight + 1
      requires forall k | 0 <= k < heap.Length :: !AnyChild(heap[k])
      modifies heap
      ensures i == heap.Length && levelCount == Pow4(height + 1)
      ensures LaidOut(height, heap[..], heap.Length)
    {
      var D := height;
      var quadKeySize: nat, quadKey: nat := 1, 0;
      i, levelCount := 0, 1;
      // area_width / 2: the area is 2^(D+2) units wide
      var step: nat := Pow2(D + 1);
      ghost var l := 0;
      while i < heap.Length
        invariant i <= heap.Length
        invariant Walk(D, i, l, quadKey, levelCount, quadKeySize, step)
        invariant LaidOut(D, heap[..], i)
      {
        WalkStep(D, i, l, quadKey, levelCount, quadKeySize, step);
        var x, z := DecodeQuadKey(quadKey, quadKeySize);
        BuiltNode(D, i, l, quadKey, quadKeySize, step, x, z, heap[i]);
        var cx, cz := step + 2 * (x as int) * step, step + 2 * (z as int) * step;
        ghost var before := heap[..];
        heap[i] := heap[i].(x := cx, z := cz, next := StoredChildBase(i));
        LaidOutStep(D, before, i, heap[i]);
        assert heap[..] == before[i := heap[i]];
        quadKey := quadKey + 1;
        if quadKey == levelCount {
          quadKey := 0;
          levelCount := levelCount * 4;
          step := step / 2;
          quadKeySize := quadKeySize + 2;
          l := l + 1;
        }
        i := i + 1;
      }
      LevelDone(D, l, quadKey);
    }

    /** The constructor's second loop: `next` becomes INVALID_NEXT on the deepest level. */
    method ClearDeepest(from: nat, to: nat)
      requires height <= MaxTreeHeight + 1 && to == heap.Length == LevelStart(height + 1)
      requires from == to - Pow4(height + 1) / 4
      requires LaidOut(height, heap[..], heap.Length)
      modifies heap
      ensures heap[..] == FreshHeap(height)
    {
      var D := height;
      DeepestStart(D);
      ClearedStart(D, heap[..]);
      var j := from;
      while j < to
        invariant from <= j <= to
        invariant Cleared(D, heap[..], j)
      {
        ghost var before := heap[..];
        heap[j] := heap[j].(next := InvalidNext);
        ClearStep(D, before, j);
        assert heap[..] == before[j := before[j].(next := InvalidNext)];
        j := j + 1;
      }
      ClearedAll(D, heap[..]);
    }

    /**
     * decodeQuadKey: round r of the loop moves bit 2r of the key to bit r of x and bit
     * 2r + 1 to bit r of z, for ceil(size / 2) rounds. So x and z are the low bits of the
     * key's even and odd bits, and the whole of them when the key fits those rounds.
     */
    static method DecodeQuadKey(quadKey: nat, quadKeySize: nat) returns (x: nat, z: nat)
      requires quadKeySize <= 32  // the mask 1U << (i + 1) is a 32-bit shift
      ensures DecodedRounds(quadKey, (quadKeySize + 1) / 2, x, z)
      ensures quadKey < Pow4((quadKeySize + 1) / 2) ==> x == EvenBits(quadKey) && z == OddBits(quadKey)
    {
      x, z := 0, 0;
      var i := 0;
      ghost var r := 0;
      while i < quadKeySize
        invariant i == 2 * r && r <= (quadKeySize + 1) / 2
        invariant DecodedRounds(quadKey, r, x, z)
      {
        var half := i / 2;
        assert half == r;
        DecodeOneMore(quadKey, r, x, z);
        PlacedBit(quadKey, i, half);
        PlacedBit(quadKey, i + 1, half);
        // x |= (quadKey & (1 << i)) >> (i / 2): bit i lands on bit i / 2 of x, which is still clear
        x := x + Bit(quadKey, i) * Pow2(half);
        z := z + Bit(quadKey, i + 1) * Pow2(half);
        i := i + 2;
        r := r + 1;
      }
      assert r == (quadKeySize + 1) / 2;
      if quadKey < Pow4(r) {
        ShrPastKey(quadKey, r);
      }
    }
  
    /**
     * addToRandomLeaves: enumerates the 2^D by 2^D deepest cells, reorders them by `order`
     * (the permutation std::shuffle applies), then pops cells from the back until `count`
     * leaves are placed. Each popped cell is one descent; an occupied cell uses up no
     * jitter draw and places nothing. The source pops from an empty list once every cell
     * has been tried; here the call stops there and reports ok == false.
     */
    method AddToRandomLeaves(value: T, count: nat, order: seq<nat>, jitter: seq<(real, real)>) returns (ok: bool)
      requires Valid()
      requires IsPermutation(order, Pow4(height))
      requires |jitter| >= count && JitterInRange(jitter)
      modifies this, heap
      ensures Valid()
      ensures var r := Populate(old(heap[..]), old(leaves), height, value, count, Shuffled(order, height), jitter);
              heap[..] == r.nodes && leaves == r.leaves && ok == r.ok
      ensures ok <==> count <= FreeCount(old(heap[..]), height, Shuffled(order, height))
      ensures |leaves| == |old(leaves)| + if ok then count else FreeCount(old(heap[..]), height, Shuffled(order, height))
      ensures ok <==> |old(leaves)| + count <= Pow4(height)
      ensures |leaves| == if ok then |old(leaves)| + count else Pow4(height)
      ensures old(leaves) <= leaves && forall k | |old(leaves)| <= k < |leaves| :: leaves[k].value == value
    {
      var D := height;
      FreeCountIsFreeCells(heap[..], leaves, D, order);
      var positions := GridPositions(order, D);
      ShuffledGrid(order, D);
      ghost var goal := Populate(heap[..], leaves, D, value, count, positions, jitter);
      PopulateCount(heap[..], leaves, D, value, count, positions, jitter);
      PopulateAppends(heap[..], leaves, D, value, count, positions, jitter);
      var stack := positions;
      var i := 0;
      ok := true;
      while i < count
        invariant PopulatingAt(goal, heap[..], leaves, D, value, count, i, stack, jitter)
        decreases |stack|
      {
        if |stack| == 0 {
          ok := false;
          break;
        }
        var (ux, uz) := stack[|stack| - 1];
        PopulatingPop(goal, heap[..], leaves, D, value, count, i, stack, jitter);
        ghost var nodes, before, popped, drawn := heap[..], leaves, stack, i;
        stack := stack[..|stack| - 1];
        var placed := Descend(ux, uz, value, jitter[i]);
        if placed {
          i := i + 1;
        }
        PopulatingNext(goal, nodes, before, D, value, count, drawn, popped, jitter, heap[..], leaves, i);
      }
      PopulateDone(heap[..], leaves, D, value, count - i, stack, jitter[i..]);
    }

    /**
     * The list of deepest cells addToRandomLeaves shuffles: cell xz of the 2^D by 2^D grid
     * is (xz % 2^D, xz / 2^D), and `order` gives the order std::shuffle leaves them in.
     */
    static method GridPositions(order: seq<nat>, D: nat) returns (positions: seq<(nat, nat)>)
      requires forall k | 0 <= k < |order| :: order[k] < Pow4(D)
      ensures positions == Shuffled(order, D)
    {
      // last_level_extent = 2U << (tree_height_ - 1U)
      var extent := Pow2(D);
      Pow4IsSquare(D);
      var cells: array<(nat, nat)> := new (nat, nat)[extent * extent];
      var xz := 0;
      while xz < cells.Length
        modifies cells
        invariant xz <= cells.Length
        invariant forall k | 0 <= k < xz :: cells[k] == GridCell(k, extent)
      {
        cells[xz] := (xz % extent, xz / extent);
        xz := xz + 1;
      }
      positions := [];
      var k := 0;
      while k < |order|
        invariant k <= |order| && |positions| == k
        invariant forall k' | 0 <= k' < k :: positions[k'] == GridCell(order[k'], extent)
      {
        positions := positions + [cells[order[k]]];
        k := k + 1;
      }
    }

    /**
     * One descent of addToRandomLeaves for cell (ux, uz): from the root, test the cell's
     * point against the first child's centre with half the current half-width, raise
     * that child's flag and move to it; at the deepest level a free cell gets the link
     * leaves.size() + 1 and the new leaf. The source's guard j < heap_.size() always
     * holds on the path, so the loop here runs over the levels instead.
     */
    method Descend(ux: nat, uz: nat, value: T, draw: (real, real)) returns (placed: bool)
      requires Shaped(heap[..], height) && ux < Pow2(height) && uz < Pow2(height)
      requires |leaves| + 1 < NextFieldModulus
      modifies this, heap
      ensures heap[..] == PlaceNodes(old(heap[..]), height, ux, uz, |old(leaves)| + 1)
      ensures placed == IsFree(old(heap[..]), height, ux, uz)
      ensures leaves == if placed then old(leaves) + [NewLeaf(value, ux, uz, draw)] else old(leaves)
    {
      var D := height;
      ghost var nodes0 := heap[..];
      // tmp_area_width = area_width_ / 2
      var width: nat := Pow2(D + 1);
      var level: nat := 0;
      var j: nat := 0;
      DescentStart(nodes0, D, ux, uz);
      while level < D
        invariant DescentAt(nodes0, heap[..], D, ux, uz, level, j, width)
        invariant leaves == old(leaves)
        decreases D - level
      {
        j := DescendLevel(nodes0, ux, uz, level, j, width);
        width := width / 2;
        level := level + 1;
      }
      DescentEnd(nodes0, heap[..], D, ux, uz, j, width, |leaves| + 1);
      placed := false;
      if heap[j].next == InvalidNext {
        heap[j] := heap[j].(next := StoredLink(|leaves| + 1));
        leaves := leaves + [NewLeaf(value, ux, uz, draw)];
        placed := true;
      }
    }

    /**
     * One level of the descent from node j, whose square has half-width `width`: the
     * cell's point is tested against child 00's square on each axis, the flag of the
     * chosen child is raised in node j and the descent moves to that child.
     */
    method DescendLevel(ghost nodes0: seq<Node>, ux: nat, uz: nat, level: nat, j: nat, width: nat)
      returns (next: nat)
      requires DescentAt(nodes0, heap[..], height, ux, uz, level, j, width) && level < height
      modifies heap
      ensures DescentAt(nodes0, heap[..], height, ux, uz, level + 1, next, width / 2)
    {
      ghost var marked := heap[..];
      DescendTests(nodes0, marked, height, ux, uz, level, j, width);
      var px, pz := 4 * ux + 2, 4 * uz + 2;
      var node := heap[j];
      var child00 := heap[node.next];
      var half := width / 2;
      // the cell's point against child 00's square, on each axis
      var inX := child00.x - half <= px < child00.x + half;
      var inZ := child00.z - half <= pz < child00.z + half;
      ChildChoice(height, ux, uz, level, inX, inZ);
      if inX {
        if inZ {
          heap[j] := node.(has00 := true);
          next := node.next;
        } else {
          heap[j] := node.(has10 := true);
          next := node.next + 2;
        }
      } else {
        if inZ {
          heap[j] := node.(has01 := true);
          next := node.next + 1;
        } else {
          heap[j] := node.(has11 := true);
          next := node.next + 3;
        }
      }
      DescendNext(nodes0, marked, height, ux, uz, level, j, width, heap[..], next, half);
    }
  }
}
