/**
 * The index-buffer builder of the OBJ loader: each face line gives its corners index
 * slots (three for a triangle, six for a quad split into two triangles), the slots are
 * collected per distinct vertex key, and a final pass writes one vertex per key and
 * points every slot at it.
 */
module ObjMesh {
  import opened ObjParse

  // ---------------------------------------------------------------------------
  // Slots of one face

  /**
   * The vertex key each index slot of a face draws, in slot order: a triangle's three
   * corners, or a quad as the two triangles (f0, f1, f2) and (f2, f3, f0).
   */
  function Corners(f: Face): (r: seq<Key>)
    ensures |r| == SlotCount(f)
  {
    match f.f3
    case None => [f.f0, f.f1, f.f2]
    case Some(k3) => [f.f0, f.f1, f.f2, f.f2, k3, f.f0]
  }

  /** How far a face advances num_indices. */
  function SlotCount(f: Face): nat
  {
    if f.f3.Some? then 6 else 3
  }

  /** One push_back or insert of the face loop: key k is given slot s. */
  datatype Push = Push(key: Key, slot: nat)

  /**
   * The slot pushes of one face starting at slot n, in the order the loop makes them:
   * f0 (and n + 5 for a quad), then f1, then f2 (and n + 3 for a quad), then f3.
   */
  function FacePushes(f: Face, n: nat): seq<Push>
  {
    match f.f3
    case None => [Push(f.f0, n), Push(f.f1, n + 1), Push(f.f2, n + 2)]
    case Some(k3) =>
      [Push(f.f0, n), Push(f.f0, n + 5), Push(f.f1, n + 1),
       Push(f.f2, n + 2), Push(f.f2, n + 3), Push(k3, n + 4)]
  }

  /** A face's pushes give each of its slots n, n + 1, ... its corner, and nothing else. */
  lemma FacePushesAreCorners(f: Face, n: nat)
    ensures forall p | p in FacePushes(f, n) ::
              n <= p.slot < n + SlotCount(f) && Corners(f)[p.slot - n] == p.key
    ensures forall j | 0 <= j < SlotCount(f) :: Push(Corners(f)[j], n + j) in FacePushes(f, n)
    ensures |FacePushes(f, n)| == SlotCount(f)
  {
    var c := Corners(f);
    if f.f3.Some? {
      assert forall j | 0 <= j < 6 :: Push(c[j], n + j) in FacePushes(f, n) by {
        var ps := FacePushes(f, n);
        assert Push(c[0], n) == ps[0] && Push(c[5], n + 5) == ps[1] && Push(c[1], n + 1) == ps[2];
        assert Push(c[2], n + 2) == ps[3] && Push(c[3], n + 3) == ps[4] && Push(c[4], n + 4) == ps[5];
      }
    } else {
      assert forall j | 0 <= j < 3 :: Push(c[j], n + j) in FacePushes(f, n) by {
        var ps := FacePushes(f, n);
        assert Push(c[0], n) == ps[0] && Push(c[1], n + 1) == ps[1] && Push(c[2], n + 2) == ps[2];
      }
    }
  }

  /** No slot is pushed twice within a face. */
  lemma FacePushesDistinct(f: Face, n: nat)
    ensures DistinctSlots(FacePushes(f, n))
  {
  }

  predicate DistinctSlots(ps: seq<Push>)
  {
    forall i, j | 0 <= i < j < |ps| :: ps[i].slot != ps[j].slot
  }

  // ---------------------------------------------------------------------------
  // Slots of a run of faces

  /** num_indices after the faces: 3 per triangle, 6 per quad. */
  function IndexCount(faces: seq<Face>): nat
  {
    if faces == [] then 0 else IndexCount(faces[..|faces| - 1]) + SlotCount(faces[|faces| - 1])
  }

  /** The key each index slot draws, slot by slot over all the faces. */
  function SlotKeys(faces: seq<Face>): (r: seq<Key>)
    ensures |r| == IndexCount(faces)
  {
    if faces == [] then [] else SlotKeys(faces[..|faces| - 1]) + Corners(faces[|faces| - 1])
  }

  /** Every push of the face loop over the faces, in order. */
  function AllPushes(faces: seq<Face>): seq<Push>
  {
    if faces == [] then []
    else
      var init := faces[..|faces| - 1];
      AllPushes(init) + FacePushes(faces[|faces| - 1], IndexCount(init))
  }

  /**
   * The pushes over all the faces give every slot below num_indices the key it draws,
   * and each slot only once.
   */
  lemma {:induction false} AllPushesAreSlots(faces: seq<Face>)
    ensures forall p | p in AllPushes(faces) :: p.slot < IndexCount(faces) && SlotKeys(faces)[p.slot] == p.key
    ensures forall s | 0 <= s < IndexCount(faces) :: Push(SlotKeys(faces)[s], s) in AllPushes(faces)
    ensures DistinctSlots(AllPushes(faces))
  {
    if faces != [] {
      var init := faces[..|faces| - 1];
      var f := faces[|faces| - 1];
      var n := IndexCount(init);
      AllPushesAreSlots(init);
      FacePushesAreCorners(f, n);
      FacePushesDistinct(f, n);
      var ps, qs := AllPushes(init), FacePushes(f, n);
      var keys := SlotKeys(faces);
      assert keys == SlotKeys(init) + Corners(f);
      assert AllPushes(faces) == ps + qs;
      forall p: Push | p in ps + qs
        ensures p.slot < IndexCount(faces) && keys[p.slot] == p.key
      {
        if p in ps {
          assert keys[p.slot] == SlotKeys(init)[p.slot];
        } else {
          assert keys[p.slot] == Corners(f)[p.slot - n];
        }
      }
      forall s | 0 <= s < IndexCount(faces)
        ensures Push(keys[s], s) in ps + qs
      {
        if s < n {
          assert keys[s] == SlotKeys(init)[s];
          assert Push(keys[s], s) in ps;
        } else {
          assert keys[s] == Corners(f)[s - n];
          assert Push(Corners(f)[s - n], n + (s - n)) in qs;
        }
      }
      forall i, j | 0 <= i < j < |ps + qs|
        ensures (ps + qs)[i].slot != (ps + qs)[j].slot
      {
        if j < |ps| {
          assert (ps + qs)[i] == ps[i] && (ps + qs)[j] == ps[j];
        } else if i < |ps| {
          assert (ps + qs)[i] in ps && (ps + qs)[j] in qs;
        } else {
          assert (ps + qs)[i] == qs[i - |ps|] && (ps + qs)[j] == qs[j - |ps|];
        }
      }
    }
  }

  // ---------------------------------------------------------------------------
  // vertices_to_indices

  type SlotMap = map<Key, seq<nat>>

  /** One push: push_back onto the key's list if the map contains it, otherwise insert a new list. */
  function Add(m: SlotMap, p: Push): SlotMap
  {
    if p.key in m then m[p.key := m[p.key] + [p.slot]] else m[p.key := [p.slot]]
  }

  /** The map after the pushes, in order. */
  function Group(m: SlotMap, ps: seq<Push>): SlotMap
  {
    if ps == [] then m else Add(Group(m, ps[..|ps| - 1]), ps[|ps| - 1])
  }

  /** Grouping a run of pushes is grouping its first part, then the rest. */
  lemma {:induction false} GroupAppend(m: SlotMap, ps: seq<Push>, qs: seq<Push>)
    ensures Group(m, ps + qs) == Group(Group(m, ps), qs)
  {
    if qs != [] {
      var last := qs[|qs| - 1];
      assert (ps + qs)[..|ps + qs| - 1] == ps + qs[..|qs| - 1];
      GroupAppend(m, ps, qs[..|qs| - 1]);
    } else {
      assert ps + qs == ps;
    }
  }

  /**
   * The map lists, under each key, exactly the slots pushed for it, each once, provided
   * the pushes never repeat a slot already in the map or among themselves.
   */
  predicate Lists(m: SlotMap, ps: seq<Push>)
  {
    && (forall k, s | k in m && s in m[k] :: Push(k, s) in ps)
    && (forall p | p in ps :: p.key in m && p.slot in m[p.key])
    && (forall k | k in m :: m[k] != [] && NoRepeats(m[k]))
  }

  predicate NoRepeats(xs: seq<nat>)
  {
    forall i, j | 0 <= i < j < |xs| :: xs[i] != xs[j]
  }

  lemma {:induction false} GroupLists(ps: seq<Push>)
    requires DistinctSlots(ps)
    ensures Lists(Group(map[], ps), ps)
  {
    if ps != [] {
      var init, p := ps[..|ps| - 1], ps[|ps| - 1];
      assert ps == init + [p];
      assert DistinctSlots(init);
      GroupLists(init);
      forall q: Push | q in init
        ensures q.slot != p.slot
      {
        var i :| 0 <= i < |init| && init[i] == q;
        assert ps[i] == q;
      }
      ListsAdd(Group(map[], init), init, p);
    }
  }

  /** A push of a fresh slot keeps the map listing exactly the pushed slots. */
  lemma ListsAdd(m: SlotMap, ps: seq<Push>, p: Push)
    requires Lists(m, ps) && forall q | q in ps :: q.slot != p.slot
    ensures Lists(Add(m, p), ps + [p])
  {
    var m' := Add(m, p);
    forall k, s | k in m' && s in m'[k]
      ensures Push(k, s) in ps + [p]
    {
      if k == p.key && s == p.slot {
      } else if k == p.key && p.key in m {
        assert s in m[k];
      }
    }
    forall k | k in m'
      ensures NoRepeats(m'[k])
    {
      if k == p.key && p.key in m {
        assert p.slot !in m[k];
      }
    }
  }

  // ---------------------------------------------------------------------------
  // The face loop

  /** The slots the face loop collects: each key lists exactly the slots that draw it, once. */
  predicate Partition(m: SlotMap, keys: seq<Key>)
  {
    && (forall k, s | k in m && s in m[k] :: s < |keys| && keys[s] == k)
    && (forall s | 0 <= s < |keys| :: keys[s] in m && s in m[keys[s]])
    && (forall k | k in m :: m[k] != [] && NoRepeats(m[k]))
  }

  /** A listed slot lies inside the slot range and draws its key. */
  lemma PartitionBound(m: SlotMap, keys: seq<Key>, k: Key, s: nat)
    requires Partition(m, keys) && k in m && s in m[k]
    ensures s < |keys| && keys[s] == k
  {
  }

  /** After the whole loop, vertices_to_indices partitions the slots among the keys. */
  lemma GroupPartition(faces: seq<Face>)
    ensures Partition(Group(map[], AllPushes(faces)), SlotKeys(faces))
  {
    AllPushesAreSlots(faces);
    GroupLists(AllPushes(faces));
  }

  /**
   * The face loop over already-parsed faces: the slot lists of one face are pushed or
   * inserted key by key, then num_indices advances by the face's slot count.
   */
  method CollectSlots(faces: seq<Face>) returns (slots: SlotMap, numIndices: nat)
    ensures numIndices == IndexCount(faces)
    ensures slots == Group(map[], AllPushes(faces))
    ensures Partition(slots, SlotKeys(faces))
  {
    slots, numIndices := map[], 0;
    var i := 0;
    while i < |faces|
      invariant i <= |faces|
      invariant numIndices == IndexCount(faces[..i])
      invariant slots == Group(map[], AllPushes(faces[..i]))
    {
      assert faces[..i + 1][..i] == faces[..i];
      GroupAppend(map[], AllPushes(faces[..i]), FacePushes(faces[i], numIndices));
      slots := AddFace(slots, faces[i], numIndices);
      numIndices := numIndices + (if faces[i].f3.Some? then 6 else 3);
      i := i + 1;
    }
    assert faces[..i] == faces;
    GroupPartition(faces);
  }

  /** One face of the loop, branch for branch: contains then push_back, else insert. */
  method AddFace(slots: SlotMap, face: Face, n: nat) returns (r: SlotMap)
    ensures r == Group(slots, FacePushes(face, n))
  {
    var isQuad := face.f3.Some?;
    // f0
    r := AddCorner(slots, face.f0, n, if isQuad then Some(n + 5) else None);
    // f1
    r := AddCorner(r, face.f1, n + 1, None);
    // f2
    r := AddCorner(r, face.f2, n + 2, if isQuad then Some(n + 3) else None);
    // f3
    if isQuad {
      r := AddCorner(r, face.f3.value, n + 4, None);
    }
    FaceGroup(slots, face, n);
  }

  /**
   * One corner's block of the face loop: if the map contains the key, push_back its slot
   * (and its second slot, for the corners a quad uses twice); otherwise insert a list of
   * them.
   */
  method AddCorner(m: SlotMap, key: Key, slot: nat, second: Option<nat>) returns (r: SlotMap)
    ensures second.None? ==> r == Add(m, Push(key, slot))
    ensures second.Some? ==> r == Add(Add(m, Push(key, slot)), Push(key, second.value))
  {
    if key in m {
      r := m[key := m[key] + [slot]];
      if second.Some? {
        r := r[key := r[key] + [second.value]];
      }
    } else {
      r := m[key := if second.Some? then [slot, second.value] else [slot]];
      assert second.Some? ==> [slot] + [second.value] == [slot, second.value];
    }
  }

  /** Grouping a face's pushes, spelled out push by push. */
  lemma FaceGroup(m: SlotMap, f: Face, n: nat)
    ensures f.f3.None? ==>
      Group(m, FacePushes(f, n)) == Add(Add(Add(m, Push(f.f0, n)), Push(f.f1, n + 1)), Push(f.f2, n + 2))
    ensures f.f3.Some? ==>
      Group(m, FacePushes(f, n))
        == Add(Add(Add(Add(Add(Add(m, Push(f.f0, n)), Push(f.f0, n + 5)), Push(f.f1, n + 1)),
                       Push(f.f2, n + 2)), Push(f.f2, n + 3)), Push(f.f3.value, n + 4))
  {
    var ps := FacePushes(f, n);
    assert ps[..0] == [];
    GroupPrefix(m, ps, 0);
    GroupPrefix(m, ps, 1);
    GroupPrefix(m, ps, 2);
    if f.f3.Some? {
      GroupPrefix(m, ps, 3);
      GroupPrefix(m, ps, 4);
      GroupPrefix(m, ps, 5);
    }
    assert ps[..|ps|] == ps;
  }

  /** Grouping one more push of a run. */
  lemma GroupPrefix(m: SlotMap, ps: seq<Push>, k: nat)
    requires k < |ps|
    ensures Group(m, ps[..k + 1]) == Add(Group(m, ps[..k]), ps[k])
  {
    assert ps[..k + 1][..k] == ps[..k];
  }

  // ---------------------------------------------------------------------------
  // Reading a vertex's attributes

  /**
   * The entry of a 1-based OBJ attribute list for component c of index v, each element
   * `width` entries wide, as std::vector::at reads it: None where at() throws. Index 0
   * and indices past the end throw.
   */
  function Entry(xs: seq<real>, v: U32, width: nat, c: nat): (r: Option<real>)
    requires c < width
  {
    if v == 0 then None
    else
      var e: nat := v - 1;
      ProductBound(width, e);
      var i := width * e + c;
      if i < |xs| then Some(xs[i]) else None
  }

  lemma ProductBound(a: nat, b: nat)
    ensures 0 <= a * b
  {
  }

  /** Element v of a 1-based list of width-wide elements exists. */
  predicate HasElement(xs: seq<real>, v: U32, width: nat)
  {
    1 <= v && width * v <= |xs|
  }

  /**
   * The 8 floats of one vertex: 3 of the position, 2 of the texture coordinate and 3 of
   * the normal the key names, or None if any of the 8 at() calls throws.
   */
  function Attributes(k: Key, positions: seq<real>, texcoords: seq<real>, normals: seq<real>): Option<seq<real>>
  {
    var p0, p1, p2 := Entry(positions, k.v, 3, 0), Entry(positions, k.v, 3, 1), Entry(positions, k.v, 3, 2);
    var t0, t1 := Entry(texcoords, k.vt, 2, 0), Entry(texcoords, k.vt, 2, 1);
    var n0, n1, n2 := Entry(normals, k.vn, 3, 0), Entry(normals, k.vn, 3, 1), Entry(normals, k.vn, 3, 2);
    if p0.Some? && p1.Some? && p2.Some? && t0.Some? && t1.Some? && n0.Some? && n1.Some? && n2.Some?
    then Some([p0.value, p1.value, p2.value, t0.value, t1.value, n0.value, n1.value, n2.value])
    else None
  }

  /**
   * A key's vertex exists exactly when all three of its 1-based indices name an element
   * of their list, and it is those elements one after the other.
   */
  lemma AttributesAreElements(k: Key, positions: seq<real>, texcoords: seq<real>, normals: seq<real>)
    ensures var r := Attributes(k, positions, texcoords, normals);
            && (r.Some? <==> HasElement(positions, k.v, 3) && HasElement(texcoords, k.vt, 2) && HasElement(normals, k.vn, 3))
            && (r.Some? ==> r.value == positions[3 * (k.v - 1)..3 * k.v] + texcoords[2 * (k.vt - 1)..2 * k.vt]
                                        + normals[3 * (k.vn - 1)..3 * k.vn])
  {
    var r := Attributes(k, positions, texcoords, normals);
    if r.Some? {
      var v, vt, vn := k.v - 1, k.vt - 1, k.vn - 1;
      var p, t, n := positions[3 * v..3 * v + 3], texcoords[2 * vt..2 * vt + 2], normals[3 * vn..3 * vn + 3];
      assert r.value == [p[0], p[1], p[2]] + [t[0], t[1]] + [n[0], n[1], n[2]];
      assert p == [p[0], p[1], p[2]] && t == [t[0], t[1]] && n == [n[0], n[1], n[2]];
    }
  }

  // ---------------------------------------------------------------------------
  // The index arithmetic as written

  /**
   * The at() index the source computes, in std::uint32_t: `vertex[i] - 1` and the
   * product with the width wrap around modulo 2^32.
   */
  function AsWrittenIndex(v: U32, width: nat, c: nat): (i: U32)
    requires c < width <= 3
  {
    (width * ((v + U32Modulus - 1) % U32Modulus) + c) % U32Modulus
  }

  /** Without wrap-around the written index is the 1-based element's entry. */
  lemma AsWrittenIndexAgrees(v: U32, width: nat, c: nat)
    requires c < width <= 3 && 1 <= v && width * v <= U32Modulus
    ensures AsWrittenIndex(v, width, c) == width * (v - 1) + c
  {
  }

  /**
   * A position index of 1431655767 wraps: 3 * 1431655766 is 2^32 + 2, so at() reads
   * entry 2 of a three-vertex list instead of throwing.
   */
  lemma AsWrittenIndexWraps(positions: seq<real>)
    requires |positions| == 9
    ensures AsWrittenIndex(1431655767, 3, 0) == 2 < |positions|
    ensures Entry(positions, 1431655767, 3, 0).None?
  {
  }

  // ---------------------------------------------------------------------------
  // The assembly pass

  /** The vertex and index buffers the loader uploads. */
  datatype Mesh = Mesh(vertices: seq<real>, indices: seq<nat>)

  /** Every key of the list has a vertex. */
  ghost predicate AllPresent(order: seq<Key>, positions: seq<real>, texcoords: seq<real>, normals: seq<real>)
  {
    forall j | 0 <= j < |order| :: Attributes(order[j], positions, texcoords, normals).Some?
  }

  /** The vertex buffer for keys written in this order: their attributes one after the other. */
  ghost function Vertices(order: seq<Key>, positions: seq<real>, texcoords: seq<real>, normals: seq<real>): seq<real>
    requires AllPresent(order, positions, texcoords, normals)
  {
    if order == [] then []
    else
      var init := order[..|order| - 1];
      assert AllPresent(init, positions, texcoords, normals) by {
        forall j | 0 <= j < |init|
          ensures Attributes(init[j], positions, texcoords, normals).Some?
        {
          assert init[j] == order[j];
        }
      }
      Vertices(init, positions, texcoords, normals)
        + Attributes(order[|order| - 1], positions, texcoords, normals).value
  }

  /** The 8 floats of vertex i of a buffer. */
  function Vertex(vertices: seq<real>, i: nat): seq<real>
    requires 8 * i + 8 <= |vertices|
  {
    vertices[8 * i..8 * i + 8]
  }

  /** Vertex j of the buffer is the attributes of the j-th key written. */
  lemma {:induction false} VertexBlocks(order: seq<Key>, positions: seq<real>, texcoords: seq<real>, normals: seq<real>)
    requires AllPresent(order, positions, texcoords, normals)
    ensures |Vertices(order, positions, texcoords, normals)| == 8 * |order|
    ensures forall j | 0 <= j < |order| ::
      Vertex(Vertices(order, positions, texcoords, normals), j) == Attributes(order[j], positions, texcoords, normals).value
  {
    if order != [] {
      var init, last := order[..|order| - 1], order[|order| - 1];
      var vs := Vertices(order, positions, texcoords, normals);
      var front := Vertices(init, positions, texcoords, normals);
      AttributesAreElements(last, positions, texcoords, normals);
      VertexBlocks(init, positions, texcoords, normals);
      assert vs == front + Attributes(last, positions, texcoords, normals).value;
      forall j | 0 <= j < |order|
        ensures Vertex(vs, j) == Attributes(order[j], positions, texcoords, normals).value
      {
        if j < |init| {
          assert init[j] == order[j];
          assert Vertex(vs, j) == Vertex(front, j);
        }
      }
    }
  }

  /**
   * Every slot of a key already written points at a written vertex whose key lists that
   * slot.
   */
  ghost predicate IndexedBy(indices: seq<nat>, order: seq<Key>, slots: SlotMap)
  {
    forall j, s | 0 <= j < |order| && order[j] in slots && s in slots[order[j]] ::
      && s < |indices|
      && indices[s] < |order|
      && order[indices[s]] in slots
      && s in slots[order[indices[s]]]
  }

  /** Writing the next key's slots with its vertex number keeps every written slot pointing right. */
  lemma IndexedStep(indices: seq<nat>, indices': seq<nat>, order: seq<Key>, k: Key, slots: SlotMap)
    requires IndexedBy(indices, order, slots) && k in slots
    requires |indices'| == |indices| && forall s | s in slots[k] :: s < |indices|
    requires forall s | 0 <= s < |indices'| :: indices'[s] == if s in slots[k] then |order| else indices[s]
    ensures IndexedBy(indices', order + [k], slots)
  {
    var order' := order + [k];
    forall j, s | 0 <= j < |order'| && order'[j] in slots && s in slots[order'[j]]
      ensures s < |indices'| && indices'[s] < |order'| && order'[indices'[s]] in slots && s in slots[order'[indices'[s]]]
    {
      if s !in slots[k] {
        assert j < |order| && order[j] == order'[j];
        assert order'[indices[s]] == order[indices[s]];
      }
    }
  }

  /** indices[index] = true_index for every slot of one key's list. */
  method Fill(indices: array<nat>, list: seq<nat>, value: nat)
    requires forall s | s in list :: s < indices.Length
    modifies indices
    ensures forall s | 0 <= s < indices.Length :: indices[s] == if s in list then value else old(indices[s])
  {
    var i := 0;
    while i < |list|
      invariant i <= |list|
      invariant forall s | 0 <= s < indices.Length :: indices[s] == if s in list[..i] then value else old(indices[s])
    {
      assert list[..i + 1] == list[..i] + [list[i]] && list[i] in list;
      indices[list[i]] := value;
      i := i + 1;
    }
    assert list[..i] == list;
  }

  /**
   * The pass over vertices_to_indices: each key, in the map's own (unspecified) order,
   * appends its 8 floats and gives its vertex number to every slot it lists. The ghost
   * order records the order the keys were visited in. The result is None when an at()
   * call throws.
   */
  method Assemble(slots: SlotMap, numIndices: nat, positions: seq<real>, texcoords: seq<real>, normals: seq<real>)
    returns (r: Option<Mesh>, ghost order: seq<Key>)
    requires forall k, s | k in slots && s in slots[k] :: s < numIndices
    ensures r.None? <==> exists k | k in slots :: Attributes(k, positions, texcoords, normals).None?
    ensures r.Some? ==>
      && (forall k :: k in slots <==> k in order)
      && (forall i, j | 0 <= i < j < |order| :: order[i] != order[j])
      && AllPresent(order, positions, texcoords, normals)
      && r.value.vertices == Vertices(order, positions, texcoords, normals)
      && |r.value.indices| == numIndices
      && IndexedBy(r.value.indices, order, slots)
  {
    var indices := new nat[numIndices](_ => 0);
    var vertices: seq<real> := [];
    var remaining := slots.Keys;
    var trueIndex := 0;
    order := [];
    while remaining != {}
      invariant remaining <= slots.Keys
      invariant forall k :: k in slots <==> k in remaining || k in order
      invariant forall k | k in order :: k !in remaining
      invariant forall i, j | 0 <= i < j < |order| :: order[i] != order[j]
      invariant AllPresent(order, positions, texcoords, normals)
      invariant vertices == Vertices(order, positions, texcoords, normals)
      invariant trueIndex == |order|
      invariant IndexedBy(indices[..], order, slots)
      decreases remaining
    {
      var k :| k in remaining;
      var attrs := Attributes(k, positions, texcoords, normals);
      if attrs.None? {
        return None, order;
      }
      vertices := vertices + attrs.value;
      ghost var before := indices[..];
      Fill(indices, slots[k], trueIndex);
      IndexedStep(before, indices[..], order, k, slots);
      order := order + [k];
      remaining := remaining - {k};
      trueIndex := trueIndex + 1;
    }
    r := Some(Mesh(vertices, indices[..]));
  }

  // ---------------------------------------------------------------------------
  // The loader end to end

  /**
   * Faces to buffers: the face loop, then the assembly pass. Every index slot points at a
   * vertex holding the attributes of the key its face corner names, two slots share a
   * vertex exactly when their keys are equal, and the result is None exactly when some
   * corner names an element that does not exist.
   */
  method Load(faces: seq<Face>, positions: seq<real>, texcoords: seq<real>, normals: seq<real>)
    returns (r: Option<Mesh>)
    ensures r.None? <==>
      exists s | 0 <= s < IndexCount(faces) :: Attributes(SlotKeys(faces)[s], positions, texcoords, normals).None?
    ensures r.Some? ==> |r.value.indices| == IndexCount(faces) && |r.value.vertices| % 8 == 0
    ensures r.Some? ==> forall s | 0 <= s < |r.value.indices| ::
      && 8 * r.value.indices[s] + 8 <= |r.value.vertices|
      && Attributes(SlotKeys(faces)[s], positions, texcoords, normals) == Some(Vertex(r.value.vertices, r.value.indices[s]))
    ensures r.Some? ==> forall s, t | 0 <= s < |r.value.indices| && 0 <= t < |r.value.indices| ::
      r.value.indices[s] == r.value.indices[t] <==> SlotKeys(faces)[s] == SlotKeys(faces)[t]
  {
    var slots, numIndices := CollectSlots(faces);
    ghost var keys := SlotKeys(faces);
    forall k, s | k in slots && s in slots[k]
      ensures s < numIndices
    {
      PartitionBound(slots, keys, k, s);
    }
    ghost var order;
    r, order := Assemble(slots, numIndices, positions, texcoords, normals);
    if r.None? {
      ghost var k :| k in slots && Attributes(k, positions, texcoords, normals).None?;
      MissingSlot(keys, slots, k, positions, texcoords, normals);
      ghost var s :| 0 <= s < |keys| && Attributes(keys[s], positions, texcoords, normals).None?;
      assert 0 <= s < IndexCount(faces) && Attributes(SlotKeys(faces)[s], positions, texcoords, normals).None?;
    } else {
      LoadedSlots(keys, slots, order, r.value, positions, texcoords, normals);
      assert !exists s | 0 <= s < IndexCount(faces) :: Attributes(SlotKeys(faces)[s], positions, texcoords, normals).None? by {
        forall s | 0 <= s < IndexCount(faces)
          ensures Attributes(SlotKeys(faces)[s], positions, texcoords, normals).Some?
        {
          assert SlotKeys(faces)[s] == keys[s];
        }
      }
    }
  }

  /** A key without a vertex is drawn by some slot. */
  lemma MissingSlot(keys: seq<Key>, slots: SlotMap, k: Key, positions: seq<real>, texcoords: seq<real>, normals: seq<real>)
    requires Partition(slots, keys) && k in slots && Attributes(k, positions, texcoords, normals).None?
    ensures exists s | 0 <= s < |keys| :: Attributes(keys[s], positions, texcoords, normals).None?
  {
    var s := slots[k][0];
    PartitionBound(slots, keys, k, s);
  }

  /** The Some case of Load: each slot reaches the vertex of its own key. */
  lemma LoadedSlots(keys: seq<Key>, slots: SlotMap, order: seq<Key>, mesh: Mesh,
                    positions: seq<real>, texcoords: seq<real>, normals: seq<real>)
    requires Partition(slots, keys) && |mesh.indices| == |keys|
    requires forall k :: k in slots <==> k in order
    requires forall i, j | 0 <= i < j < |order| :: order[i] != order[j]
    requires AllPresent(order, positions, texcoords, normals)
    requires mesh.vertices == Vertices(order, positions, texcoords, normals)
    requires IndexedBy(mesh.indices, order, slots)
    ensures |mesh.vertices| % 8 == 0
    ensures forall s | 0 <= s < |keys| ::
      && mesh.indices[s] < |order|
      && order[mesh.indices[s]] == keys[s]
      && 8 * mesh.indices[s] + 8 <= |mesh.vertices|
      && Attributes(keys[s], positions, texcoords, normals) == Some(Vertex(mesh.vertices, mesh.indices[s]))
    ensures forall s, t | 0 <= s < |keys| && 0 <= t < |keys| ::
      mesh.indices[s] == mesh.indices[t] <==> keys[s] == keys[t]
  {
    VertexBlocks(order, positions, texcoords, normals);
    SlotsNameOwnKey(keys, slots, order, mesh.indices);
    forall s | 0 <= s < |keys|
      ensures 8 * mesh.indices[s] + 8 <= |mesh.vertices|
      ensures Attributes(keys[s], positions, texcoords, normals) == Some(Vertex(mesh.vertices, mesh.indices[s]))
    {
      var i := mesh.indices[s];
      assert Attributes(order[i], positions, texcoords, normals).Some?;
    }
  }

  /** Each slot's vertex number is the position of the slot's own key in the visiting order. */
  lemma SlotsNameOwnKey(keys: seq<Key>, slots: SlotMap, order: seq<Key>, indices: seq<nat>)
    requires Partition(slots, keys) && |indices| == |keys|
    requires forall k :: k in slots <==> k in order
    requires IndexedBy(indices, order, slots)
    ensures forall s | 0 <= s < |keys| :: indices[s] < |order| && order[indices[s]] == keys[s]
  {
    forall s | 0 <= s < |keys|
      ensures indices[s] < |order| && order[indices[s]] == keys[s]
    {
      var j :| 0 <= j < |order| && order[j] == keys[s];
      assert s in slots[order[j]];
    }
  }

}
