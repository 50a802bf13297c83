# RW_cube core, modelled in Dafny

This project models three parts of the RW_cube renderer.

- **The pseudo quad-tree** (`include/PseudoQuadTree.hpp`). It is a fixed-depth spatial index stored as a flat
  array `heap_` in breadth-first order: node `i` has its four children at `4i+1 .. 4i+4`. Each node carries
  its centre, four "has child" flags and a 28-bit `next` field. On inner nodes `next` is the child base. On a
  deepest-level node it is 0 when the cell is empty, or `1 + index` of the leaf in `leaves_`. The project
  models:
  - the constructor, which sizes the heap, lays out the centres from decoded Morton (Z-order) keys and clears
    the deepest level;
  - `decodeQuadKey`;
  - `addToRandomLeaves`, which shuffles the deepest cells and walks down the tree from the root to each drawn
    cell, raising flags and linking a new leaf into a free cell;
  - the `Iterator`'s depth-first walk, both plain and pruned by a predicate.

  Files: `morton.dfy` (Z-order keys and level arithmetic), `quadtree_layout.dfy` (the node and leaf types and
  the tree's well-formedness), `quadtree_placement.dfy` (placement as functions on values),
  `quadtree_traversal.dfy` (the walks) and `quadtree.dfy` (the `PseudoQuadTree` class and its methods).
- **The OBJ loader core** (`src/Model.cpp`), in two files:
  - `obj_parse.dfy`: `FaceElementHasher` and `parseFace`, built on `std::from_chars`;
  - `obj_mesh.dfy`: the `f`-line loop, which gives each face corner its index slots (a quad is split into two
    triangles), and the final pass, which writes one 8-float vertex per distinct `v/vt/vn` key and points
    every slot at it.
- **The cube texture** (`src/CubeTexture.cpp`, modelled in `cube_texture.dfy`). It covers the six face offsets
  in a 4x3 cross image and the upside-down, row-by-row copy of each face.

Geometry of the quad-tree is exact. Positions are measured in quarters of a deepest cell from the area's
corner, so the whole area is `2^(D+2)` units wide, where `D = tree_height_`. The source's float world
coordinates are a monotone affine image of these units, so every comparison the descent makes comes out the
same. A leaf's jittered position is a `real`.

Main results:
- The freshly built tree is well formed. `addToRandomLeaves` keeps it well formed, and it places `count`
  leaves exactly when that many deepest cells are still free (`|leaves| + count <= 4^height`).
- The plain walk yields the deepest level's links in Z-order, and each leaf exactly once. The predicate walk
  yields a subsequence of the plain walk, and the whole walk when the predicate accepts everything.
- `parseFace` inverts writing a face line.
- The packed hash is injective on 21-bit indices.
- The loader's index buffer points every slot at a vertex holding its own key's attributes. Two slots share a
  vertex exactly when they share a key.
- Each cube face is its cell of the cross, flipped. The six faces never overlap.

## Model

| member | source | states |
|---|---|---|
| Morton.LevelStartSeries | include/PseudoQuadTree.hpp:51-52 | the first index of level l+1 is the first of level l plus 4^l, and 3·start(l)+1 = 4^l (the geometric series of the comment) |
| Morton.LevelOfRange | include/PseudoQuadTree.hpp:71-77 | an index between the starts of levels l and l+1 lies on level l, as the constructor's level counter tracks |
| Morton.ChildLevel | include/PseudoQuadTree.hpp:70 | the children 4i+1+c of a level-l node all lie on level l+1 |
| Morton.InterleaveOfDecode | include/PseudoQuadTree.hpp:177-186 | re-interleaving the decoded even bits (x) and odd bits (z) of a quad key gives back the key |
| Morton.DecodeOfInterleave | include/PseudoQuadTree.hpp:177-186 | decoding the interleaving of x and z gives back x and z |
| Morton.InterleaveInjective | include/PseudoQuadTree.hpp:177-186 | distinct (x, z) pairs have distinct quad keys |
| Morton.DecodeBound | include/PseudoQuadTree.hpp:177-186 | a key below 4^L decodes to x and z below 2^L |
| Morton.InterleaveBound | include/PseudoQuadTree.hpp:177-186 | x and z below 2^L interleave to a key below 4^L |
| Morton.DecodeRound | include/PseudoQuadTree.hpp:180-183 | decoding the key from bit 2j on gives x = bit 2j + 2·(the decode from bit 2j+2) and z = bit 2j+1 + 2·(the same), so each round adds one bit to x and one to z |
| QuadTreeLayout.KeyOnLevel | include/PseudoQuadTree.hpp:60-77 | node i on level l has quad key i minus the level's start, and that key is below 4^l |
| QuadTreeLayout.ChildKey | include/PseudoQuadTree.hpp:70 | child c of node i has key 4·key(i)+c: its x and z gain bit c%2 and bit c/2 |
| QuadTreeLayout.NodeCentre | include/PseudoQuadTree.hpp:64-76 | a level-l node's centre is (2·x+1)·step and (2·z+1)·step, with step 2^(D+1-l) and x, z the decoded key |
| QuadTreeLayout.LeafCountBound | include/PseudoQuadTree.hpp:133-141 | leaves linked once each number at most 4^D, and every link 1+index fits the 28-bit field |
| QuadTreeLayout.DeepestLevelFits | include/PseudoQuadTree.hpp:22 | the deepest level of the largest supported tree has fewer cells than 2^28 - 1 |
| QuadTreeLayout.PathOnLevel | include/PseudoQuadTree.hpp:130-173 | the descent towards cell (ux, uz) is at the root on level 0, on node key interleave(ancestors) on level l, and at the cell's own node on the deepest level |
| QuadTreeLayout.PathStep | include/PseudoQuadTree.hpp:151-166 | the next node of the descent is child next+c of the current node |
| QuadTreeLayout.PathParent | include/PseudoQuadTree.hpp:146-168 | a node on the descent has its parent and its quadrant on the descent one level up |
| QuadTreeLayout.QuadrantTest | include/PseudoQuadTree.hpp:147-148 | a cell centre lies within half a child's width of child 00's centre exactly when the cell lies in the lower half on that axis |
| QuadTree.HeapSizeAsWritten | include/PseudoQuadTree.hpp:52 | the heap-size initialiser in the source's int32 arithmetic with a 32-bit shift and truncating division; HeapSizeBelowDeclaredMax and HeapSizeWrapsAtDeclaredMax prove what it yields |
| QuadTree.StoredChildBase | include/PseudoQuadTree.hpp:70 | the child base 1 + 4i as the 28-bit next field stores it: always below 2^28 |
| QuadTree.FreshHeap | include/PseudoQuadTree.hpp:66-84 | the heap the constructor lays out, with (4^(D+1)-1)/3 nodes; FreshTopology, FreshFlagsExact and FreshHeapWf prove its shape |
| QuadTree.HeapSizeBelowDeclaredMax | include/PseudoQuadTree.hpp:52 | below MAX_TREE_HEIGHT, the int32 and truncating-division initialiser is the node count of a complete tree with H+2 levels |
| QuadTree.HeapSizeWrapsAtDeclaredMax | include/PseudoQuadTree.hpp:52 | at the declared maximum height 14 the 32-bit shift wraps and the heap is sized 0 |
| QuadTree.HeapSizeIsLayout | include/PseudoQuadTree.hpp:51-52 | the corrected size (4^(H+2)-1)/3 is the complete tree's node count and agrees with the source below height 14 |
| QuadTree.ChildBaseOverflowsAt13 | include/PseudoQuadTree.hpp:70 | at height 13 the last inner node's child base 1+4i does not fit the 28-bit next field |
| QuadTree.ChildBasesFit | include/PseudoQuadTree.hpp:70 | up to height 12 every inner node's 28-bit next holds exactly 1+4i |
| QuadTree.StoredLink | include/PseudoQuadTree.hpp:135 | the value stored in next is a 28-bit value, and a link below 2^28 is stored unchanged |
| QuadTree.FreshTopology | include/PseudoQuadTree.hpp:66-79 | the laid-out heap has every node centred on its cell and every inner node's next at 1+4i |
| QuadTree.FreshFlagsExact | include/PseudoQuadTree.hpp:80-84 | in the fresh heap no flag is raised and no node has a leaf below it |
| QuadTree.FreshHeapWf | include/PseudoQuadTree.hpp:45-85 | the fresh heap with no leaves is well formed, and its walk yields nothing |
| QuadTree.PseudoQuadTree.constructor | include/PseudoQuadTree.hpp:45-85 | the heap has (4^(H+2)-1)/3 nodes laid out as the fresh heap, tree_height_ is H+1, there are no leaves, and the tree is well formed |
| QuadTree.PseudoQuadTree.LayOut | include/PseudoQuadTree.hpp:66-79 | after the loop every node has its decoded centre and next = 1+4i, and the level counter has reached 4^(D+1) |
| QuadTree.PseudoQuadTree.ClearDeepest | include/PseudoQuadTree.hpp:80-84 | clearing next from i - count/4 to i leaves exactly the fresh heap |
| QuadTree.PseudoQuadTree.DecodeQuadKey | include/PseudoQuadTree.hpp:177-186 | after (size+1)/2 rounds, x and z hold the decoded bits of the rounds done, and they are exactly the even and odd bits of any key that fits |
| QuadTree.PseudoQuadTree.GridPositions | include/PseudoQuadTree.hpp:91-105 | position k is (xz % extent, xz / extent) of the shuffled enumeration number order[k] |
| QuadTree.PseudoQuadTree.Descend | include/PseudoQuadTree.hpp:127-173 | one descent raises the flags along the path to the cell, links a leaf into the cell exactly when the cell is free, and appends that one leaf |
| QuadTree.PseudoQuadTree.DescendLevel | include/PseudoQuadTree.hpp:146-172 | one level of the descent raises the chosen child's flag and moves to that child, halving the width |
| QuadTree.PseudoQuadTree.AddToRandomLeaves | include/PseudoQuadTree.hpp:87-175 | keeps the tree well formed; succeeds exactly when count leaves fit in the free deepest cells (|leaves| + count ≤ 4^height), and otherwise fills every deepest cell; appends only leaves holding value, earlier leaves untouched |
| QuadTreePlacement.Shuffled | include/PseudoQuadTree.hpp:93-105 | the shuffled enumeration numbers turned into (xz % extent, xz / extent) grid positions, one per number, all on the grid; ShuffledGrid proves it holds every cell once |
| QuadTreePlacement.PlaceNodes | include/PseudoQuadTree.hpp:127-173 | one descent as a function on the node array, of the same length; PlacedAt, PlaceFrame and PlaceFreePreservesWf prove what it changes |
| QuadTreePlacement.NewLeaf | include/PseudoQuadTree.hpp:107-140 | the leaf pushed for cell (ux, uz): value at the cell centre plus the jitter; NewLeafInCell proves it lies inside its cell |
| QuadTreePlacement.Populate | include/PseudoQuadTree.hpp:120-174 | the placement loop as a function popping positions from the back; PopulateCount, PopulateAppends and PopulatePreservesWf prove its outcome |
| QuadTreePlacement.ShuffledOnGrid | include/PseudoQuadTree.hpp:96-100 | every enumerated position lies on the extent × extent grid |
| QuadTreePlacement.GridCellBijective | include/PseudoQuadTree.hpp:93-100 | the enumeration xz ↦ (xz % extent, xz / extent) is one-to-one onto the grid |
| QuadTreePlacement.ShuffledGrid | include/PseudoQuadTree.hpp:93-105 | a shuffle of the enumeration holds every grid cell exactly once |
| QuadTreePlacement.PlacedAt | include/PseudoQuadTree.hpp:130-173 | a node the descent passes gets the chosen child's flag, any other node is unchanged, and the cell's node gets the link only if it was empty |
| QuadTreePlacement.PlaceFrame | include/PseudoQuadTree.hpp:130-173 | the same for all nodes at once: off-path nodes are unchanged, on-path nodes gain exactly their flag |
| QuadTreePlacement.PlaceOccupiedIsIdentity | include/PseudoQuadTree.hpp:133-143 | placing into an occupied cell changes no node, because its path's flags are already raised |
| QuadTreePlacement.OccupiedAfter | include/PseudoQuadTree.hpp:146-168 | after placing into a free cell, a node has a leaf below it exactly when it had one before or lies on the path |
| QuadTreePlacement.PlaceAddsLink | include/PseudoQuadTree.hpp:133-141 | placing into a free cell links the new leaf number once and keeps every earlier leaf linked once |
| QuadTreePlacement.NewLeafInCell | include/PseudoQuadTree.hpp:107-140 | the new leaf, at the cell centre plus a jitter within 0.9 of the half-cell, lies inside its cell |
| QuadTreePlacement.PlaceKeepsInCell | include/PseudoQuadTree.hpp:133-141 | after a placement every linked deepest node's leaf lies in that node's cell |
| QuadTreePlacement.PlaceFreePreservesWf | include/PseudoQuadTree.hpp:133-143 | placing into a free cell keeps the tree well formed with the new leaf appended |
| QuadTreePlacement.PlacePreservesWf | include/PseudoQuadTree.hpp:130-173 | one descent keeps the tree well formed, whether or not the cell was free |
| QuadTreePlacement.PopulatePreservesWf | include/PseudoQuadTree.hpp:120-174 | the whole placement loop keeps the tree well formed |
| QuadTreePlacement.PopulateCount | include/PseudoQuadTree.hpp:120-174 | the loop succeeds exactly when count ≤ the free drawn cells, and adds count leaves, or one per free drawn cell when the positions are exhausted |
| QuadTreeCapacity.FreeCountIsFreeCells | include/PseudoQuadTree.hpp:93-141 | in a well-formed tree, the shuffled list of all 4^D cells meets exactly 4^D - |leaves| free cells |
| QuadTreeCapacity.FreeCountIsCard | include/PseudoQuadTree.hpp:96-141 | over distinct enumeration numbers, the free cells met are counted once each |
| QuadTreeCapacity.FreeCellsAreFreeNodes | include/PseudoQuadTree.hpp:93-141 | the free grid cells correspond one-to-one to the deepest nodes whose next is INVALID_NEXT |
| QuadTreeCapacity.LinksAndFree | include/PseudoQuadTree.hpp:133-141 | every deepest node is either linked to a leaf or free, so the free ones are 4^D minus the links |
| QuadTreeCapacity.CellNodeIsCell | include/PseudoQuadTree.hpp:93-100 | the deepest node an enumeration number designates lies on the deepest level, and distinct numbers designate distinct nodes |
| QuadTreeCapacity.NodeHasCell | include/PseudoQuadTree.hpp:60-77 | every deepest node is designated by some enumeration number |
| QuadTreePlacement.PopulateAppends | include/PseudoQuadTree.hpp:136-140 | the loop only appends to leaves_, and every appended leaf holds value |
| QuadTreeTraversal.Traverse | include/PseudoQuadTree.hpp:209-218 | depthFirstTraversal() without a predicate, from the root; TraverseIsDeepLinks and TraverseVisitsEachLeafOnce prove it yields every leaf once, in Z-order |
| QuadTreeTraversal.Dfs | include/PseudoQuadTree.hpp:226-265 | the plain walk below a node: a deepest node yields its link, an inner node its flagged children in order 00, 01, 10, 11; DfsIsLinks proves it yields its subtree's links |
| QuadTreeTraversal.Child | include/PseudoQuadTree.hpp:233-264 | one flagged child's part of the plain walk, nothing for an unflagged child; EmptySubtree proves skipping it loses no leaf |
| QuadTreeTraversal.TraverseWith | include/PseudoQuadTree.hpp:216-222 | depthFirstTraversal() with a predicate, started only when the root is accepted; TraverseWithIsSubsequence and TraverseWithAcceptAll prove what it visits |
| QuadTreeTraversal.DfsWith | include/PseudoQuadTree.hpp:266-317 | the pruned walk below a node, testing the predicate on each deepest link and each flagged child; DfsWithEmbeds and AcceptAllIsDfs prove it is a subsequence of the plain walk, and all of it when everything is accepted |
| QuadTreeTraversal.ChildWith | include/PseudoQuadTree.hpp:273-317 | one child's part of the pruned walk, entered only when it is flagged and accepted |
| QuadTreeTraversal.DfsIsLinks | include/PseudoQuadTree.hpp:226-265 | the plain walk below a node yields the links of its subtree's deepest nodes in Z-order |
| QuadTreeTraversal.SubtreeSplit | include/PseudoQuadTree.hpp:233-264 | a node's deepest links are those of children 00, 01, 10, 11 in that order |
| QuadTreeTraversal.EmptySubtree | include/PseudoQuadTree.hpp:233-264 | a node with nothing below it has no linked deepest node, so skipping unflagged children loses nothing |
| QuadTreeTraversal.TraverseIsDeepLinks | include/PseudoQuadTree.hpp:209-265 | the walk from the root is the deepest level's links in index order |
| QuadTreeTraversal.DeepLinksVisitEachLeafOnce | include/PseudoQuadTree.hpp:226-232 | in a well-formed tree the deepest level's links name every leaf exactly once and nothing else |
| QuadTreeTraversal.TraverseVisitsEachLeafOnce | include/PseudoQuadTree.hpp:209-265 | the plain walk hands value_action every leaf exactly once |
| QuadTreeTraversal.AcceptAllIsDfs | include/PseudoQuadTree.hpp:266-317 | below any node, the predicate walk with an all-accepting predicate is the plain walk |
| QuadTreeTraversal.TraverseWithAcceptAll | include/PseudoQuadTree.hpp:209-222 | from the root, the predicate walk with an all-accepting predicate is the plain walk |
| QuadTreeTraversal.DfsWithEmbeds | include/PseudoQuadTree.hpp:266-317 | below any node, the predicate walk's visits embed in order into the plain walk's |
| QuadTreeTraversal.TraverseWithIsSubsequence | include/PseudoQuadTree.hpp:209-317 | the pruned walk visits a subsequence of the plain walk's leaves |
| ObjParse.Hash | src/Model.cpp:24-32 | FaceElementHasher's or of the components shifted by 0, 21 and 42 in size_t; the hash fits 64 bits |
| ObjParse.HashIsSum | src/Model.cpp:24-32 | for components below 2^21, the or of the shifted components is their sum in base 2^21 |
| ObjParse.HashInjective | src/Model.cpp:24-32 | for components below 2^21, two keys hash alike exactly when they are equal |
| ObjParse.HashOverlapsFrom21Bits | src/Model.cpp:27-28 | from 21 bits on, a position index collides with a texture index |
| ObjParse.FromChars | src/Model.cpp:39-41 | from_chars stops inside the range, and keeps the value when it reads no digit |
| ObjParse.DecimalRoundTrip | src/Model.cpp:39 | the decimal digits of n are digits, and they denote n |
| ObjParse.FromCharsDecimal | src/Model.cpp:39-41 | from_chars over a written number followed by a non-digit reads that number and stops after it |
| ObjParse.FindSpace | src/Model.cpp:38 | find_first_of(' ') returns the first space at or after from, or npos when there is none |
| ObjParse.ParseFace | src/Model.cpp:34-67 | a face is read exactly when the line holds at least two spaces, and it is a quad (f3 set) exactly when the line holds at least three |
| ObjParse.FindSpaceCount | src/Model.cpp:38-48 | find_first_of(' ', from) finds npos exactly when no space is left, and a found space is one of those left |
| ObjParse.SpacesCount | src/Model.cpp:38-49 | the line is cut when it holds two spaces, and a third cut is found exactly when it holds three |
| ObjParse.ParseKey | src/Model.cpp:39-41 | the three from_chars calls of one `a/b/c` group into a zeroed key, each after the first starting one past where the previous stopped; ParseKeyRoundTrip proves a written group reads back |
| ObjParse.Fields | src/Model.cpp:39-41 | n chained from_chars calls over a group yield n values |
| ObjParse.ParseKeyRoundTrip | src/Model.cpp:37-41 | reading a written `a/b/c` group gives back its key |
| ObjParse.ParseFaceRoundTrip | src/Model.cpp:34-67 | reading a written triangle or quad line gives back the face, with f3 present exactly for quads |
| ObjMesh.FacePushesAreCorners | src/Model.cpp:256-306 | a face's pushes are its 3 or 6 slots n.., each with the corner of the triangle fan (f0 f1 f2, f2 f3 f0) |
| ObjMesh.FacePushesDistinct | src/Model.cpp:256-304 | no slot is pushed twice for one face |
| ObjMesh.AllPushesAreSlots | src/Model.cpp:249-315 | over all faces, slot s is pushed exactly once, with the key of slot s |
| ObjMesh.FaceGroup | src/Model.cpp:256-304 | the map after one face is the map with the source's pushes in the source's order (f0: n, n+5; f1: n+1; f2: n+2, n+3; f3: n+4) |
| ObjMesh.GroupPartition | src/Model.cpp:249-315 | the collected map sends each key to exactly the slots that draw it |
| ObjMesh.AddCorner | src/Model.cpp:257-269 | pushing a corner's one or two slots onto its list, or inserting a new list |
| ObjMesh.AddFace | src/Model.cpp:256-304 | one face adds its corners' pushes to the map |
| ObjMesh.CollectSlots | src/Model.cpp:249-315 | num_indices is the faces' slot count and the map partitions the slots by key |
| ObjMesh.Corners | src/Model.cpp:256-306 | the corners a face's slots draw, 3 or 6 (the fan f0 f1 f2, f2 f3 f0), as many as num_indices advances; FacePushesAreCorners ties them to the slots pushed |
| ObjMesh.Entry | src/Model.cpp:342-351 | one at() read of component c of 1-based element v, None where at() throws; AttributesAreElements proves which reads succeed |
| ObjMesh.Attributes | src/Model.cpp:342-351 | the eight at() reads of one key, None if any throws; AttributesAreElements proves it is the key's three elements |
| ObjMesh.AsWrittenIndex | src/Model.cpp:342-351 | the at() index as the source computes it in uint32 arithmetic; AsWrittenIndexAgrees and AsWrittenIndexWraps prove where it is right and where it wraps |
| ObjMesh.AttributesAreElements | src/Model.cpp:342-351 | the eight at() reads succeed exactly when the key's three 1-based indices name elements, and then return those elements in order |
| ObjMesh.AsWrittenIndexAgrees | src/Model.cpp:342-351 | without wrap-around the uint32 index is width·(v-1)+c |
| ObjMesh.AsWrittenIndexWraps | src/Model.cpp:342 | index 1431655767 wraps to entry 2 of a three-vertex list, which the corrected reading rejects |
| ObjMesh.VertexBlocks | src/Model.cpp:341-352 | vertex j of the buffer is the eight attributes of the j-th key visited |
| ObjMesh.IndexedStep | src/Model.cpp:353-356 | pointing a key's slots at the next true_index keeps every visited key's slots indexed |
| ObjMesh.Fill | src/Model.cpp:353-355 | the key's slots now hold true_index, and every other slot is unchanged |
| ObjMesh.Assemble | src/Model.cpp:330-357 | fails exactly when a key's attributes are missing; otherwise it visits each key once, writes its vertex and points its slots at it |
| ObjMesh.MissingSlot | src/Model.cpp:342-351 | a key without attributes is the key of some slot |
| ObjMesh.SlotsNameOwnKey | src/Model.cpp:341-356 | each slot's index is the position, in the visiting order, of the slot's own key |
| ObjMesh.LoadedSlots | src/Model.cpp:330-357 | every slot points at a vertex holding its own key's attributes, and two slots share a vertex exactly when they share a key |
| ObjMesh.Load | src/Model.cpp:249-357 | loading fails exactly when some slot's key lacks attributes; otherwise the index buffer has one entry per slot, each naming its key's vertex, shared exactly by equal keys |
| CubeMap.FaceOffsets | src/CubeTexture.cpp:21-28 | the six face offsets the constructor computes, one per face; OffsetsAreCross proves each is the top-left byte of its cell |
| CubeMap.OffsetsAreCross | src/CubeTexture.cpp:21-28 | each face offset is the top-left byte of its cell in the 4x3 cross (+y above, -x +z +x -z across, -y below) |
| CubeMap.FaceBytesInCell | src/CubeTexture.cpp:21-45 | byte b of face row r is the image byte in that face's cell at row r, column b |
| CubeMap.FacesInImage | src/CubeTexture.cpp:21-45 | every face's last row ends inside the 4·w·h image bytes |
| CubeMap.PixelsDistinct | src/CubeTexture.cpp:40 | distinct (row, byte) positions are distinct image bytes |
| CubeMap.FacesDisjoint | src/CubeTexture.cpp:21-45 | no image byte is copied into two faces or into two places of one face |
| CubeMap.SourceInImage | src/CubeTexture.cpp:38-45 | every byte a flipped face reads lies in the image |
| CubeMap.FlipCopy | src/CubeTexture.cpp:35-45 | a face has face_stride·face_height bytes, each the image byte its row and column select |
| CubeMap.SourceOfRow | src/CubeTexture.cpp:39-43 | byte b of face row r comes from image row face_height-1-r below the offset |
| CubeMap.FlipCopyBytes | src/CubeTexture.cpp:39-43 | the same in the source's arithmetic: face byte r·face_stride+b is image byte offset+(face_height-1-r)·stride+b |
| CubeMap.CopyRow | src/CubeTexture.cpp:39-43 | std::copy writes n image bytes into the row and nothing else |
| CubeMap.CopiedNext | src/CubeTexture.cpp:37-45 | each iteration extends the copied tail of the face by one flipped row |
| CubeMap.CopyFace | src/CubeTexture.cpp:34-45 | the face buffer is the flipped copy of its rows |
| CubeMap.CubeTexture.constructor | src/CubeTexture.cpp:7-52 | the six faces are the flipped copies of their cells, every row lies in the image, and width, height are w/4 and h/3 |

## Left out

- Floating point. Node centres are exact integers in quarter-cell units, and leaf positions are reals. The
  area's world origin and size are left out: they are a monotone affine map of these units, and the descent's
  comparisons are unaffected by them. Float rounding is not modelled.
- Randomness. `std::random_device`, `mt19937`, `std::shuffle` and `uniform_real_distribution` are inputs:
  - the shuffle is a permutation `order` of the enumeration numbers;
  - the jitters are a sequence of pairs within ±1.8 units, 0.9 of the half-cell.
- QuadTree.PseudoQuadTree.AddToRandomLeaves: when the shuffled positions are exhausted before `count` leaves are
  placed, the source pops an empty vector, which is undefined behaviour. The model stops there instead and
  returns `ok == false`, keeping what was placed.
- QuadTree.PseudoQuadTree.constructor: requires a height of at most 12. Above that the source's own
  arithmetic breaks (see Findings), although it declares MAX_TREE_HEIGHT = 14 and checks nothing.
- QuadTreeTraversal.TraverseWith: the Iterator's `value_action` is modelled as the sequence of leaf indices
  it would be handed. The predicate is a pure function of the node copy, its square's side (in units) and its
  level. Side effects of either callback are left out.
- The Iterator's `tree_height_` and `level` are `uint8`. The model's heights stay far below 256.
- ObjParse.FromChars: a range whose start lies past its end reads nothing and keeps the value, here 0. The
  source reaches one when a group has fewer than three numbers: in `1/1 2/2 3/3` the third from_chars of each
  group starts one past the group's end (src/Model.cpp:41, 46, 52, 58, 63). Passing such a range to
  std::from_chars is undefined behaviour, so this is a choice of the model, not the source's behaviour.
- ObjParse.ParseFace: a line with fewer than two spaces gives `None`. The source indexes the line at `npos`
  there, which is undefined behaviour.
- Not part of this model:
  - the OBJ line-reading loop (getline look-ahead, `find_first_not_of` skipping leading spaces);
  - the `v`/`vt`/`vn` float parsers;
  - `mtllib`/`usemtl`;
  - the GL buffer calls.

  The attribute lists are inputs, and the face lines reach the collection loop as parsed faces.
- ObjMesh.CollectSlots: `num_indices` is an unbounded count. The source's `uint32_t` would wrap past 2^32
  slots.
- ObjMesh.Assemble: the `unordered_map` iteration order is a nondeterministic choice. The model keeps the
  order it chose as a ghost out-parameter. An `at()` that throws `std::out_of_range` becomes `None` for the
  whole load. `true_index` is unbounded.
- FaceElementHasher only affects the `unordered_map`'s bucket choice, not its contents. The map is modelled
  as a Dafny map keyed by the vertex key itself, and the hash's properties are proved on their own.
- lodepng decoding is left out: the decoded RGBA bytes and the width and height are inputs, with
  `|img| == 4·w·h`.
- CubeMap.CubeTexture.constructor: requires the image to be smaller than 4 GiB, so that the `uint32_t`
  offsets cannot wrap. The `int32_t` casts of the face size are left out, because the face size is below
  2^31 under that bound.

## Findings

| source | as written | input that shows it | evidently intended | confidence | as-written member | corrected member |
|---|---|---|---|---|---|---|
| include/PseudoQuadTree.hpp:52 | `4U << (2U*(tree_height + 1))` is a 32-bit shift, so at the declared MAX_TREE_HEIGHT = 14 it wraps to 0 and the heap is sized (1 - 0) / (1 - 4) = 0 | tree_height = 14 | a heap of (4^(H+2) - 1) / 3 nodes for every allowed height | not executed | QuadTree.HeapSizeWrapsAtDeclaredMax | QuadTree.HeapSizeIsLayout |
| include/PseudoQuadTree.hpp:70 | `node.next = 1 + (i * 4)` is stored in a 28-bit field, and at height 13 the child base of the last inner node exceeds 2^28 and is truncated | tree_height = 13, i = (4^14 - 1) / 3 - 1 | every inner node's next equals 1 + 4i, which needs heights of at most 12 | not executed | QuadTree.ChildBaseOverflowsAt13 | QuadTree.ChildBasesFit |
| src/Model.cpp:342 | `3 * (vertex[0] - 1) + 0` is computed in `uint32_t`, so a huge index wraps to a small one and `at()` reads a wrong element instead of throwing | v = 1431655767 with three positions: 3 · 1431655766 = 2^32 + 2 reads entry 2 | a position index past the list is rejected | not executed | ObjMesh.AsWrittenIndexWraps | ObjMesh.AttributesAreElements |
