/**
 * Unfolding a cube-map texture. The decoded RGBA image holds the six faces as a 4x3
 * cross; each face is copied out row by row into its own buffer, upside down.
 */
module CubeMap {

  /** The six faces in the order of face_textures. */
  datatype Side = PosX | NegX | PosY | NegY | PosZ | NegZ

  const Sides: seq<Side> := [PosX, NegX, PosY, NegY, PosZ, NegZ]

  /**
   * Where each face sits in the 4x3 cross, as (row, column) of face-sized cells:
   *
   *          +y
   *     -x   +z   +x   -z
   *          -y
   */
  function CellRow(s: Side): nat
  {
    match s
    case PosY => 0
    case NegY => 2
    case _ => 1
  }

  function CellColumn(s: Side): nat
  {
    match s
    case NegX => 0
    case PosY | NegY | PosZ => 1
    case PosX => 2
    case NegZ => 3
  }

  // ---------------------------------------------------------------------------
  // Offsets

  /**
   * The byte offset of each face's first row, as the constructor computes it from the
   * image width w and height h (in pixels): a row is stride = 4w bytes, a face is
   * face_stride = w bytes wide and face_height = h / 3 rows high.
   */
  function FaceOffsets(w: nat, h: nat): (r: seq<nat>)
    ensures |r| == 6
  {
    var stride, faceStride, faceHeight := 4 * w, w, h / 3;
    var band := faceHeight * stride;
    [band + 2 * faceStride, band, faceStride, 2 * band + faceStride, band + faceStride, band + 3 * faceStride]
  }

  /** Each offset is the top-left byte of the face's cell in the cross. */
  lemma OffsetsAreCross(w: nat, h: nat)
    ensures forall i | 0 <= i < 6 ::
      FaceOffsets(w, h)[i] == CellRow(Sides[i]) * (h / 3) * (4 * w) + CellColumn(Sides[i]) * w
  {
    var band := (h / 3) * (4 * w);
    assert 2 * (h / 3) * (4 * w) == 2 * band;
  }

  /** The byte of image row y, byte column x. */
  function Pixel(w: nat, y: nat, x: nat): nat
  {
    y * (4 * w) + x
  }

  /**
   * Byte b of row r of a face is the image byte at row (cell row) * face_height + r and
   * byte column (cell column) * face_stride + b: the face's rows run through its own cell.
   */
  lemma FaceBytesInCell(w: nat, h: nat, i: nat, r: nat, b: nat)
    requires i < 6
    ensures FaceOffsets(w, h)[i] + r * (4 * w) + b
         == Pixel(w, CellRow(Sides[i]) * (h / 3) + r, CellColumn(Sides[i]) * w + b)
  {
    OffsetsAreCross(w, h);
    var y := CellRow(Sides[i]) * (h / 3);
    assert (y + r) * (4 * w) == y * (4 * w) + r * (4 * w);
  }

  /**
   * Every face row lies inside the image: the last row of every face ends at or before
   * the end of the 4 * w * h decoded bytes.
   */
  lemma FacesInImage(w: nat, h: nat, i: nat)
    requires i < 6 && h / 3 >= 1
    ensures FaceOffsets(w, h)[i] + (h / 3 - 1) * (4 * w) + w <= 4 * w * h
  {
    var fh := h / 3;
    FaceBytesInCell(w, h, i, fh - 1, w);
    var y, x := CellRow(Sides[i]) * fh + fh - 1, CellColumn(Sides[i]) * w + w;
    assert y + 1 <= 3 * fh <= h by {
      assert CellRow(Sides[i]) * fh <= 2 * fh;
    }
    assert x <= 4 * w by {
      assert CellColumn(Sides[i]) * w <= 3 * w;
    }
    calc {
      Pixel(w, y, x);
    ==
      y * (4 * w) + x;
    <= { MulMonotone(y, h - 1, 4 * w); }
      (h - 1) * (4 * w) + 4 * w;
    ==
      4 * w * h;
    }
  }

  lemma MulMonotone(a: nat, b: nat, n: nat)
    requires a <= b
    ensures a * n <= b * n
  {
  }

  /** Two bytes of the image in different places of the same grid are different bytes. */
  lemma PixelsDistinct(w: nat, y: nat, x: nat, y': nat, x': nat)
    requires x < 4 * w && x' < 4 * w
    requires (y, x) != (y', x')
    ensures Pixel(w, y, x) != Pixel(w, y', x')
  {
    if y < y' {
      MulMonotone(y + 1, y', 4 * w);
    } else if y' < y {
      MulMonotone(y' + 1, y, 4 * w);
    }
  }

  /**
   * No image byte is read by two different faces, nor by two different places of one
   * face: the faces' cells do not overlap.
   */
  lemma FacesDisjoint(w: nat, h: nat, i: nat, r: nat, b: nat, j: nat, r': nat, b': nat)
    requires i < 6 && j < 6
    requires r < h / 3 && b < w && r' < h / 3 && b' < w
    requires (i, r, b) != (j, r', b')
    ensures FaceOffsets(w, h)[i] + r * (4 * w) + b != FaceOffsets(w, h)[j] + r' * (4 * w) + b'
  {
    var fh := h / 3;
    FaceBytesInCell(w, h, i, r, b);
    FaceBytesInCell(w, h, j, r', b');
    var ri, ci, rj, cj := CellRow(Sides[i]), CellColumn(Sides[i]), CellRow(Sides[j]), CellColumn(Sides[j]);
    var y, x, y', x' := ri * fh + r, ci * w + b, rj * fh + r', cj * w + b';
    assert x < 4 * w && x' < 4 * w by {
      MulMonotone(ci, 3, w);
      MulMonotone(cj, 3, w);
    }
    if (y, x) == (y', x') {
      CellPart(ri, r, rj, r', fh);
      CellPart(ci, b, cj, b', w);
      assert false;
    }
    PixelsDistinct(w, y, x, y', x');
  }

  /** A coordinate splits uniquely into a cell and a place inside the cell. */
  lemma CellPart(c: nat, p: nat, c': nat, p': nat, n: nat)
    requires p < n && p' < n && c * n + p == c' * n + p'
    ensures c == c' && p == p'
  {
    if c < c' {
      MulMonotone(c + 1, c', n);
    } else if c' < c {
      MulMonotone(c' + 1, c, n);
    }
  }

  // ---------------------------------------------------------------------------
  // The row-flipped copy

  /**
   * a * n as repeated addition. The copy's row arithmetic is stated with it so that its
   * proofs stay linear; TimesIsProduct connects it to the product.
   */
  function Times(a: nat, n: nat): nat
  {
    if a == 0 then 0 else Times(a - 1, n) + n
  }

  lemma {:induction false} TimesIsProduct(a: nat, n: nat)
    ensures Times(a, n) == a * n == n * a
  {
    if a > 0 {
      TimesIsProduct(a - 1, n);
    }
  }

  lemma {:induction false} TimesMonotone(a: nat, b: nat, n: nat)
    requires a <= b
    ensures Times(a, n) <= Times(b, n)
  {
    if a < b {
      TimesMonotone(a, b - 1, n);
    }
  }

  /** Rows 0 .. rows-1 starting at offset all lie inside the image. */
  predicate RowsIn(img: seq<bv8>, offset: nat, stride: nat, faceStride: nat, rows: nat)
  {
    rows == 0 || offset + Times(rows - 1, stride) + faceStride <= |img|
  }

  /** Fewer rows from the same offset lie inside the image too. */
  lemma RowsInPrefix(img: seq<bv8>, offset: nat, stride: nat, faceStride: nat, rows: nat, fewer: nat)
    requires RowsIn(img, offset, stride, faceStride, rows) && fewer <= rows
    ensures RowsIn(img, offset, stride, faceStride, fewer)
  {
    if 0 < fewer {
      TimesMonotone(fewer - 1, rows - 1, stride);
    }
  }

  /**
   * The image byte that byte pos of a flipped face buffer of `rows` rows holds: face row 0
   * is image row rows-1 below offset, face row 1 is image row rows-2, and so on.
   */
  function SourceOf(offset: nat, stride: nat, faceStride: nat, rows: nat, pos: nat): nat
    requires pos < Times(rows, faceStride)
  {
    if pos < faceStride then offset + Times(rows - 1, stride) + pos
    else SourceOf(offset, stride, faceStride, rows - 1, pos - faceStride)
  }

  /** Every byte a flipped face buffer draws lies inside the image. */
  lemma {:induction false} SourceInImage(img: seq<bv8>, offset: nat, stride: nat, faceStride: nat, rows: nat, pos: nat)
    requires RowsIn(img, offset, stride, faceStride, rows) && pos < Times(rows, faceStride)
    ensures SourceOf(offset, stride, faceStride, rows, pos) < |img|
  {
    if faceStride <= pos {
      RowsInPrefix(img, offset, stride, faceStride, rows, rows - 1);
      SourceInImage(img, offset, stride, faceStride, rows - 1, pos - faceStride);
    }
  }

  /** The face buffer: the first rows rows below offset, turned upside down. */
  function FlipCopy(img: seq<bv8>, offset: nat, stride: nat, faceStride: nat, rows: nat): (r: seq<bv8>)
    requires RowsIn(img, offset, stride, faceStride, rows)
    ensures |r| == Times(rows, faceStride)
    ensures forall pos | 0 <= pos < |r| ::
      SourceOf(offset, stride, faceStride, rows, pos) < |img| && r[pos] == img[SourceOf(offset, stride, faceStride, rows, pos)]
  {
    assert forall pos | 0 <= pos < Times(rows, faceStride) :: SourceOf(offset, stride, faceStride, rows, pos) < |img| by {
      forall pos | 0 <= pos < Times(rows, faceStride) {
        SourceInImage(img, offset, stride, faceStride, rows, pos);
      }
    }
    seq(Times(rows, faceStride), pos requires 0 <= pos < Times(rows, faceStride) =>
      img[SourceOf(offset, stride, faceStride, rows, pos)])
  }

  /** Byte b of face row r comes from byte b of image row src, where r + src = rows - 1. */
  lemma {:induction false} SourceOfRow(offset: nat, stride: nat, faceStride: nat, rows: nat, r: nat, src: nat, b: nat)
    requires r + src + 1 == rows && b < faceStride
    ensures Times(r, faceStride) + b < Times(rows, faceStride)
    ensures SourceOf(offset, stride, faceStride, rows, Times(r, faceStride) + b) == offset + Times(src, stride) + b
  {
    TimesMonotone(r + 1, rows, faceStride);
    if r > 0 {
      SourceOfRow(offset, stride, faceStride, rows - 1, r - 1, src, b);
      assert Times(r, faceStride) + b - faceStride == Times(r - 1, faceStride) + b;
    }
  }

  /**
   * The flip in the source's own arithmetic: byte b of face row r is the image byte at
   * offset + src * stride + b, where src = rows - 1 - r.
   */
  lemma FlipCopyBytes(img: seq<bv8>, offset: nat, stride: nat, faceStride: nat, rows: nat, r: nat, src: nat, b: nat)
    requires RowsIn(img, offset, stride, faceStride, rows)
    requires r + src + 1 == rows && b < faceStride
    ensures var flipped := FlipCopy(img, offset, stride, faceStride, rows);
      && r * faceStride + b < |flipped|
      && offset + src * stride + b < |img|
      && flipped[r * faceStride + b] == img[offset + src * stride + b]
  {
    SourceOfRow(offset, stride, faceStride, rows, r, src, b);
    TimesIsProduct(r, faceStride);
    TimesIsProduct(src, stride);
  }

  /**
   * The inner while loop for one face: face_texture is resized to face_height rows of
   * face_stride bytes, and iteration h_i copies image row h_i below the offset into face
   * row face_height - 1 - h_i.
   */
  method CopyFace(img: seq<bv8>, offset: nat, stride: nat, faceStride: nat, faceHeight: nat)
    returns (face: array<bv8>)
    requires RowsIn(img, offset, stride, faceStride, faceHeight)
    ensures fresh(face)
    ensures face[..] == FlipCopy(img, offset, stride, faceStride, faceHeight)
  {
    TimesIsProduct(faceHeight, faceStride);
    face := new bv8[faceStride * faceHeight](_ => 0);
    var hi := 0;
    while hi < faceHeight
      invariant hi <= faceHeight
      invariant Copied(face[..], img, offset, stride, faceStride, faceHeight, hi)
    {
      ghost var before := face[..];
      var dst := (faceHeight - 1 - hi) * faceStride;
      var src := offset + hi * stride;
      TimesIsProduct(faceHeight - 1 - hi, faceStride);
      TimesIsProduct(hi, stride);
      RowBounds(img, offset, stride, faceStride, faceHeight, hi);
      CopyRow(face, dst, img, src, faceStride);
      CopiedNext(before, face[..], img, offset, stride, faceStride, faceHeight, hi);
      hi := hi + 1;
    }
    assert face[..] == FlipCopy(img, offset, stride, faceStride, faceHeight);
  }

  /** After hi iterations the last hi face rows hold their flipped image rows. */
  ghost predicate Copied(face: seq<bv8>, img: seq<bv8>, offset: nat, stride: nat, faceStride: nat, faceHeight: nat, hi: nat)
    requires hi <= faceHeight
  {
    && |face| == Times(faceHeight, faceStride)
    && forall pos | Times(faceHeight - hi, faceStride) <= pos < |face| ::
         SourceOf(offset, stride, faceStride, faceHeight, pos) < |img|
         && face[pos] == img[SourceOf(offset, stride, faceStride, faceHeight, pos)]
  }

  /** The source and destination rows of iteration hi lie inside the image and the face. */
  lemma RowBounds(img: seq<bv8>, offset: nat, stride: nat, faceStride: nat, faceHeight: nat, hi: nat)
    requires RowsIn(img, offset, stride, faceStride, faceHeight) && hi < faceHeight
    ensures offset + Times(hi, stride) + faceStride <= |img|
    ensures Times(faceHeight - 1 - hi, faceStride) + faceStride == Times(faceHeight - hi, faceStride)
    ensures Times(faceHeight - hi, faceStride) <= Times(faceHeight, faceStride)
  {
    TimesMonotone(hi, faceHeight - 1, stride);
    TimesMonotone(faceHeight - hi, faceHeight, faceStride);
  }

  /** std::copy of one row: n bytes from img[src..] onto buf[dst..]. */
  method CopyRow(buf: array<bv8>, dst: nat, img: seq<bv8>, src: nat, n: nat)
    requires dst + n <= buf.Length && src + n <= |img|
    modifies buf
    ensures forall q | 0 <= q < buf.Length ::
      buf[q] == if dst <= q < dst + n then img[src + (q - dst)] else old(buf[q])
  {
    forall b | 0 <= b < n {
      buf[dst + b] := img[src + b];
    }
  }

  /** Copying row hi into face row faceHeight-1-hi extends the copied tail by one row. */
  lemma CopiedNext(before: seq<bv8>, after: seq<bv8>, img: seq<bv8>, offset: nat, stride: nat, faceStride: nat, faceHeight: nat, hi: nat)
    requires hi < faceHeight
    requires Copied(before, img, offset, stride, faceStride, faceHeight, hi)
    requires offset + Times(hi, stride) + faceStride <= |img|
    requires Times(faceHeight - 1 - hi, faceStride) + faceStride == Times(faceHeight - hi, faceStride)
    requires var dst, src := Times(faceHeight - 1 - hi, faceStride), offset + Times(hi, stride);
      && |after| == |before|
      && forall q | 0 <= q < |after| :: after[q] == if dst <= q < dst + faceStride then img[src + (q - dst)] else before[q]
    ensures Copied(after, img, offset, stride, faceStride, faceHeight, hi + 1)
  {
    var dst, src := Times(faceHeight - 1 - hi, faceStride), offset + Times(hi, stride);
    forall pos | dst <= pos < |after|
      ensures SourceOf(offset, stride, faceStride, faceHeight, pos) < |img|
      ensures after[pos] == img[SourceOf(offset, stride, faceStride, faceHeight, pos)]
    {
      if pos < dst + faceStride {
        SourceOfRow(offset, stride, faceStride, faceHeight, faceHeight - 1 - hi, hi, pos - dst);
      }
    }
  }

  // ---------------------------------------------------------------------------
  // The texture

  /** The unfolded cube map: six face buffers and the face size in pixels. */
  class CubeTexture {
    var faceTextures: seq<array<bv8>>
    var width: int
    var height: int

    /**
     * From the decoded w x h RGBA image: face i is the row-flipped copy of its cell of the
     * cross, and the face size is w / 4 by h / 3 pixels.
     */
    constructor (img: seq<bv8>, w: nat, h: nat)
      requires |img| == 4 * w * h < 0x1_0000_0000 && h < 0x1_0000_0000
      ensures |faceTextures| == 6
      ensures forall i | 0 <= i < 6 :: fresh(faceTextures[i])
      ensures forall i | 0 <= i < 6 ::
        RowsIn(img, FaceOffsets(w, h)[i], 4 * w, w, h / 3)
        && faceTextures[i][..] == FlipCopy(img, FaceOffsets(w, h)[i], 4 * w, w, h / 3)
      ensures width == w / 4 && height == h / 3
    {
      var channelNum := 4;
      var stride := w * channelNum;
      var faceStride := w;
      var faceHeight := h / 3;
      var offsets := FaceOffsets(w, h);
      var faces: seq<array<bv8>> := [];
      var i := 0;
      while i < 6
        invariant i <= 6 && |faces| == i
        invariant forall f | 0 <= f < i :: fresh(faces[f])
        invariant forall f | 0 <= f < i ::
          RowsIn(img, offsets[f], stride, faceStride, faceHeight)
          && faces[f][..] == FlipCopy(img, offsets[f], stride, faceStride, faceHeight)
      {
        if faceHeight >= 1 {
          FacesInImage(w, h, i);
          TimesIsProduct(faceHeight - 1, stride);
        }
        var face := CopyFace(img, offsets[i], stride, faceStride, faceHeight);
        faces := faces + [face];
        i := i + 1;
      }
      faceTextures := faces;
      width := w / channelNum;
      height := faceHeight;
    }
  }
}
