/** `get_bbox_offset`: the translation that puts the midpoint of a glyph's
    bounding box on the centre of the canvas, using Python's floor division. */
module Centering {

  /** A bounding box as PIL's `getbbox` returns it: (left, top, right, bottom). */
  datatype BBox = BBox(xmin: int, ymin: int, xmax: int, ymax: int)

  /** `image_size` is either one number (a square canvas) or a (width, height) pair. */
  datatype ImageSize = Square(side: int) | Pair(width: int, height: int)

  datatype Offset = Offset(dx: int, dy: int)

  function Width(size: ImageSize): int {
    match size
    case Square(s) => s
    case Pair(w, _) => w
  }

  function Height(size: ImageSize): int {
    match size
    case Square(s) => s
    case Pair(_, h) => h
  }

  /** Python's `a // 2`: the floor of a / 2, also for negative a. Dafny's
      Euclidean division agrees with it because the divisor is positive. */
  function FloorHalf(a: int): (r: int)
    ensures 2 * r <= a < 2 * r + 2
  {
    a / 2
  }

  /** The offset `get_bbox_offset` returns. On each axis, after moving the box
      by the offset, the floor midpoint of the box equals the floor half of
      the canvas extent. */
  function BBoxOffset(box: BBox, size: ImageSize): (off: Offset)
    ensures FloorHalf((box.xmin + off.dx) + (box.xmax + off.dx)) == FloorHalf(Width(size))
    ensures FloorHalf((box.ymin + off.dy) + (box.ymax + off.dy)) == FloorHalf(Height(size))
  {
    var centerX := FloorHalf(Width(size));
    var centerY := FloorHalf(Height(size));
    Offset(centerX - FloorHalf(box.xmin + box.xmax), centerY - FloorHalf(box.ymin + box.ymax))
  }

  /** Moving both ends of an interval by d moves its floor midpoint by d. */
  lemma FloorHalfShift(a: int, d: int)
    ensures FloorHalf(a + 2 * d) == FloorHalf(a) + d
  {
  }

  /** The horizontal offset is the only shift that centres the box horizontally. */
  lemma CenteringUniqueX(box: BBox, size: ImageSize, d: int)
    ensures FloorHalf((box.xmin + d) + (box.xmax + d)) == FloorHalf(Width(size))
        <==> d == BBoxOffset(box, size).dx
  {
    FloorHalfShift(box.xmin + box.xmax, d);
  }

  /** The vertical offset is the only shift that centres the box vertically. */
  lemma CenteringUniqueY(box: BBox, size: ImageSize, d: int)
    ensures FloorHalf((box.ymin + d) + (box.ymax + d)) == FloorHalf(Height(size))
        <==> d == BBoxOffset(box, size).dy
  {
    FloorHalfShift(box.ymin + box.ymax, d);
  }

  /** The two axes are independent: the horizontal offset depends only on the
      horizontal extent of the box and the canvas width, and likewise vertically. */
  lemma AxesIndependent(b1: BBox, s1: ImageSize, b2: BBox, s2: ImageSize)
    ensures b1.xmin == b2.xmin && b1.xmax == b2.xmax && Width(s1) == Width(s2)
        ==> BBoxOffset(b1, s1).dx == BBoxOffset(b2, s2).dx
    ensures b1.ymin == b2.ymin && b1.ymax == b2.ymax && Height(s1) == Height(s2)
        ==> BBoxOffset(b1, s1).dy == BBoxOffset(b2, s2).dy
  {
  }

  /** A single number as `image_size` means the square canvas (s, s). */
  lemma SquareIsPair(box: BBox, s: int)
    ensures BBoxOffset(box, Square(s)) == BBoxOffset(box, Pair(s, s))
  {
  }

  /** Where the box lands does not depend on where it started: translating the
      box by (tx, ty) changes the offset by exactly (-tx, -ty). */
  lemma OffsetTranslation(box: BBox, size: ImageSize, tx: int, ty: int)
    ensures var moved := BBox(box.xmin + tx, box.ymin + ty, box.xmax + tx, box.ymax + ty);
      && BBoxOffset(moved, size).dx == BBoxOffset(box, size).dx - tx
      && BBoxOffset(moved, size).dy == BBoxOffset(box, size).dy - ty
  {
    FloorHalfShift(box.xmin + box.xmax, tx);
    FloorHalfShift(box.ymin + box.ymax, ty);
  }
}
