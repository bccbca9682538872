/** Rectangles of the capture frame: clamping to the frame and integer scaling. */
module Geometry {
  import opened Config

  /** An OpenCV `Rect`: the top-left corner is (x, y); it covers the columns
      x .. x + width - 1 and the rows y .. y + height - 1. */
  datatype Rect = Rect(x: int, y: int, width: int, height: int) {

    predicate FitsI32() {
      IsI32(x) && IsI32(y) && IsI32(width) && IsI32(height)
    }

    predicate Covers(row: int, col: int) {
      y <= row < y + height && x <= col < x + width
    }

    /** A rectangle with no pixel in it. */
    predicate IsEmpty() {
      width <= 0 || height <= 0
    }

    /** The invariant clamping establishes. It still admits a rectangle whose
        origin lies at or past the right or bottom edge, with a non-positive
        width or height. */
    predicate InCaptureBounds() {
      0 <= x && 0 <= y && x + width <= CaptureWidth && y + height <= CaptureHeight
    }
  }

  predicate InFrame(row: int, col: int) {
    0 <= row < CaptureHeight && 0 <= col < CaptureWidth
  }

  /** The i32 sums `x + width` and `y + height` that clamping computes, taken
      after a negative origin has been moved to 0, do not overflow. */
  predicate ClampDefined(r: Rect) {
    && r.FitsI32()
    && (if r.x < 0 then r.width else r.x + r.width) <= I32Max
    && (if r.y < 0 then r.height else r.y + r.height) <= I32Max
  }

  /** clamp_rect_to_image_bounds: a negative origin coordinate is moved to 0,
      then width and height are cut back so the rectangle ends inside the frame. */
  function Clamp(r: Rect): (c: Rect)
    requires ClampDefined(r)
    ensures c.FitsI32()
    ensures c.InCaptureBounds()
    ensures c.width <= r.width && c.height <= r.height
  {
    var x := if r.x < 0 then 0 else r.x;
    var y := if r.y < 0 then 0 else r.y;
    var width := if x + r.width > CaptureWidth then CaptureWidth - x else r.width;
    var height := if y + r.height > CaptureHeight then CaptureHeight - y else r.height;
    Rect(x, y, width, height)
  }

  /** Clamping leaves a rectangle alone exactly when it already satisfies the bounds invariant. */
  lemma ClampFixedPoints(r: Rect)
    requires ClampDefined(r)
    ensures Clamp(r) == r <==> r.InCaptureBounds()
  {
  }

  lemma ClampIdempotent(r: Rect)
    requires ClampDefined(r)
    ensures ClampDefined(Clamp(r)) && Clamp(Clamp(r)) == Clamp(r)
  {
    ClampFixedPoints(Clamp(r));
  }

  /** A negative origin coordinate is moved to 0 without shrinking the extent
      along that axis (as long as the extent fits in the frame). */
  lemma ClampKeepsExtentAtNegativeOrigin(r: Rect)
    requires ClampDefined(r)
    ensures r.x < 0 && r.width <= CaptureWidth ==> Clamp(r).x == 0 && Clamp(r).width == r.width
    ensures r.y < 0 && r.height <= CaptureHeight ==> Clamp(r).y == 0 && Clamp(r).height == r.height
  {
  }

  /** Consequently the clamped rectangle is not always inside the original one:
      the column just right of the original rectangle is covered after clamping. */
  lemma ClampCanCoverOutsideOriginal(r: Rect)
    requires ClampDefined(r)
    requires r.x < 0 <= r.x + r.width && r.width <= CaptureWidth
    requires 0 <= r.y && 0 < r.height && r.y + r.height <= CaptureHeight
    ensures Clamp(r).Covers(r.y, r.x + r.width)
    ensures !r.Covers(r.y, r.x + r.width)
  {
  }

  /** A face box reaching 10 pixels past the left edge is widened by 10 pixels on the right. */
  lemma ClampLeftOverhangExample()
    ensures ClampDefined(Rect(-10, 0, 100, 100))
    ensures Clamp(Rect(-10, 0, 100, 100)) == Rect(0, 0, 100, 100)
    ensures Clamp(Rect(-10, 0, 100, 100)).Covers(0, 95) && !Rect(-10, 0, 100, 100).Covers(0, 95)
  {
  }

  /** With a non-negative origin, clamping is intersection with the frame. */
  lemma ClampIsIntersectionForNonNegativeOrigin(r: Rect)
    requires ClampDefined(r) && 0 <= r.x && 0 <= r.y
    ensures forall row, col :: Clamp(r).Covers(row, col) <==> r.Covers(row, col) && InFrame(row, col)
  {
  }

  /** The clamped rectangle is empty exactly when the original is empty or its
      clamped origin lies at or past the right or bottom edge. */
  lemma ClampEmptyIff(r: Rect)
    requires ClampDefined(r)
    ensures Clamp(r).IsEmpty() <==> r.IsEmpty() || Clamp(r).x >= CaptureWidth || Clamp(r).y >= CaptureHeight
    ensures Clamp(r).x >= CaptureWidth ==> Clamp(r).width <= 0
    ensures Clamp(r).y >= CaptureHeight ==> Clamp(r).height <= 0
  {
  }

  /** Clamping is monotone: a rectangle inside another clamps to a region inside the other's. */
  lemma ClampMonotone(inner: Rect, outer: Rect)
    requires ClampDefined(inner) && ClampDefined(outer)
    requires outer.x <= inner.x && inner.x + inner.width <= outer.x + outer.width
    requires outer.y <= inner.y && inner.y + inner.height <= outer.y + outer.height
    ensures forall row, col :: Clamp(inner).Covers(row, col) ==> Clamp(outer).Covers(row, col)
  {
  }

  /** The i32 products of scaling do not overflow. */
  predicate ScaleDefined(r: Rect, k: int) {
    && r.FitsI32() && IsI32(k)
    && IsI32(r.x * k) && IsI32(r.y * k) && IsI32(r.width * k) && IsI32(r.height * k)
  }

  /** The scaling step of draw_box_around_face: every field times the inverse scale factor k. */
  function Scale(r: Rect, k: int): (s: Rect)
    requires ScaleDefined(r, k)
    ensures s.FitsI32()
    ensures k == 1 ==> s == r
  {
    Rect(r.x * k, r.y * k, r.width * k, r.height * k)
  }

  lemma MulMonotone(a: int, b: int, k: int)
    requires k > 0
    ensures a <= b <==> a * k <= b * k
    ensures a < b <==> a * k < b * k
  {
    if a <= b {
      assert b * k == a * k + (b - a) * k;
    } else {
      assert a * k == b * k + (a - b) * k;
    }
  }

  /** For k > 0, the scaled rectangle covers the scaled pixel (row * k, col * k)
      exactly when the original covers (row, col). */
  lemma ScaleCoversScaledPixel(r: Rect, k: int, row: int, col: int)
    requires ScaleDefined(r, k) && k > 0
    ensures Scale(r, k).Covers(row * k, col * k) <==> r.Covers(row, col)
  {
    assert (r.y + r.height) * k == r.y * k + r.height * k;
    assert (r.x + r.width) * k == r.x * k + r.width * k;
    MulMonotone(r.y, row, k);
    MulMonotone(row, r.y + r.height, k);
    MulMonotone(r.x, col, k);
    MulMonotone(col, r.x + r.width, k);
  }

  /** For k > 0, a multiple of k is at most c exactly when the factor is at
      most c / k (Dafny's `/` rounds down for a positive divisor). */
  lemma MulAtMostIff(a: int, c: int, k: int)
    requires k > 0
    ensures a * k <= c <==> a <= c / k
  {
    var q := c / k;
    assert c == q * k + c % k;
    if a <= q {
      MulMonotone(a, q, k);
    } else {
      MulMonotone(q + 1, a, k);
      assert (q + 1) * k == q * k + k;
    }
  }

  /** For k > 0, the scaled rectangle covers pixel (row, col) exactly when the
      original covers (row / k, col / k): the drawn box is the original box with
      every pixel blown up to a k x k block. */
  lemma ScaleCovers(r: Rect, k: int, row: int, col: int)
    requires ScaleDefined(r, k) && k > 0
    ensures Scale(r, k).Covers(row, col) <==> r.Covers(row / k, col / k)
  {
    assert (r.y + r.height) * k == r.y * k + r.height * k;
    assert (r.x + r.width) * k == r.x * k + r.width * k;
    MulAtMostIff(r.y, row, k);
    MulAtMostIff(r.y + r.height, row, k);
    MulAtMostIff(r.x, col, k);
    MulAtMostIff(r.x + r.width, col, k);
  }

  /** For k > 0, scaling preserves emptiness both ways. */
  lemma ScaleEmptyIff(r: Rect, k: int)
    requires ScaleDefined(r, k) && k > 0
    ensures Scale(r, k).IsEmpty() <==> r.IsEmpty()
  {
    MulMonotone(r.width, 0, k);
    MulMonotone(r.height, 0, k);
  }

  /** A rectangle inside a cols x rows image scales into the k-times larger image,
      so drawing a scaled box needs no clamping when detection ran on the
      image shrunk by k. */
  lemma ScaleStaysInScaledImage(r: Rect, k: int, cols: int, rows: int)
    requires ScaleDefined(r, k) && k > 0
    requires 0 <= r.x && r.x + r.width <= cols && 0 <= r.y && r.y + r.height <= rows
    ensures 0 <= Scale(r, k).x && Scale(r, k).x + Scale(r, k).width <= cols * k
    ensures 0 <= Scale(r, k).y && Scale(r, k).y + Scale(r, k).height <= rows * k
  {
    assert (r.y + r.height) * k == r.y * k + r.height * k;
    assert (r.x + r.width) * k == r.x * k + r.width * k;
    MulMonotone(0, r.x, k);
    MulMonotone(0, r.y, k);
    MulMonotone(r.x + r.width, cols, k);
    MulMonotone(r.y + r.height, rows, k);
  }
}
