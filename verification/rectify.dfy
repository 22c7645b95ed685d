/** The dimension and destination part of `four_point_transform` in
    getSticky.py: the ordered source corners, the output size taken as the
    truncated longer of two opposite edges, and the upright destination
    rectangle the perspective transform maps the corners to. */
module Rectify {
  import opened Extremes
  import opened Corners

  /** Python's `int()` on a non-negative float: truncation toward zero, which
      for these values is the floor. */
  function Trunc(len: real): (n: nat)
    requires len >= 0.0
    ensures n as real <= len < n as real + 1.0
  {
    len.Floor
  }

  /** Square of the Euclidean distance `np.linalg.norm(p - q)`. */
  function SqDist(p: Point, q: Point): (d: real)
    ensures d >= 0.0
  {
    (p.x - q.x) * (p.x - q.x) + (p.y - q.y) * (p.y - q.y)
  }

  /** `n` is the whole part of the square root of `sq`: the truncated length
      of an edge whose squared length is `sq`. */
  predicate IsRootFloor(n: nat, sq: real) {
    n as real * n as real <= sq < (n as real + 1.0) * (n as real + 1.0)
  }

  /** Whole part of a square root, found by counting up. */
  function FloorSqrt(x: real): (n: nat)
    requires x >= 0.0
    ensures IsRootFloor(n, x)
  {
    FloorSqrtFrom(x, 0)
  }

  /** Counts up from `n` to the largest whole number whose square is at most `x`. */
  function FloorSqrtFrom(x: real, n: nat): (m: nat)
    requires n as real * n as real <= x
    ensures n <= m
    ensures m as real * m as real <= x < (m as real + 1.0) * (m as real + 1.0)
    decreases x.Floor - n
  {
    var next := n as real + 1.0;
    if next * next <= x then
      MulMonotone(1.0, next, next);
      FloorSqrtFrom(x, n + 1)
    else
      n
  }

  /** Multiplying by a non-negative factor keeps an inequality. */
  lemma MulMonotone(a: real, b: real, c: real)
    requires a <= b && 0.0 <= c
    ensures a * c <= b * c
  {
  }

  lemma SquaresMonotone(a: real, b: real)
    requires 0.0 <= a <= b
    ensures a * a <= b * b
  {
    MulMonotone(a, b, a);
    MulMonotone(a, b, b);
  }

  /** Only one whole number has its square at most `x` and the next square above it. */
  lemma FloorSqrtUnique(x: real, n: nat)
    requires x >= 0.0
    requires IsRootFloor(n, x)
    ensures n == FloorSqrt(x)
  {
    var m := FloorSqrt(x);
    if n < m {
      SquaresMonotone(n as real + 1.0, m as real);
    } else if m < n {
      SquaresMonotone(m as real + 1.0, n as real);
    }
  }

  lemma {:induction false} FloorSqrtMonotone(a: real, b: real)
    requires 0.0 <= a <= b
    ensures FloorSqrt(a) <= FloorSqrt(b)
  {
    var m, n := FloorSqrt(a), FloorSqrt(b);
    if n < m {
      SquaresMonotone(n as real + 1.0, m as real);
    }
  }

  /** For an edge of length `len`, the whole part of the square root of its
      squared length is `int(len)`: the model's exact integer square root is the
      truncated Euclidean norm. */
  lemma FloorSqrtIsTruncatedLength(len: real)
    requires len >= 0.0
    ensures FloorSqrt(len * len) == Trunc(len)
  {
    var n := Trunc(len);
    var r := n as real;
    SquaresMonotone(r, len);
    assert len * len < (r + 1.0) * (r + 1.0) by {
      MulMonotone(len, r + 1.0, len);
      MulMonotone(len, r + 1.0, r + 1.0);
      assert len * (r + 1.0) < (r + 1.0) * (r + 1.0);
    }
    FloorSqrtUnique(len * len, n);
  }

  /** `int(max(a, b))` for two edges given by their squared lengths. */
  function TruncatedLonger(sqA: real, sqB: real): (n: nat)
    requires sqA >= 0.0 && sqB >= 0.0
    ensures IsRootFloor(n, Max(sqA, sqB))
  {
    FloorSqrt(Max(sqA, sqB))
  }

  /** Truncating the longer edge is the same as taking the longer truncated edge. */
  lemma TruncatedLongerIsLongerTruncated(sqA: real, sqB: real)
    requires sqA >= 0.0 && sqB >= 0.0
    ensures TruncatedLonger(sqA, sqB) == if FloorSqrt(sqA) < FloorSqrt(sqB) then FloorSqrt(sqB) else FloorSqrt(sqA)
  {
    if sqA <= sqB {
      FloorSqrtMonotone(sqA, sqB);
    } else {
      FloorSqrtMonotone(sqB, sqA);
    }
  }

  /** The four destination corners `dst`: the pixel corners of a
      `width` x `height` raster, in top-left, top-right, bottom-right,
      bottom-left order. */
  function Destination(width: nat, height: nat): Quad {
    var right := (width - 1) as real;
    var bottom := (height - 1) as real;
    Quad(Point(0.0, 0.0), Point(right, 0.0), Point(right, bottom), Point(0.0, bottom))
  }

  /** What `four_point_transform` hands to `getPerspectiveTransform` and
      `warpPerspective`: source corners, destination corners and output size. */
  datatype Warp = Warp(src: Quad, dst: Quad, width: nat, height: nat)

  /** `four_point_transform` up to the OpenCV calls. The width is the truncated
      longer of the bottom and top edges, the height the truncated longer of
      the right and left edges, and the destination spans a raster of exactly
      that size. */
  function FourPointTransform(box: seq<Point>): (w: Warp)
    requires |box| > 0
    ensures w.src == OrderPoints(box)
    ensures IsRootFloor(w.width, Max(SqDist(w.src.br, w.src.bl), SqDist(w.src.tr, w.src.tl)))
    ensures IsRootFloor(w.height, Max(SqDist(w.src.br, w.src.tr), SqDist(w.src.bl, w.src.tl)))
    ensures w.dst.tl == Point(0.0, 0.0)
    ensures w.dst.br == Point((w.width - 1) as real, (w.height - 1) as real)
    ensures w.dst.tr.x == w.dst.br.x && w.dst.tr.y == w.dst.tl.y
    ensures w.dst.bl.x == w.dst.tl.x && w.dst.bl.y == w.dst.br.y
  {
    var rect := OrderPoints(box);
    var widthA, widthB := SqDist(rect.br, rect.bl), SqDist(rect.tr, rect.tl);
    var heightA, heightB := SqDist(rect.br, rect.tr), SqDist(rect.bl, rect.tl);
    var maxWidth := TruncatedLonger(widthA, widthB);
    var maxHeight := TruncatedLonger(heightA, heightB);
    Warp(rect, Destination(maxWidth, maxHeight), maxWidth, maxHeight)
  }

  /** `int(max(a, b))` for lengths `a` and `b` is what the model computes from
      their squares. */
  lemma TruncatedLongerOfLengths(a: real, b: real)
    requires a >= 0.0 && b >= 0.0
    ensures TruncatedLonger(a * a, b * b) == Trunc(Max(a, b))
  {
    var m := Max(a, b);
    LongerSquareIsSquareOfLonger(a, b);
    FloorSqrtIsTruncatedLength(m);
    assert Max(a * a, b * b) == m * m;
  }

  lemma LongerSquareIsSquareOfLonger(a: real, b: real)
    requires a >= 0.0 && b >= 0.0
    ensures Max(a * a, b * b) == Max(a, b) * Max(a, b)
  {
    if a < b {
      SquaresMonotone(a, b);
    } else {
      SquaresMonotone(b, a);
    }
  }

  /** With the edge lengths given (`widthA`, `widthB`, `heightA`, `heightB`
      as the norms of the four edges), the output size is exactly
      `int(max(widthA, widthB))` by `int(max(heightA, heightB))`. */
  lemma SizeIsTruncatedLongerEdges(box: seq<Point>, widthA: real, widthB: real, heightA: real, heightB: real)
    requires |box| > 0
    requires widthA >= 0.0 && widthB >= 0.0 && heightA >= 0.0 && heightB >= 0.0
    requires var r := OrderPoints(box);
      && widthA * widthA == SqDist(r.br, r.bl) && widthB * widthB == SqDist(r.tr, r.tl)
      && heightA * heightA == SqDist(r.br, r.tr) && heightB * heightB == SqDist(r.bl, r.tl)
    ensures FourPointTransform(box).width == Trunc(Max(widthA, widthB))
    ensures FourPointTransform(box).height == Trunc(Max(heightA, heightB))
  {
    var w := FourPointTransform(box);
    var r := w.src;
    FloorSqrtUnique(Max(SqDist(r.br, r.bl), SqDist(r.tr, r.tl)), w.width);
    FloorSqrtUnique(Max(SqDist(r.br, r.tr), SqDist(r.bl, r.tl)), w.height);
    TruncatedLongerOfLengths(widthA, widthB);
    TruncatedLongerOfLengths(heightA, heightB);
  }

  /** Each destination corner is a pixel position inside the output raster,
      provided the raster is at least one pixel wide and high. */
  lemma DestinationInsideRaster(width: nat, height: nat)
    ensures var d := Destination(width, height);
      1 <= width && 1 <= height <==>
      forall p :: p in CornerList(d) ==> 0.0 <= p.x < width as real && 0.0 <= p.y < height as real
  {
    var d := Destination(width, height);
    assert d.br in CornerList(d);
  }

  /** The destination is an upright rectangle of positive extent, with
      top-left strictly left of and above bottom-right, exactly when the output
      is at least two pixels in each direction; a truncated size of 1 collapses
      it to a segment or a point, and a size of 0 turns it inside out. */
  lemma DestinationProperExactly(width: nat, height: nat)
    ensures var d := Destination(width, height);
      d.tl.x < d.br.x && d.tl.y < d.br.y <==> 2 <= width && 2 <= height
  {
  }

  /** The destination is already in canonical order, in whatever order its
      corners are listed: ordering it again returns it unchanged, so source
      and destination corners are paired role for role. */
  lemma DestinationIsCanonical(width: nat, height: nat, pts: seq<Point>)
    requires 2 <= width && 2 <= height
    requires multiset(pts) == multiset(CornerList(Destination(width, height)))
    ensures |pts| == 4
    ensures OrderPoints(pts) == Destination(width, height)
  {
    UprightRectangleOrdered(0.0, 0.0, (width - 1) as real, (height - 1) as real, pts);
  }
}
