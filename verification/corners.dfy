/** Corner ordering of `order_points` in getSticky.py: four (or any non-empty
    number of) points of a quadrilateral are assigned to the roles top-left,
    top-right, bottom-right and bottom-left by the extremes of x+y and y-x. */
module Corners {
  import opened Extremes

  /** An image point; the source holds these as float32 pairs (x, y), y growing downwards. */
  datatype Point = Point(x: real, y: real)

  /** Four corners in the order top-left, top-right, bottom-right, bottom-left. */
  datatype Quad = Quad(tl: Point, tr: Point, br: Point, bl: Point)

  /** The two keys the ordering ranks points by: `pts.sum(axis=1)` is x+y and
      `np.diff(pts, axis=1)` is y-x. */
  datatype Key = SumKey | DiffKey

  function KeyOf(k: Key, p: Point): real {
    match k
    case SumKey => p.x + p.y
    case DiffKey => p.y - p.x
  }

  function Keys(pts: seq<Point>, k: Key): seq<real> {
    seq(|pts|, i requires 0 <= i < |pts| => KeyOf(k, pts[i]))
  }

  function CornerList(q: Quad): seq<Point> {
    [q.tl, q.tr, q.br, q.bl]
  }

  /** `p` is one of `pts` and no point of `pts` has a smaller key. */
  predicate IsMinimal(pts: seq<Point>, k: Key, p: Point) {
    p in pts && forall j :: 0 <= j < |pts| ==> KeyOf(k, p) <= KeyOf(k, pts[j])
  }

  /** `p` is one of `pts` and no point of `pts` has a larger key. */
  predicate IsMaximal(pts: seq<Point>, k: Key, p: Point) {
    p in pts && forall j :: 0 <= j < |pts| ==> KeyOf(k, pts[j]) <= KeyOf(k, p)
  }

  /** `p` is minimal and occurs at a position before which every key is strictly larger. */
  predicate FirstMinimal(pts: seq<Point>, k: Key, p: Point) {
    && IsMinimal(pts, k, p)
    && exists i :: 0 <= i < |pts| && pts[i] == p && forall j :: 0 <= j < i ==> KeyOf(k, p) < KeyOf(k, pts[j])
  }

  /** `p` is maximal and occurs at a position before which every key is strictly smaller. */
  predicate FirstMaximal(pts: seq<Point>, k: Key, p: Point) {
    && IsMaximal(pts, k, p)
    && exists i :: 0 <= i < |pts| && pts[i] == p && forall j :: 0 <= j < i ==> KeyOf(k, pts[j]) < KeyOf(k, p)
  }

  /** All the minimal points of `pts` are the same point. */
  ghost predicate SoleMinimal(pts: seq<Point>, k: Key) {
    forall p, q :: IsMinimal(pts, k, p) && IsMinimal(pts, k, q) ==> p == q
  }

  /** All the maximal points of `pts` are the same point. */
  ghost predicate SoleMaximal(pts: seq<Point>, k: Key) {
    forall p, q :: IsMaximal(pts, k, p) && IsMaximal(pts, k, q) ==> p == q
  }

  /** Each of the four roles has one candidate point, however often it is repeated. */
  ghost predicate SoleExtremes(pts: seq<Point>) {
    && SoleMinimal(pts, SumKey) && SoleMaximal(pts, SumKey)
    && SoleMinimal(pts, DiffKey) && SoleMaximal(pts, DiffKey)
  }

  /** `order_points`: top-left minimises x+y, bottom-right maximises it,
      top-right minimises y-x, bottom-left maximises it; every tie goes to the
      point that comes first. */
  function OrderPoints(pts: seq<Point>): (r: Quad)
    requires |pts| > 0
    ensures FirstMinimal(pts, SumKey, r.tl)
    ensures FirstMinimal(pts, DiffKey, r.tr)
    ensures FirstMaximal(pts, SumKey, r.br)
    ensures FirstMaximal(pts, DiffKey, r.bl)
  {
    var sums := Keys(pts, SumKey);
    var diffs := Keys(pts, DiffKey);
    var quad := Quad(pts[ArgMin(sums)], pts[ArgMin(diffs)], pts[ArgMax(sums)], pts[ArgMax(diffs)]);
    SelectedMinIsFirstMinimal(pts, SumKey, ArgMin(sums));
    SelectedMinIsFirstMinimal(pts, DiffKey, ArgMin(diffs));
    SelectedMaxIsFirstMaximal(pts, SumKey, ArgMax(sums));
    SelectedMaxIsFirstMaximal(pts, DiffKey, ArgMax(diffs));
    quad
  }

  lemma SelectedMinIsFirstMinimal(pts: seq<Point>, k: Key, i: int)
    requires IsFirstMin(Keys(pts, k), i)
    ensures FirstMinimal(pts, k, pts[i])
  {
    var keys := Keys(pts, k);
    forall q | q in pts
      ensures KeyOf(k, pts[i]) <= KeyOf(k, q)
    {
      var j :| 0 <= j < |pts| && pts[j] == q;
      assert keys[j] == KeyOf(k, q);
    }
    assert forall j :: 0 <= j < i ==> keys[j] == KeyOf(k, pts[j]);
  }

  lemma SelectedMaxIsFirstMaximal(pts: seq<Point>, k: Key, i: int)
    requires IsFirstMax(Keys(pts, k), i)
    ensures FirstMaximal(pts, k, pts[i])
  {
    var keys := Keys(pts, k);
    forall q | q in pts
      ensures KeyOf(k, q) <= KeyOf(k, pts[i])
    {
      var j :| 0 <= j < |pts| && pts[j] == q;
      assert keys[j] == KeyOf(k, q);
    }
    assert forall j :: 0 <= j < i ==> keys[j] == KeyOf(k, pts[j]);
  }

  /** First-occurrence tie-breaking leaves exactly one candidate for a role. */
  lemma FirstMinimalUnique(pts: seq<Point>, k: Key, p: Point, q: Point)
    requires FirstMinimal(pts, k, p) && FirstMinimal(pts, k, q)
    ensures p == q
  {
  }

  lemma FirstMaximalUnique(pts: seq<Point>, k: Key, p: Point, q: Point)
    requires FirstMaximal(pts, k, p) && FirstMaximal(pts, k, q)
    ensures p == q
  {
  }

  /** The four role predicates pin the result down completely: a quadrilateral
      is the ordering of `pts` exactly when each corner is the first extreme
      point for its role. */
  lemma OrderPointsCharacterised(pts: seq<Point>, q: Quad)
    requires |pts| > 0
    ensures q == OrderPoints(pts) <==>
      FirstMinimal(pts, SumKey, q.tl) && FirstMinimal(pts, DiffKey, q.tr) &&
      FirstMaximal(pts, SumKey, q.br) && FirstMaximal(pts, DiffKey, q.bl)
  {
    var r := OrderPoints(pts);
    if FirstMinimal(pts, SumKey, q.tl) && FirstMinimal(pts, DiffKey, q.tr) &&
       FirstMaximal(pts, SumKey, q.br) && FirstMaximal(pts, DiffKey, q.bl) {
      FirstMinimalUnique(pts, SumKey, q.tl, r.tl);
      FirstMinimalUnique(pts, DiffKey, q.tr, r.tr);
      FirstMaximalUnique(pts, SumKey, q.br, r.br);
      FirstMaximalUnique(pts, DiffKey, q.bl, r.bl);
    }
  }

  /** A reordering of the input keeps the same points. */
  lemma ReorderingKeepsMembers(a: seq<Point>, b: seq<Point>)
    requires multiset(a) == multiset(b)
    ensures forall p :: p in a <==> p in b
  {
    forall p
      ensures p in a <==> p in b
    {
      assert p in a <==> p in multiset(a);
      assert p in b <==> p in multiset(b);
    }
  }

  /** When every role has a single candidate point, the ordering does not
      depend on the order in which the points are given. */
  lemma {:induction false} OrderPointsPermutationInvariant(a: seq<Point>, b: seq<Point>)
    requires |a| > 0
    requires multiset(a) == multiset(b)
    requires SoleExtremes(a)
    ensures |b| > 0
    ensures OrderPoints(a) == OrderPoints(b)
  {
    assert |b| == |multiset(b)| == |multiset(a)| == |a|;
    ReorderingKeepsMembers(a, b);
    var ra := OrderPoints(a);
    var rb := OrderPoints(b);
    assert IsMinimal(a, SumKey, rb.tl);
    assert IsMinimal(a, DiffKey, rb.tr);
    assert IsMaximal(a, SumKey, rb.br);
    assert IsMaximal(a, DiffKey, rb.bl);
  }

  /** An upright rectangle's corners, in canonical order. */
  function Upright(x0: real, y0: real, x1: real, y1: real): Quad {
    Quad(Point(x0, y0), Point(x1, y0), Point(x1, y1), Point(x0, y1))
  }

  /** An upright rectangle with positive width and height has one candidate for each role. */
  lemma UprightHasSoleExtremes(x0: real, y0: real, x1: real, y1: real)
    requires x0 < x1 && y0 < y1
    ensures SoleExtremes(CornerList(Upright(x0, y0, x1, y1)))
  {
    var q := Upright(x0, y0, x1, y1);
    var pts := CornerList(q);
    forall p | IsMinimal(pts, SumKey, p) ensures p == q.tl { assert KeyOf(SumKey, p) <= KeyOf(SumKey, pts[0]); }
    forall p | IsMaximal(pts, SumKey, p) ensures p == q.br { assert KeyOf(SumKey, pts[2]) <= KeyOf(SumKey, p); }
    forall p | IsMinimal(pts, DiffKey, p) ensures p == q.tr { assert KeyOf(DiffKey, p) <= KeyOf(DiffKey, pts[1]); }
    forall p | IsMaximal(pts, DiffKey, p) ensures p == q.bl { assert KeyOf(DiffKey, pts[3]) <= KeyOf(DiffKey, p); }
  }

  /** Listed in canonical order, an upright rectangle is ordered as listed. */
  lemma UprightListedInOrder(x0: real, y0: real, x1: real, y1: real)
    requires x0 < x1 && y0 < y1
    ensures OrderPoints(CornerList(Upright(x0, y0, x1, y1))) == Upright(x0, y0, x1, y1)
  {
    var pts := CornerList(Upright(x0, y0, x1, y1));
    var sums := Keys(pts, SumKey);
    var diffs := Keys(pts, DiffKey);
    assert sums == [x0 + y0, x1 + y0, x1 + y1, x0 + y1];
    assert diffs == [y0 - x0, y0 - x1, y1 - x1, y1 - x0];
    assert IsFirstMin(sums, 0) && IsFirstMax(sums, 2);
    assert IsFirstMin(diffs, 1) && IsFirstMax(diffs, 3);
    ArgMinCharacterised(sums, 0);
    ArgMaxCharacterised(sums, 2);
    ArgMinCharacterised(diffs, 1);
    ArgMaxCharacterised(diffs, 3);
  }

  /** Whatever order its corners come in, an upright rectangle with positive
      width and height is ordered top-left, top-right, bottom-right, bottom-left. */
  lemma UprightRectangleOrdered(x0: real, y0: real, x1: real, y1: real, pts: seq<Point>)
    requires x0 < x1 && y0 < y1
    requires multiset(pts) == multiset(CornerList(Upright(x0, y0, x1, y1)))
    ensures |pts| == 4
    ensures OrderPoints(pts) == Upright(x0, y0, x1, y1)
  {
    var canon := CornerList(Upright(x0, y0, x1, y1));
    assert |pts| == |multiset(pts)| == |multiset(canon)| == 4;
    UprightHasSoleExtremes(x0, y0, x1, y1);
    OrderPointsPermutationInvariant(canon, pts);
    UprightListedInOrder(x0, y0, x1, y1);
  }

  /** A square standing on a corner (a rectangle turned by 45 degrees) ties
      both keys. Listed from its top corner clockwise, the ordering gives the
      top corner as both top-left and top-right and drops the left corner. */
  lemma TiedDiamondRepeatsCorner()
    ensures OrderPoints([Point(1.0, 0.0), Point(2.0, 1.0), Point(1.0, 2.0), Point(0.0, 1.0)])
         == Quad(Point(1.0, 0.0), Point(1.0, 0.0), Point(2.0, 1.0), Point(1.0, 2.0))
  {
    var pts := [Point(1.0, 0.0), Point(2.0, 1.0), Point(1.0, 2.0), Point(0.0, 1.0)];
    var sums := Keys(pts, SumKey);
    var diffs := Keys(pts, DiffKey);
    assert sums == [1.0, 3.0, 3.0, 1.0];
    assert diffs == [-1.0, -1.0, 1.0, 1.0];
    assert IsFirstMin(sums, 0) && IsFirstMax(sums, 1);
    assert IsFirstMin(diffs, 0) && IsFirstMax(diffs, 2);
    ArgMinCharacterised(sums, 0);
    ArgMaxCharacterised(sums, 1);
    ArgMinCharacterised(diffs, 0);
    ArgMaxCharacterised(diffs, 2);
    assert OrderPoints(pts) == Quad(pts[0], pts[0], pts[1], pts[2]);
  }

  /** The same four corners listed from the left corner: the left corner now
      serves as both top-left and bottom-left. With tied extremes the ordering
      depends on the input order and need not return four distinct corners. */
  lemma TiedDiamondDependsOnOrder()
    ensures OrderPoints([Point(0.0, 1.0), Point(1.0, 0.0), Point(2.0, 1.0), Point(1.0, 2.0)])
         == Quad(Point(0.0, 1.0), Point(1.0, 0.0), Point(2.0, 1.0), Point(0.0, 1.0))
  {
    var pts := [Point(0.0, 1.0), Point(1.0, 0.0), Point(2.0, 1.0), Point(1.0, 2.0)];
    var sums := Keys(pts, SumKey);
    var diffs := Keys(pts, DiffKey);
    assert sums == [1.0, 1.0, 3.0, 3.0];
    assert diffs == [1.0, -1.0, -1.0, 1.0];
    assert IsFirstMin(sums, 0) && IsFirstMax(sums, 2);
    assert IsFirstMin(diffs, 1) && IsFirstMax(diffs, 0);
    ArgMinCharacterised(sums, 0);
    ArgMaxCharacterised(sums, 2);
    ArgMinCharacterised(diffs, 1);
    ArgMaxCharacterised(diffs, 0);
    assert OrderPoints(pts) == Quad(pts[0], pts[1], pts[2], pts[0]);
  }
}
