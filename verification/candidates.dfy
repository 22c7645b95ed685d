/** The per-contour filter of the main loop in getSticky.py: a contour is
    kept when its area reaches the minimum, its rotated rectangle has no zero
    side, and the rectangle's side ratio lies in the configured band. */
module Candidates {
  import opened Extremes
  import opened Corners

  /** `MIN_FLAECHE`: the smallest contour area kept. */
  const MinArea: real := 500.0
  /** `MIN_RATIO` and `MAX_RATIO`: the accepted band of the side ratio. */
  const MinRatio: real := 0.6
  const MaxRatio: real := 1.8

  type NonNeg = r: real | r >= 0.0

  /** `boxPoints` always yields four corners. */
  type Box = pts: seq<Point> | |pts| == 4
    witness [Point(0.0, 0.0), Point(0.0, 0.0), Point(0.0, 0.0), Point(0.0, 0.0)]

  /** What the loop reads of one contour: `contourArea`, the size `(w, h)` of
      `minAreaRect` and the four `boxPoints` of that rectangle. */
  datatype Contour = Contour(area: NonNeg, w: NonNeg, h: NonNeg, box: Box)

  /** Why a contour is skipped, or that it is kept. */
  datatype Verdict = Keep | TooSmall | Degenerate | OutOfRatio

  /** The side ratio: the longer side over the shorter, whichever of the two is the width. */
  function Ratio(w: real, h: real): (r: real)
    requires w > 0.0 && h > 0.0
    ensures r >= 1.0
    ensures r * Min(w, h) == Max(w, h)
  {
    if w > h then w / h else h / w
  }

  /** The ratio does not care which side is called the width. */
  lemma RatioSymmetric(w: real, h: real)
    requires w > 0.0 && h > 0.0
    ensures Ratio(w, h) == Ratio(h, w)
  {
  }

  /** Since the ratio is at least 1, the lower bound 0.6 never rejects anything. */
  lemma LowerRatioBoundNeverRejects(w: real, h: real)
    requires w > 0.0 && h > 0.0
    ensures !(Ratio(w, h) < MinRatio)
  {
  }

  /** The longer side is at most `MAX_RATIO` times the shorter one. */
  predicate WithinBand(w: real, h: real) {
    Max(w, h) <= MaxRatio * Min(w, h)
  }

  /** The ratio is within `MAX_RATIO` exactly when the longer side is at most
      `MAX_RATIO` times the shorter one; no division is needed to decide it. */
  lemma RatioWithinBandIff(w: real, h: real)
    requires w > 0.0 && h > 0.0
    ensures Ratio(w, h) <= MaxRatio <==> WithinBand(w, h)
  {
    var r := Ratio(w, h);
    var s := Min(w, h);
    assert s > 0.0;
    assert r * s == Max(w, h);
    assert (r - MaxRatio) * s == r * s - MaxRatio * s;
    if r <= MaxRatio {
      NonNegativeProduct(MaxRatio - r, s);
    } else {
      PositiveProduct(r - MaxRatio, s);
      assert r * s > MaxRatio * s;
      assert Max(w, h) > MaxRatio * Min(w, h);
      assert !WithinBand(w, h);
    }
  }

  lemma NonNegativeProduct(a: real, b: real)
    requires a >= 0.0 && b > 0.0
    ensures a * b >= 0.0
  {
  }

  lemma PositiveProduct(a: real, b: real)
    requires a > 0.0 && b > 0.0
    ensures a * b > 0.0
  {
  }

  /** The checks in source order: area first, then the zero sides, then the
      ratio, which is therefore only ever computed for two positive sides. */
  function Classify(c: Contour): (v: Verdict)
    ensures v == TooSmall <==> c.area < MinArea
    ensures v == Degenerate <==> MinArea <= c.area && (c.w == 0.0 || c.h == 0.0)
    ensures v == Keep <==> MinArea <= c.area && c.w > 0.0 && c.h > 0.0 && WithinBand(c.w, c.h)
  {
    if c.area < MinArea then TooSmall
    else if c.w == 0.0 || c.h == 0.0 then Degenerate
    else
      var ratio := Ratio(c.w, c.h);
      RatioWithinBandIff(c.w, c.h);
      LowerRatioBoundNeverRejects(c.w, c.h);
      if ratio < MinRatio || ratio > MaxRatio then OutOfRatio else Keep
  }

  /** Swapping the rectangle's width and height never changes the verdict. */
  lemma ClassifySymmetric(c: Contour)
    ensures Classify(c) == Classify(c.(w := c.h, h := c.w))
  {
  }

  /** The area bound is inclusive: a contour of area exactly 500 whose
      rectangle is a square is kept, and one of area just below is not. */
  lemma AreaBoundaryInclusive(side: real, box: Box)
    requires side > 0.0
    ensures Classify(Contour(MinArea, side, side, box)) == Keep
    ensures Classify(Contour(499.99, side, side, box)) == TooSmall
  {
  }

  /** Both ratio bounds are inclusive, and only the upper one ever bites:
      sides in ratio exactly 1.8 pass, in ratio 1.81 fail. */
  lemma RatioBoundaryInclusive(box: Box)
    ensures Classify(Contour(MinArea, 18.0, 10.0, box)) == Keep
    ensures Classify(Contour(MinArea, 10.0, 18.0, box)) == Keep
    ensures Classify(Contour(MinArea, 18.1, 10.0, box)) == OutOfRatio
  {
  }

  /** The contours the loop keeps, in the order `findContours` listed them. */
  function Survivors(cs: seq<Contour>): (kept: seq<Contour>)
    ensures |kept| <= |cs|
  {
    if |cs| == 0 then []
    else
      var last := cs[|cs| - 1];
      Survivors(cs[..|cs| - 1]) + (if Classify(last) == Keep then [last] else [])
  }

  /** Every kept contour record survives exactly as often as it occurs in the
      input, and every other record not at all. */
  lemma {:induction false} SurvivorsKeepMultiplicity(cs: seq<Contour>)
    ensures forall c :: multiset(Survivors(cs))[c] == if Classify(c) == Keep then multiset(cs)[c] else 0
  {
    if |cs| > 0 {
      var front, last := cs[..|cs| - 1], cs[|cs| - 1];
      SurvivorsKeepMultiplicity(front);
      assert cs == front + [last];
    }
  }

  /** The survivors are exactly the kept contours. */
  lemma {:induction false} SurvivorsAreTheKept(cs: seq<Contour>)
    ensures forall c :: c in Survivors(cs) <==> c in cs && Classify(c) == Keep
  {
    if |cs| > 0 {
      var front := cs[..|cs| - 1];
      SurvivorsAreTheKept(front);
      assert cs == front + [cs[|cs| - 1]];
    }
  }

  /** The step equation the contour loop's invariant uses: looking at one
      more contour extends the survivors by it exactly when it is kept. */
  lemma SurvivorsStep(cs: seq<Contour>, k: nat)
    requires k < |cs|
    ensures Survivors(cs[..k + 1]) == Survivors(cs[..k]) + (if Classify(cs[k]) == Keep then [cs[k]] else [])
  {
    assert cs[..k + 1][..k] == cs[..k];
  }
}
