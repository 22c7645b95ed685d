/** The colour segmentation of getSticky.py: a pixel belongs to `mask_total`
    when it lies inside the inclusive HSV box of at least one entry of the
    colour table, the union being built by OR-ing one `inRange` mask per entry. */
module ColourMask {

  /** One pixel after `cvtColor(..., COLOR_BGR2HSV)`: hue, saturation, value. */
  datatype Hsv = Hsv(h: nat, s: nat, v: nat)

  /** One entry of `COLOR_RANGES`: a colour name with inclusive lower and upper bounds. */
  datatype ColourRange = ColourRange(name: string, lower: Hsv, upper: Hsv)

  /** `COLOR_RANGES`, in the dictionary's insertion order, which is the order
      the loop visits the entries. */
  const ColorRanges: seq<ColourRange> := [
    ColourRange("orange", Hsv(10, 100, 150), Hsv(30, 180, 255)),
    ColourRange("blue", Hsv(88, 117, 150), Hsv(108, 177, 210)),
    ColourRange("green", Hsv(64, 128, 112), Hsv(84, 188, 172)),
    ColourRange("yellow", Hsv(14, 200, 180), Hsv(34, 255, 255)),
    ColourRange("pink", Hsv(140, 50, 50), Hsv(170, 255, 255))
  ]

  /** The per-pixel test of `inRange`: every channel within its bounds, both inclusive. */
  predicate InRange(p: Hsv, r: ColourRange) {
    && r.lower.h <= p.h <= r.upper.h
    && r.lower.s <= p.s <= r.upper.s
    && r.lower.v <= p.v <= r.upper.v
  }

  /** One pixel of `mask_total`: the OR-fold, in table order, of the entries' tests. */
  function Foreground(table: seq<ColourRange>, p: Hsv): (fg: bool)
    ensures fg <==> exists i :: 0 <= i < |table| && InRange(p, table[i])
  {
    if |table| == 0 then false
    else Foreground(table[..|table| - 1], p) || InRange(p, table[|table| - 1])
  }

  /** The order and repetition of the table's entries do not matter: two
      tables with the same entries give the same mask. */
  lemma {:induction false} ForegroundOrderIndependent(t1: seq<ColourRange>, t2: seq<ColourRange>, p: Hsv)
    requires forall r :: r in t1 <==> r in t2
    ensures Foreground(t1, p) == Foreground(t2, p)
  {
    if Foreground(t1, p) {
      var i :| 0 <= i < |t1| && InRange(p, t1[i]);
      assert t1[i] in t2;
    }
    if Foreground(t2, p) {
      var i :| 0 <= i < |t2| && InRange(p, t2[i]);
      assert t2[i] in t1;
    }
  }

  /** Every bound of the table fits in the unsigned byte the source converts it
      to, and each lower bound lies below its upper bound. */
  lemma ColourTableWellFormed()
    ensures forall r :: r in ColorRanges ==>
      && r.lower.h <= r.upper.h <= 255 && r.lower.s <= r.upper.s <= 255 && r.lower.v <= r.upper.v <= 255
  {
  }

  type Image = seq<seq<Hsv>>
  type Mask = seq<seq<bool>>

  /** `m` has a value for every pixel of `img`, row for row. */
  predicate SameShape(m: Mask, img: Image) {
    |m| == |img| && forall y :: 0 <= y < |img| ==> |m[y]| == |img[y]|
  }

  /** `np.zeros(hsv.shape[:2])`. */
  function Blank(img: Image): Mask {
    seq(|img|, y requires 0 <= y < |img| => seq(|img[y]|, x requires 0 <= x < |img[y]| => false))
  }

  /** `cv2.inRange(hsv, lower, upper)` for one table entry. */
  function RangeMask(img: Image, r: ColourRange): Mask {
    seq(|img|, y requires 0 <= y < |img| =>
      seq(|img[y]|, x requires 0 <= x < |img[y]| => InRange(img[y][x], r)))
  }

  /** `cv2.bitwise_or` of two masks of the same shape. */
  function BitwiseOr(a: Mask, b: Mask): Mask
    requires |a| == |b| && forall y :: 0 <= y < |a| ==> |a[y]| == |b[y]|
  {
    seq(|a|, y requires 0 <= y < |a| =>
      seq(|a[y]|, x requires 0 <= x < |a[y]| => a[y][x] || b[y][x]))
  }

  /** The mask loop: starting from a blank mask, OR in the mask of each table
      entry in turn. Each pixel of the result is the foreground test of that
      pixel against the whole table. */
  method BuildMask(img: Image, table: seq<ColourRange>) returns (mask: Mask)
    ensures SameShape(mask, img)
    ensures forall y, x :: 0 <= y < |img| && 0 <= x < |img[y]| ==>
      (mask[y][x] <==> exists i :: 0 <= i < |table| && InRange(img[y][x], table[i]))
  {
    mask := Blank(img);
    var k := 0;
    while k < |table|
      invariant 0 <= k <= |table|
      invariant SameShape(mask, img)
      invariant forall y, x :: 0 <= y < |img| && 0 <= x < |img[y]| ==>
        mask[y][x] == Foreground(table[..k], img[y][x])
    {
      assert table[..k + 1][..k] == table[..k];
      mask := BitwiseOr(mask, RangeMask(img, table[k]));
      k := k + 1;
    }
    assert table[..k] == table;
  }
}
