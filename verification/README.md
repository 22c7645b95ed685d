# Sticky-note detection: decision logic of `getSticky.py`

This project models, in Dafny, the decision logic of the sticky-note
("Post-it") extractor of the fotoprotokoll repository. The script loads a
photo and converts it to HSV. It marks every pixel that falls inside one of
five colour boxes, finds the outer contours of the marked regions, and keeps
the contours that are large enough and roughly square. Each kept note is
straightened with a perspective warp and saved as `postit_<n>.jpg`.

Everything OpenCV computes from pixels is taken as given input: the HSV
conversion, the contours, their areas and rotated rectangles, the corner
points of those rectangles, and the warp itself. What is modelled is the
logic the script itself decides:

- `Extremes`: numpy's `argmin` and `argmax`, with the first occurrence
  winning a tie.
- `Corners`: `order_points`. Top-left minimises x+y and bottom-right
  maximises it. Top-right minimises y−x and bottom-left maximises it.
- `Rectify`: the size and destination part of `four_point_transform`. The
  output width is `int()` of the longer of the bottom and top edges. The
  output height is `int()` of the longer of the right and left edges. The
  destination rectangle is `(0,0), (W−1,0), (W−1,H−1), (0,H−1)`.
  Euclidean lengths are modelled exactly: an edge with squared length `d`
  gets the whole number `n` with `n² ≤ d < (n+1)²`. That `n` is `int()` of
  the true length.
- `Candidates`: the per-contour filter. The checks run in source order:
  area `< 500` is skipped, then a zero side is skipped, then a side ratio
  outside `[0.6, 1.8]` is skipped.
- `ColourMask`: `COLOR_RANGES`, the inclusive per-channel test of
  `inRange`, and the OR-fold that builds `mask_total`.
- `Pipeline`: the contour loop. Kept contours are numbered 1, 2, 3, … in
  contour order, and the final message reports how many were saved.

Coordinates, areas, lengths and ratios are `real`. The source's float32 and
float64 rounding is not modelled.

Three consequences of the code are worth stating on their own:

- The output size is truncated with `int()`, not rounded (`Rectify.Trunc`,
  `Rectify.SizeIsTruncatedLongerEdges`).
- Corner ordering does not depend on input order when each of the four roles
  has a single candidate point (`Corners.OrderPointsPermutationInvariant`).
  A rectangle turned by 45 degrees ties both keys. The result then depends
  on the input order and can name one point twice
  (`Corners.TiedDiamondRepeatsCorner`, `Corners.TiedDiamondDependsOnOrder`).
- The ratio is always at least 1, so `MIN_RATIO` never rejects anything
  (`Candidates.LowerRatioBoundNeverRejects`).

## Model

| member | source | states |
|---|---|---|
| Extremes.ArgMin | getSticky.py:38-41 | the index returned is the first position holding the smallest key, as `np.argmin` returns it |
| Extremes.ArgMax | getSticky.py:39-42 | the index returned is the first position holding the largest key, as `np.argmax` returns it |
| Extremes.ArgMinCharacterised | getSticky.py:38-41 | an index is the first minimiser if and only if it is the one `argmin` returns: the tie-breaking rule fixes a single answer |
| Extremes.ArgMaxCharacterised | getSticky.py:39-42 | an index is the first maximiser if and only if it is the one `argmax` returns |
| Corners.OrderPoints | getSticky.py:31-43 | top-left is an input point with least x+y and top-right one with least y−x; bottom-right has greatest x+y and bottom-left greatest y−x; each is the first such point in input order |
| Corners.OrderPointsCharacterised | getSticky.py:36-43 | a quadrilateral is the ordering of the points exactly when each corner is the first extreme point for its role, so the role conditions determine the result |
| Corners.FirstMinimalUnique | getSticky.py:38-41 | at most one point is the first minimiser of a key |
| Corners.OrderPointsPermutationInvariant | getSticky.py:36-43 | if each of the four roles has a single candidate point, every reordering of the input gives the same ordered quadrilateral |
| Corners.UprightRectangleOrdered | getSticky.py:31-43 | the corners of an upright rectangle with positive sides, given in any order, are ordered top-left, top-right, bottom-right, bottom-left |
| Corners.TiedDiamondRepeatsCorner | getSticky.py:37-42 | for a square turned by 45 degrees, one input order yields the same point as top-left and top-right and drops the left corner |
| Corners.TiedDiamondDependsOnOrder | getSticky.py:37-42 | the same square listed from another corner is ordered differently, so with ties the result depends on input order |
| Rectify.Trunc | getSticky.py:56 | `int()` of a non-negative length is the whole number `n` with `n ≤ len < n+1` |
| Rectify.FloorSqrt | getSticky.py:54-56 | gives the whole number `n` with `n² ≤ d < (n+1)²`, the truncated length of an edge whose squared length is `d` |
| Rectify.FloorSqrtIsTruncatedLength | getSticky.py:54-56 | for an edge of length `L`, the whole part of the root of `L²` is exactly `int(L)` |
| Rectify.FloorSqrtMonotone | getSticky.py:56 | a longer edge never has a smaller truncated length |
| Rectify.TruncatedLonger | getSticky.py:54-61 | the size taken from two edges is the truncated length of the longer one |
| Rectify.TruncatedLongerIsLongerTruncated | getSticky.py:56-61 | truncating the longer edge equals taking the larger of the two truncated edges |
| Rectify.FourPointTransform | getSticky.py:45-71 | the source corners are the ordered box, the width is the truncated longer of the bottom and top edges, the height the truncated longer of the right and left edges, and the destination (`Rectify.Destination`) is the upright rectangle (0,0), (W−1,0), (W−1,H−1), (0,H−1) |
| Rectify.TruncatedLongerOfLengths | getSticky.py:56-61 | for two edge lengths, the size computed from their squares is exactly `int(max(a, b))` of the lengths themselves |
| Rectify.SizeIsTruncatedLongerEdges | getSticky.py:53-61 | given the four edge lengths, the output size is exactly `int(max(widthA, widthB))` by `int(max(heightA, heightB))` |
| Rectify.DestinationInsideRaster | getSticky.py:64-71 | every destination corner lies inside the W×H output raster if and only if W and H are at least 1 |
| Rectify.DestinationProperExactly | getSticky.py:64-68 | the destination has top-left strictly left of and above bottom-right if and only if both sizes are at least 2 |
| Rectify.DestinationIsCanonical | getSticky.py:50-70 | for output sizes of at least 2 in each direction, ordering the destination corners again, in any order, returns the destination unchanged, so source and destination corners pair up role by role |
| Candidates.Ratio | getSticky.py:122 | the ratio of two positive sides is at least 1 and is the longer side over the shorter |
| Candidates.RatioSymmetric | getSticky.py:122 | swapping width and height leaves the ratio unchanged |
| Candidates.LowerRatioBoundNeverRejects | getSticky.py:122-123 | no pair of positive sides fails the `MIN_RATIO` test |
| Candidates.RatioWithinBandIff | getSticky.py:122-124 | the ratio is at most `MAX_RATIO` if and only if the longer side is at most 1.8 times the shorter, a test without division |
| Candidates.Classify | getSticky.py:111-124 | skipped as too small if and only if area < 500; skipped as degenerate if and only if area ≥ 500 and a side is zero; kept if and only if area ≥ 500, both sides are positive and the longer side is at most 1.8 times the shorter |
| Candidates.ClassifySymmetric | getSticky.py:117-124 | swapping the rectangle's width and height never changes the verdict |
| Candidates.AreaBoundaryInclusive | getSticky.py:111-113 | a contour of area exactly 500 whose rectangle is a square is kept; one of area 499.99 is skipped |
| Candidates.RatioBoundaryInclusive | getSticky.py:122-124 | sides in ratio exactly 1.8, either way round, are kept; ratio 1.81 is skipped for its ratio |
| Candidates.Survivors | getSticky.py:110-124 | the contours the loop keeps, in input order, are never more than the contours it sees; their contents are stated by the three rows below |
| Candidates.SurvivorsKeepMultiplicity | getSticky.py:110-124 | each kept contour record occurs among the survivors exactly as often as in the input, and a skipped one not at all |
| Candidates.SurvivorsAreTheKept | getSticky.py:110-124 | a contour is among the survivors if and only if it is in the input and is kept |
| Candidates.SurvivorsStep | getSticky.py:110-124 | the step equation of the loop invariant: one more contour extends the survivors by that contour if and only if it is kept |
| ColourMask.Foreground | getSticky.py:90-97 | a pixel is foreground if and only if some table entry contains it in all three channels, bounds inclusive |
| ColourMask.ForegroundOrderIndependent | getSticky.py:93-97 | two tables with the same entries, in any order and with any repetition, mark the same pixels |
| ColourMask.ColourTableWellFormed | getSticky.py:20-26 | every bound of `COLOR_RANGES` fits in an unsigned byte, and every lower bound is at most its upper bound |
| ColourMask.BuildMask | getSticky.py:89-97 | the mask has the image's shape, and each pixel is set if and only if some table entry contains that pixel |
| Pipeline.ExtractNotes | getSticky.py:109-138 | saved notes are numbered 1..n without gaps. Each note comes from a kept contour and carries that contour's warp. The source positions are strictly increasing, so notes follow contour order. Every kept contour is saved. The reported count `postit_index − 1` equals n, the number of survivors |

## Left out

- Image loading, the `IOError` for an unreadable image, creating the output
  directory, `imwrite`, and every `print`. These are I/O. The file name
  `postit_<n>.jpg` is represented only by the note's number `n`.
- The OpenCV computations: `cvtColor`, the morphological open and close,
  `findContours`, `contourArea`, `minAreaRect`, `boxPoints`,
  `getPerspectiveTransform` and `warpPerspective`. They are library code.
  Their results enter as inputs: HSV pixels, and per contour its area, its
  rectangle's sides and its four box points. A warp is represented by what
  is handed to OpenCV: source corners, destination corners and output size.
- Floating point. The source uses float32 corners, float64 norms and ratios,
  and the binary approximations of 0.6 and 1.8. The model uses exact reals.
  Near a threshold, or when two corner sums tie, rounding can decide
  differently from the model.
- Corners.OrderPoints: takes any non-empty list of points. `boxPoints`
  always supplies four. An empty list makes numpy raise, which the model
  excludes by its precondition.
- ColourMask.BuildMask: the mask holds booleans, not the 0/255 bytes of
  OpenCV. Hue values above 179 cannot come out of OpenCV's 8-bit HSV
  conversion, but the model does not restrict them.
- `picToDoc.py` (document assembly, image resizing, PDF export) is not part
  of this model.
