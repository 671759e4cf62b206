/**
  The data handling of Stitcher.java around its OpenCV calls: the downscale
  decision for input images, the column mask that restricts feature
  detection, the distance filter on candidate matches, gathering the matched
  points for the homography, selecting the matches RANSAC used, the
  side-by-side canvas of two images, the overwrite of the warped canvas with
  the left image, and the store of the five step images.

  Feature detection, description, brute-force matching, homography fitting,
  warping, resizing and drawing are library calls; where the stitcher passes
  their results on, they appear as parameters.
*/
module Stitching {
  import opened CvCore

  datatype Option<T> = None | Some(value: T)

  /** The number of step images a run produces. */
  const NUM_STEPS: nat := 5
  /** Inputs whose larger side exceeds this many pixels are downscaled. */
  const MAX_DIMENSION: nat := 1024
  /** A match is kept when its distance is below this multiple of the best distance. */
  const MATCH_THRESHOLD: real := 3.0
  /** The reprojection error, in pixels, under which RANSAC counts a match as an inlier. */
  const RANSAC_THRESHOLD: real := 1.0
  /** The exact integer value of Java's Double.MAX_VALUE, (2 - 2^-52) * 2^1023. */
  const DOUBLE_MAX_VALUE: real := 179769313486231570814527423731704356798070567525844996598917476803157260780028538760589558632766878171540458953514382464234321326889464182768467546703537516986049910576551282076245490090389328944075868508455133942304583236903222948165808559332123348274797826204144723168738177180919299881250404026184124858368.0

  // ---------------------------------------------------------------------
  // createMatrix: the downscale decision
  // ---------------------------------------------------------------------

  /** The size of a matrix. */
  datatype Dims = Dims(rows: nat, cols: nat)

  function MaxSide(d: Dims): nat { if d.rows <= d.cols then d.cols else d.rows }

  /**
    The scale factor createMatrix resizes by, if it resizes at all:
    `1.0 * MAX_DIMENSION / max(rows, cols)` when that is below 1.0. For an
    empty matrix Java's division yields +Infinity, which is not below 1.0.
  */
  function ResizeScale(d: Dims): (s: Option<real>)
    ensures s.Some? <==> MaxSide(d) > MAX_DIMENSION
    ensures s.Some? ==> 0.0 < s.value < 1.0 && s.value * MaxSide(d) as real == MAX_DIMENSION as real
  {
    var m := MaxSide(d);
    if m == 0 then None
    else
      var scale := 1.0 * MAX_DIMENSION as real / m as real;
      assert scale * m as real == MAX_DIMENSION as real;
      if scale < 1.0 then Some(scale) else None
  }

  /**
    The size of the matrix createMatrix returns for a bitmap of size `d`;
    `resize` stands for Imgproc.resize, whose rounding is the library's.
  */
  function CreateMatrix(d: Dims, resize: (Dims, real) -> Dims): (r: Dims)
    ensures MaxSide(d) <= MAX_DIMENSION ==> r == d
    ensures MaxSide(d) > MAX_DIMENSION ==> r == resize(d, MAX_DIMENSION as real / MaxSide(d) as real)
  {
    match ResizeScale(d)
    case Some(scale) => resize(d, scale)
    case None => d
  }

  // ---------------------------------------------------------------------
  // createMask: the column band for feature detection
  // ---------------------------------------------------------------------

  /**
    `xMin = (int)(min * cols)` and `xMax = (int)(max * cols)`. The cast
    truncates toward zero, which for these non-negative products is the floor.
  */
  function BandLimits(cols: nat, min: real, max: real): (r: (int, int))
    requires 0.0 <= min <= max <= 1.0
    ensures 0 <= r.0 <= r.1 <= cols
    ensures r.0 as real <= min * cols as real < r.0 as real + 1.0
    ensures r.1 as real <= max * cols as real < r.1 as real + 1.0
  {
    var n := cols as real;
    var xMin, xMax := (min * n).Floor, (max * n).Floor;
    ScaleFloorMonotone(0.0, min, n);
    ScaleFloorMonotone(min, max, n);
    ScaleFloorMonotone(max, 1.0, n);
    (xMin, xMax)
  }

  /** Scaling by a non-negative factor, then taking the floor, is monotone. */
  lemma ScaleFloorMonotone(a: real, b: real, n: real)
    requires a <= b && 0.0 <= n
    ensures a * n <= b * n
    ensures (a * n).Floor <= (b * n).Floor
  {
    assert 0.0 <= (b - a) * n;
    assert (a * n).Floor as real <= a * n <= b * n < (b * n).Floor as real + 1.0;
  }

  /** Column `j` lies in the band [xMin, xMax) the mask is meant to allow. */
  predicate InBand(cols: nat, min: real, max: real, j: int)
    requires 0.0 <= min <= max <= 1.0
  {
    var (xMin, xMax) := BandLimits(cols, min, max);
    xMin <= j < xMax
  }

  /**
    Column `j` is covered by the polygon createMask fills: its corners lie on
    the columns xMin and xMax - 1.
  */
  predicate InPolygon(cols: nat, min: real, max: real, j: int)
    requires 0.0 <= min <= max <= 1.0
  {
    var (xMin, xMax) := BandLimits(cols, min, max);
    Between(xMin, xMax - 1, j)
  }

  /**
    createMask as written: a CV_8UC1 matrix of the size of `matrix`, set to 0,
    then filled with 255 inside the polygon (xMin, 0), (xMin, rows - 1),
    (xMax - 1, rows - 1), (xMax - 1, 0).
  */
  method CreateMaskAsWritten<P>(matrix: array2<P>, min: real, max: real) returns (mask: array2<uint8>)
    requires 0.0 <= min <= max <= 1.0
    ensures fresh(mask)
    ensures mask.Length0 == matrix.Length0 && mask.Length1 == matrix.Length1
    ensures forall i, j :: 0 <= i < mask.Length0 && 0 <= j < mask.Length1 ==>
      mask[i, j] == if InPolygon(matrix.Length1, min, max, j) then 255 else 0
  {
    mask := new uint8[matrix.Length0, matrix.Length1];
    var (xMin, xMax) := BandLimits(matrix.Length1, min, max);
    FillRect(mask, 0, mask.Length0, 0, mask.Length1, 0);
    FillRectPolygon(mask, xMin, 0, xMax - 1, matrix.Length0 - 1, 255);
  }

  /**
    createMask with the fill skipped when the band is empty: the cell in
    column `j` of every row is 255 exactly when xMin <= j < xMax, and 0
    otherwise.
  */
  method CreateMask<P>(matrix: array2<P>, min: real, max: real) returns (mask: array2<uint8>)
    requires 0.0 <= min <= max <= 1.0
    ensures fresh(mask)
    ensures mask.Length0 == matrix.Length0 && mask.Length1 == matrix.Length1
    ensures forall i, j :: 0 <= i < mask.Length0 && 0 <= j < mask.Length1 ==>
      mask[i, j] == if InBand(matrix.Length1, min, max, j) then 255 else 0
  {
    mask := new uint8[matrix.Length0, matrix.Length1];
    var (xMin, xMax) := BandLimits(matrix.Length1, min, max);
    FillRect(mask, 0, mask.Length0, 0, mask.Length1, 0);
    if xMin < xMax {
      FillRectPolygon(mask, xMin, 0, xMax - 1, matrix.Length0 - 1, 255);
    }
  }

  /** Whenever the band is non-empty, the polygon covers exactly the band. */
  lemma PolygonIsBand(cols: nat, min: real, max: real, j: int)
    requires 0.0 <= min <= max <= 1.0
    requires BandLimits(cols, min, max).0 < BandLimits(cols, min, max).1
    ensures InPolygon(cols, min, max, j) <==> InBand(cols, min, max, j)
  {
  }

  /**
    With min == max the band is empty, yet the polygon as written covers two
    columns: for a 4-column matrix and min = max = 0.5, xMin = xMax = 2 and
    columns 1 and 2 are filled.
  */
  lemma EmptyBandFilledAsWritten()
    ensures forall j :: !InBand(4, 0.5, 0.5, j)
    ensures InPolygon(4, 0.5, 0.5, 1) && InPolygon(4, 0.5, 0.5, 2)
  {
    assert BandLimits(4, 0.5, 0.5) == (2, 2);
  }

  /**
    The floors of the two ends can also coincide with min < max: for a right
    image one column wide, run() asks for (0.0, 0.5), xMin = xMax = 0, and the
    polygon as written fills column 0, which the exact band
    0 <= 0 < 0.5 also allows, while the floored band [0, 0) is empty.
  */
  lemma OneColumnRightBand()
    ensures BandLimits(1, 0.0, 0.5) == (0, 0)
    ensures InPolygon(1, 0.0, 0.5, 0)
    ensures !InBand(1, 0.0, 0.5, 0)
  {
    assert (0.0 * 1 as real).Floor == 0;
    assert (0.5 * 1 as real).Floor == 0;
  }

  function RangeSet(lo: int, hi: int): (s: set<int>)
    requires lo <= hi
    ensures |s| == hi - lo
    ensures forall j :: j in s <==> lo <= j < hi
    decreases hi - lo
  {
    if lo == hi then {} else RangeSet(lo, hi - 1) + {hi - 1}
  }

  /** The mask allows exactly floor(max * cols) - floor(min * cols) columns. */
  lemma BandWidth(cols: nat, min: real, max: real)
    requires 0.0 <= min <= max <= 1.0
    ensures |set j | 0 <= j < cols && InBand(cols, min, max, j)| ==
            BandLimits(cols, min, max).1 - BandLimits(cols, min, max).0
  {
    var (xMin, xMax) := BandLimits(cols, min, max);
    var band := set j | 0 <= j < cols && InBand(cols, min, max, j);
    assert band == RangeSet(xMin, xMax);
  }

  /**
    The two bands of a run: the left image is searched in columns
    [cols / 2, cols), the right image in [0, cols / 2), so for two images of
    equal width every column is in exactly one of the two bands.
  */
  lemma DetectionBands(cols: nat)
    ensures BandLimits(cols, 0.5, 1.0) == (cols / 2, cols)
    ensures BandLimits(cols, 0.0, 0.5) == (0, cols / 2)
    ensures forall j :: 0 <= j < cols ==> (InBand(cols, 0.5, 1.0, j) <==> !InBand(cols, 0.0, 0.5, j))
  {
    var h := cols / 2;
    assert cols == 2 * h || cols == 2 * h + 1;
    assert h as real <= 0.5 * cols as real < h as real + 1.0;
    FloorUnique(0.5 * cols as real, BandLimits(cols, 0.5, 1.0).0, h);
    FloorUnique(0.5 * cols as real, BandLimits(cols, 0.0, 0.5).1, h);
  }

  lemma FloorUnique(x: real, k: int, k': int)
    requires k as real <= x < k as real + 1.0
    requires k' as real <= x < k' as real + 1.0
    ensures k == k'
  {
  }

  // ---------------------------------------------------------------------
  // Ordered selection, shared by matchFeatures and filterMatches
  // ---------------------------------------------------------------------

  /**
    The elements `xs[k]` with `keep[k]` true, for k < |keep|, in their
    original order: what a loop appending the kept elements to a list builds.
  */
  function Select<T>(xs: seq<T>, keep: seq<bool>): (r: seq<T>)
    requires |keep| <= |xs|
    ensures |r| <= |keep|
  {
    if keep == [] then []
    else
      var n := |keep| - 1;
      Select(xs, keep[..n]) + (if keep[n] then [xs[n]] else [])
  }

  /** The positions k < |keep| with keep[k] set, in increasing order. */
  function Positions(keep: seq<bool>): (idx: seq<nat>)
    ensures |idx| <= |keep|
    ensures forall j :: 0 <= j < |idx| ==> idx[j] < |keep|
  {
    if keep == [] then []
    else
      var n := |keep| - 1;
      Positions(keep[..n]) + (if keep[n] then [n] else [])
  }

  /** The j-th selected element is the element at the j-th set position. */
  lemma {:induction false} SelectAtPositions<T>(xs: seq<T>, keep: seq<bool>)
    requires |keep| <= |xs|
    ensures |Positions(keep)| == |Select(xs, keep)|
    ensures forall j :: 0 <= j < |Select(xs, keep)| ==> Select(xs, keep)[j] == xs[Positions(keep)[j]]
  {
    if keep != [] {
      SelectAtPositions(xs, keep[..|keep| - 1]);
    }
  }

  /** The set positions are listed in strictly increasing order. */
  lemma {:induction false} PositionsIncrease(keep: seq<bool>)
    ensures forall j1, j2 :: 0 <= j1 < j2 < |Positions(keep)| ==> Positions(keep)[j1] < Positions(keep)[j2]
  {
    if keep != [] {
      PositionsIncrease(keep[..|keep| - 1]);
    }
  }

  /** A position is listed exactly when its flag is set. */
  lemma {:induction false} PositionsAreSetFlags(keep: seq<bool>)
    ensures forall k :: 0 <= k < |keep| ==> (k in Positions(keep) <==> keep[k])
  {
    if keep != [] {
      var n := |keep| - 1;
      PositionsAreSetFlags(keep[..n]);
      assert forall k :: 0 <= k < n ==> keep[..n][k] == keep[k];
    }
  }

  /**
    The selection picks, in increasing order of position, exactly the
    positions whose flag is set: `idx` lists them.
  */
  lemma SelectPositions<T>(xs: seq<T>, keep: seq<bool>) returns (idx: seq<nat>)
    requires |keep| <= |xs|
    ensures |idx| == |Select(xs, keep)|
    ensures forall j :: 0 <= j < |idx| ==> idx[j] < |keep| && Select(xs, keep)[j] == xs[idx[j]]
    ensures forall j1, j2 :: 0 <= j1 < j2 < |idx| ==> idx[j1] < idx[j2]
    ensures forall k :: 0 <= k < |keep| ==> (k in idx <==> keep[k])
  {
    idx := Positions(keep);
    SelectAtPositions(xs, keep);
    PositionsIncrease(keep);
    PositionsAreSetFlags(keep);
  }

  /** With no flag set, nothing is selected. */
  lemma {:induction false} SelectNone<T>(xs: seq<T>, keep: seq<bool>)
    requires |keep| <= |xs|
    requires forall k :: 0 <= k < |keep| ==> !keep[k]
    ensures Select(xs, keep) == []
  {
    if keep != [] {
      SelectNone(xs, keep[..|keep| - 1]);
    }
  }

  // ---------------------------------------------------------------------
  // matchFeatures: the distance filter
  // ---------------------------------------------------------------------

  /**
    The value of minDistance after the first loop of matchFeatures: it starts
    at Double.MAX_VALUE and is lowered to every smaller distance met.
  */
  function MinDistance(c: seq<DMatch>): (m: real)
    ensures 0.0 <= m <= DOUBLE_MAX_VALUE
    ensures forall k :: 0 <= k < |c| ==> m <= c[k].distance
    ensures m == DOUBLE_MAX_VALUE || exists k :: 0 <= k < |c| && c[k].distance == m
  {
    if c == [] then DOUBLE_MAX_VALUE
    else
      var n := |c| - 1;
      var m := MinDistance(c[..n]);
      assert forall k :: 0 <= k < n ==> c[..n][k] == c[k];
      if c[n].distance < m then c[n].distance else m
  }

  /**
    The test a distance `d` must pass to be kept: below `bound`, or, when
    `inclusive`, at most `bound`.
  */
  predicate Passes(d: real, bound: real, inclusive: bool)
  {
    if inclusive then d <= bound else d < bound
  }

  /** The flags "passes the bound" of the candidates. */
  function PassFlags(c: seq<DMatch>, bound: real, inclusive: bool): (keep: seq<bool>)
    ensures |keep| == |c|
  {
    seq(|c|, k requires 0 <= k < |c| => Passes(c[k].distance, bound, inclusive))
  }

  /** The first loop of matchFeatures. */
  method MinimumDistance(matches: seq<DMatch>) returns (minDistance: real)
    ensures minDistance == MinDistance(matches)
  {
    minDistance := DOUBLE_MAX_VALUE;
    var i := 0;
    while i < |matches|
      invariant 0 <= i <= |matches|
      invariant minDistance == MinDistance(matches[..i])
    {
      assert matches[..i + 1][..i] == matches[..i];
      if matches[i].distance < minDistance {
        minDistance := matches[i].distance;
      }
      i := i + 1;
    }
    assert matches[..|matches|] == matches;
  }

  /** The second loop of matchFeatures: the candidates whose distance passes `bound`, in order. */
  method KeepClose(matches: seq<DMatch>, bound: real, inclusive: bool) returns (goodMatches: seq<DMatch>)
    ensures goodMatches == Select(matches, PassFlags(matches, bound, inclusive))
  {
    ghost var keep := PassFlags(matches, bound, inclusive);
    goodMatches := [];
    var i := 0;
    while i < |matches|
      invariant 0 <= i <= |matches|
      invariant goodMatches == Select(matches, keep[..i])
    {
      assert keep[..i + 1][..i] == keep[..i];
      if Passes(matches[i].distance, bound, inclusive) {
        goodMatches := goodMatches + [matches[i]];
      }
      i := i + 1;
    }
    assert keep[..|matches|] == keep;
  }

  /** The matches matchFeatures returns for the brute-force candidates `c`. */
  function GoodMatches(c: seq<DMatch>): seq<DMatch>
  {
    Select(c, PassFlags(c, MATCH_THRESHOLD * MinDistance(c), false))
  }

  /**
    matchFeatures as written, given the candidates the brute-force matcher
    produced: keeps `match.distance < MATCH_THRESHOLD * minDistance`.
  */
  method MatchFeatures(matches: seq<DMatch>) returns (goodMatches: seq<DMatch>)
    ensures goodMatches == GoodMatches(matches)
    ensures matches == [] ==> goodMatches == []
  {
    var minDistance := MinimumDistance(matches);
    goodMatches := KeepClose(matches, MATCH_THRESHOLD * minDistance, false);
  }

  /** The matches within MATCH_THRESHOLD times the best distance, that best distance included. */
  function MatchesWithinThreshold(c: seq<DMatch>): seq<DMatch>
  {
    Select(c, PassFlags(c, MATCH_THRESHOLD * MinDistance(c), true))
  }

  /**
    matchFeatures as its comment describes it, keeping the matches "at most
    MATCH_THRESHOLD times worse than the best match":
    `match.distance <= MATCH_THRESHOLD * minDistance`.
  */
  method MatchFeaturesWithinThreshold(matches: seq<DMatch>) returns (goodMatches: seq<DMatch>)
    ensures goodMatches == MatchesWithinThreshold(matches)
    ensures matches == [] ==> goodMatches == []
  {
    var minDistance := MinimumDistance(matches);
    goodMatches := KeepClose(matches, MATCH_THRESHOLD * minDistance, true);
  }

  /**
    Over all candidates, minDistance is the smallest distance (the initial
    Double.MAX_VALUE is never smaller than a distance a float can hold).
  */
  lemma MinDistanceIsMinimum(c: seq<DMatch>)
    requires c != []
    requires forall k :: 0 <= k < |c| ==> c[k].distance <= DOUBLE_MAX_VALUE
    ensures exists k :: 0 <= k < |c| && c[k].distance == MinDistance(c)
    ensures forall k :: 0 <= k < |c| ==> MinDistance(c) <= c[k].distance
  {
    if MinDistance(c) == DOUBLE_MAX_VALUE {
      assert c[0].distance == MinDistance(c);
    }
  }

  /**
    Filtering by a distance bound returns a subsequence of the candidates in
    their original order: `idx` gives the positions kept, and a candidate is
    kept exactly when its distance passes the bound.
  */
  lemma FilterKeepsCloseMatches(c: seq<DMatch>, bound: real, inclusive: bool) returns (idx: seq<nat>)
    ensures |idx| == |Select(c, PassFlags(c, bound, inclusive))|
    ensures forall j :: 0 <= j < |idx| ==> idx[j] < |c| && Select(c, PassFlags(c, bound, inclusive))[j] == c[idx[j]]
    ensures forall j1, j2 :: 0 <= j1 < j2 < |idx| ==> idx[j1] < idx[j2]
    ensures forall k :: 0 <= k < |c| ==> (k in idx <==> Passes(c[k].distance, bound, inclusive))
  {
    idx := SelectPositions(c, PassFlags(c, bound, inclusive));
  }

  /**
    The result of matchFeatures is the candidates, in order, whose distance
    is below MATCH_THRESHOLD times the smallest one; every other candidate is
    dropped.
  */
  lemma GoodMatchesAreClose(c: seq<DMatch>) returns (idx: seq<nat>)
    ensures |idx| == |GoodMatches(c)|
    ensures forall j :: 0 <= j < |idx| ==> idx[j] < |c| && GoodMatches(c)[j] == c[idx[j]]
    ensures forall j1, j2 :: 0 <= j1 < j2 < |idx| ==> idx[j1] < idx[j2]
    ensures forall k :: 0 <= k < |c| ==>
      (k in idx <==> c[k].distance < MATCH_THRESHOLD * MinDistance(c))
  {
    idx := FilterKeepsCloseMatches(c, MATCH_THRESHOLD * MinDistance(c), false);
  }

  /**
    When some candidate has distance 0, matchFeatures as written keeps
    nothing, since no distance is below 3.0 * 0.0; for instance one perfect
    match, [DMatch(0, 0, 0, 0.0)], yields no match at all.
  */
  lemma PerfectMatchDropsAll(c: seq<DMatch>)
    requires exists k :: 0 <= k < |c| && c[k].distance == 0.0
    ensures GoodMatches(c) == []
  {
    SelectNone(c, PassFlags(c, MATCH_THRESHOLD * MinDistance(c), false));
  }

  /** A filter whose bound the smallest distance passes keeps a best candidate. */
  lemma BestMatchSurvives(c: seq<DMatch>, bound: real, inclusive: bool)
    requires c != []
    requires forall k :: 0 <= k < |c| ==> c[k].distance <= DOUBLE_MAX_VALUE
    requires Passes(MinDistance(c), bound, inclusive)
    ensures exists k :: 0 <= k < |c| && c[k].distance == MinDistance(c) &&
                        c[k] in Select(c, PassFlags(c, bound, inclusive))
  {
    MinDistanceIsMinimum(c);
    var k :| 0 <= k < |c| && c[k].distance == MinDistance(c);
    var idx := FilterKeepsCloseMatches(c, bound, inclusive);
    assert k in idx;
    var j :| 0 <= j < |idx| && idx[j] == k;
    assert Select(c, PassFlags(c, bound, inclusive))[j] == c[k];
  }

  /**
    Keeping the matches at most MATCH_THRESHOLD times the best distance never
    returns nothing for a non-empty candidate list: a best match is kept.
  */
  lemma WithinThresholdKeepsBest(c: seq<DMatch>)
    requires c != []
    requires forall k :: 0 <= k < |c| ==> c[k].distance <= DOUBLE_MAX_VALUE
    ensures exists k :: 0 <= k < |c| && c[k].distance == MinDistance(c) && c[k] in MatchesWithinThreshold(c)
  {
    BestMatchSurvives(c, MATCH_THRESHOLD * MinDistance(c), true);
  }

  /**
    The matches at most MATCH_THRESHOLD times the best distance, in order,
    and no others.
  */
  lemma WithinThresholdAreClose(c: seq<DMatch>) returns (idx: seq<nat>)
    ensures |idx| == |MatchesWithinThreshold(c)|
    ensures forall j :: 0 <= j < |idx| ==> idx[j] < |c| && MatchesWithinThreshold(c)[j] == c[idx[j]]
    ensures forall j1, j2 :: 0 <= j1 < j2 < |idx| ==> idx[j1] < idx[j2]
    ensures forall k :: 0 <= k < |c| ==>
      (k in idx <==> c[k].distance <= MATCH_THRESHOLD * MinDistance(c))
  {
    idx := FilterKeepsCloseMatches(c, MATCH_THRESHOLD * MinDistance(c), true);
  }

  // ---------------------------------------------------------------------
  // findHomography: gathering the matched points
  // ---------------------------------------------------------------------

  /** Every match refers to an existing left and right key point. */
  predicate IndicesInRange(keyPointsL: seq<KeyPoint>, keyPointsR: seq<KeyPoint>, matches: seq<DMatch>)
  {
    forall i :: 0 <= i < |matches| ==>
      0 <= matches[i].queryIdx < |keyPointsL| && 0 <= matches[i].trainIdx < |keyPointsR|
  }

  /** The left-image locations of the matches, in match order. */
  function QueryPoints(keyPointsL: seq<KeyPoint>, matches: seq<DMatch>): seq<Point>
    requires forall i :: 0 <= i < |matches| ==> 0 <= matches[i].queryIdx < |keyPointsL|
  {
    seq(|matches|, i requires 0 <= i < |matches| => keyPointsL[matches[i].queryIdx].pt)
  }

  /** The right-image locations of the matches, in match order. */
  function TrainPoints(keyPointsR: seq<KeyPoint>, matches: seq<DMatch>): seq<Point>
    requires forall i :: 0 <= i < |matches| ==> 0 <= matches[i].trainIdx < |keyPointsR|
  {
    seq(|matches|, i requires 0 <= i < |matches| => keyPointsR[matches[i].trainIdx].pt)
  }

  /**
    The loop of findHomography: two point arrays as long as the match list,
    the i-th holding the locations of the i-th match's key points.
  */
  method GatherPoints(keyPointsL: seq<KeyPoint>, keyPointsR: seq<KeyPoint>, matches: seq<DMatch>)
    returns (matchedPointsL: seq<Point>, matchedPointsR: seq<Point>)
    requires IndicesInRange(keyPointsL, keyPointsR, matches)
    ensures |matchedPointsL| == |matches| && |matchedPointsR| == |matches|
    ensures forall i :: 0 <= i < |matches| ==> matchedPointsL[i] == keyPointsL[matches[i].queryIdx].pt
    ensures forall i :: 0 <= i < |matches| ==> matchedPointsR[i] == keyPointsR[matches[i].trainIdx].pt
  {
    var arrayL := new Point[|matches|];
    var arrayR := new Point[|matches|];
    var i := 0;
    while i < |matches|
      invariant 0 <= i <= |matches|
      invariant forall k :: 0 <= k < i ==> arrayL[k] == keyPointsL[matches[k].queryIdx].pt
      invariant forall k :: 0 <= k < i ==> arrayR[k] == keyPointsR[matches[k].trainIdx].pt
    {
      arrayL[i] := keyPointsL[matches[i].queryIdx].pt;
      arrayR[i] := keyPointsR[matches[i].trainIdx].pt;
      i := i + 1;
    }
    matchedPointsL, matchedPointsR := arrayL[..], arrayR[..];
  }

  /** What Calib3d.findHomography returns: the 3x3 matrix and one inlier flag per point pair. */
  datatype Estimate<H> = Estimate(homography: H, mask: seq<int8>)

  /**
    findHomography: `ransac(src, dst, threshold)` stands for
    Calib3d.findHomography with the RANSAC method. The right points are the
    source and the left points the destination, so the homography maps the
    right image into the left one.
  */
  method FindHomography<H>(keyPointsL: seq<KeyPoint>, keyPointsR: seq<KeyPoint>, matches: seq<DMatch>,
                           ransac: (seq<Point>, seq<Point>, real) -> Estimate<H>)
    returns (e: Estimate<H>)
    requires IndicesInRange(keyPointsL, keyPointsR, matches)
    ensures e == ransac(TrainPoints(keyPointsR, matches), QueryPoints(keyPointsL, matches), RANSAC_THRESHOLD)
  {
    var matchedPointsL, matchedPointsR := GatherPoints(keyPointsL, keyPointsR, matches);
    assert matchedPointsL == QueryPoints(keyPointsL, matches);
    assert matchedPointsR == TrainPoints(keyPointsR, matches);
    e := ransac(matchedPointsR, matchedPointsL, RANSAC_THRESHOLD);
  }

  // ---------------------------------------------------------------------
  // filterMatches: the matches RANSAC used
  // ---------------------------------------------------------------------

  /** The flags "mask[i] == 1". */
  function Inliers(mask: seq<int8>): (keep: seq<bool>)
    ensures |keep| == |mask|
  {
    seq(|mask|, k requires 0 <= k < |mask| => mask[k] == 1)
  }

  /** The number of entries equal to 1. */
  function CountOnes(mask: seq<int8>): nat
  {
    if mask == [] then 0
    else CountOnes(mask[..|mask| - 1]) + (if mask[|mask| - 1] == 1 then 1 else 0)
  }

  /**
    filterMatches: walks the mask and appends the match at every position
    flagged 1. A mask longer than the match list would index past its end.
  */
  method FilterMatches(matches: seq<DMatch>, mask: seq<int8>) returns (used: seq<DMatch>)
    requires |mask| <= |matches|
    ensures used == Select(matches, Inliers(mask))
  {
    ghost var keep := Inliers(mask);
    used := [];
    var i := 0;
    while i < |mask|
      invariant 0 <= i <= |mask|
      invariant used == Select(matches, keep[..i])
    {
      assert keep[..i + 1][..i] == keep[..i];
      if mask[i] == 1 {
        used := used + [matches[i]];
      }
      i := i + 1;
    }
    assert keep[..|mask|] == keep;
  }

  /** filterMatches returns as many matches as the mask holds 1s. */
  lemma {:induction false} FilterMatchesCount(matches: seq<DMatch>, mask: seq<int8>)
    requires |mask| <= |matches|
    ensures |Select(matches, Inliers(mask))| == CountOnes(mask)
  {
    if mask != [] {
      var n := |mask| - 1;
      assert Inliers(mask)[..n] == Inliers(mask[..n]);
      FilterMatchesCount(matches, mask[..n]);
    }
  }

  /**
    filterMatches keeps, in order, exactly the matches at the positions where
    the mask is 1.
  */
  lemma FilterMatchesSelectsInliers(matches: seq<DMatch>, mask: seq<int8>) returns (idx: seq<nat>)
    requires |mask| <= |matches|
    ensures |idx| == |Select(matches, Inliers(mask))|
    ensures forall j :: 0 <= j < |idx| ==> idx[j] < |mask| && Select(matches, Inliers(mask))[j] == matches[idx[j]]
    ensures forall j1, j2 :: 0 <= j1 < j2 < |idx| ==> idx[j1] < idx[j2]
    ensures forall k :: 0 <= k < |mask| ==> (k in idx <==> mask[k] == 1)
  {
    idx := SelectPositions(matches, Inliers(mask));
  }

  // ---------------------------------------------------------------------
  // mergeMatrices and mergeImages: the canvases
  // ---------------------------------------------------------------------

  /**
    mergeMatrices: a canvas of max(rowsL, rowsR) rows and colsL + colsR
    columns of the left matrix's type, set to 0 (`zero` is Scalar.all(0) in
    that type), with the left matrix copied to column 0 and the right one to
    column colsL.
  */
  method MergeMatrices<P(0)>(matrixL: array2<P>, matrixR: array2<P>, zero: P) returns (merged: array2<P>)
    ensures fresh(merged)
    ensures merged.Length0 == Max(matrixL.Length0, matrixR.Length0)
    ensures merged.Length1 == matrixL.Length1 + matrixR.Length1
    ensures forall i, j :: 0 <= i < matrixL.Length0 && 0 <= j < matrixL.Length1 ==>
      merged[i, j] == matrixL[i, j]
    ensures forall i, j :: 0 <= i < matrixR.Length0 && 0 <= j < matrixR.Length1 ==>
      merged[i, matrixL.Length1 + j] == matrixR[i, j]
    ensures forall i, j :: 0 <= i < merged.Length0 && 0 <= j < merged.Length1 ==>
      (j < matrixL.Length1 && i >= matrixL.Length0) || (j >= matrixL.Length1 && i >= matrixR.Length0) ==>
      merged[i, j] == zero
  {
    merged := new P[Max(matrixL.Length0, matrixR.Length0), matrixL.Length1 + matrixR.Length1];
    FillRect(merged, 0, merged.Length0, 0, merged.Length1, zero);
    CopyTo(matrixL, merged, 0, 0);
    CopyTo(matrixR, merged, 0, matrixL.Length1);
  }

  /**
    mergeImages after the warp: `warped` is the canvas warpPerspective drew
    the right image into, rowsL x (colsL + colsR); the left image is copied
    over its top-left rowsL x colsL region and the rest keeps the warped
    pixels.
  */
  method MergeImages<P>(imageL: array2<P>, imageR: array2<P>, warped: array2<P>)
    requires warped != imageL
    requires warped.Length0 == imageL.Length0 && warped.Length1 == imageL.Length1 + imageR.Length1
    modifies warped
    ensures forall i, j :: 0 <= i < imageL.Length0 && 0 <= j < imageL.Length1 ==>
      warped[i, j] == imageL[i, j]
    ensures forall i, j :: 0 <= i < warped.Length0 && imageL.Length1 <= j < warped.Length1 ==>
      warped[i, j] == old(warped[i, j])
  {
    CopyTo(imageL, warped, 0, 0);
  }

  // ---------------------------------------------------------------------
  // The step images
  // ---------------------------------------------------------------------

  /**
    A Stitcher holds the two input bitmaps and the NUM_STEPS images its run
    produced. `stepImage(bitmapL, bitmapR, k)` is the image run() stores as
    step k, computed by the library calls of the pipeline.
  */
  class Stitcher<Bitmap> {
    const bitmapL: Bitmap
    const bitmapR: Bitmap
    const stepImage: (Bitmap, Bitmap, nat) -> Bitmap
    const steps: array<Option<Bitmap>>

    ghost predicate Valid()
      reads this, steps
    {
      steps.Length == NUM_STEPS &&
      forall k :: 0 <= k < NUM_STEPS ==> steps[k] == Some(stepImage(bitmapL, bitmapR, k))
    }

    /** The constructor allocates NUM_STEPS empty slots and runs the stitcher. */
    constructor (bitmapL: Bitmap, bitmapR: Bitmap, stepImage: (Bitmap, Bitmap, nat) -> Bitmap)
      ensures Valid() && fresh(steps)
      ensures this.bitmapL == bitmapL && this.bitmapR == bitmapR && this.stepImage == stepImage
    {
      this.bitmapL := bitmapL;
      this.bitmapR := bitmapR;
      this.stepImage := stepImage;
      steps := new Option<Bitmap>[NUM_STEPS](_ => None);
      new;
      Run();
    }

    /** run() stores the image of every step, 0 to NUM_STEPS - 1. */
    method Run()
      requires steps.Length == NUM_STEPS
      modifies steps
      ensures Valid()
    {
      steps[0] := Some(stepImage(bitmapL, bitmapR, 0));
      steps[1] := Some(stepImage(bitmapL, bitmapR, 1));
      steps[2] := Some(stepImage(bitmapL, bitmapR, 2));
      steps[3] := Some(stepImage(bitmapL, bitmapR, 3));
      steps[4] := Some(stepImage(bitmapL, bitmapR, 4));
    }

    /** getStep: the image of step i, for 0 <= i < NUM_STEPS; the final image is step NUM_STEPS - 1. */
    function GetStep(i: int): (b: Bitmap)
      requires Valid() && 0 <= i < NUM_STEPS
      reads this, steps
      ensures b == stepImage(bitmapL, bitmapR, i)
    {
      steps[i].value
    }
  }
}
