/**
  The OpenCV value types the stitcher handles, and the three in-place matrix
  operations it relies on: `Mat.setTo` on a region, `Mat.copyTo` into a
  sub-rectangle of a larger matrix, and `Core.fillPoly` for an axis-aligned
  rectangle. A matrix is an `array2` of pixels of some type `P`; row index
  first, column index second, as in OpenCV.
*/
module CvCore {

  /** An element of a CV_8U matrix. */
  newtype uint8 = x: int | 0 <= x < 256

  /** A Java `byte`, as returned by `MatOfByte.toArray()`. */
  newtype int8 = x: int | -128 <= x < 128

  datatype Point = Point(x: real, y: real)

  /** A detected feature; the stitcher only ever reads `pt`. */
  datatype KeyPoint = KeyPoint(pt: Point, size: real, angle: real, response: real, octave: int, classId: int)

  /** A non-negative real number. */
  type NonNegReal = r: real | 0.0 <= r

  /**
    A correspondence between descriptor `queryIdx` of the left set and
    descriptor `trainIdx` of the right set. The brute-force matcher the
    stitcher creates compares descriptors by their Euclidean (L2) distance,
    which OpenCV stores as a float; here it is an exact non-negative real.
  */
  datatype DMatch = DMatch(queryIdx: int, trainIdx: int, imgIdx: int, distance: NonNegReal)

  function Min(a: int, b: int): int { if a <= b then a else b }
  function Max(a: int, b: int): int { if a <= b then b else a }

  /** `x` limited to the closed interval [lo, hi]. */
  function Clamp(x: int, lo: int, hi: int): (r: int)
    requires lo <= hi
    ensures lo <= r <= hi
    ensures lo <= x <= hi ==> r == x
    ensures x < lo ==> r == lo
    ensures hi < x ==> r == hi
  {
    if x < lo then lo else if hi < x then hi else x
  }

  /** `k` lies between `a` and `b`, both ends included, in either order. */
  predicate Between(a: int, b: int, k: int)
  {
    (a <= k <= b) || (b <= k <= a)
  }

  /**
    `Mat.setTo(v)` applied to the sub-rectangle of rows [top, bottom) and
    columns [left, right); every other cell keeps its value.
  */
  method FillRect<P>(m: array2<P>, top: nat, bottom: nat, left: nat, right: nat, v: P)
    requires top <= bottom <= m.Length0 && left <= right <= m.Length1
    modifies m
    ensures forall i, j :: 0 <= i < m.Length0 && 0 <= j < m.Length1 ==>
      m[i, j] == if top <= i < bottom && left <= j < right then v else old(m[i, j])
  {
    var i := top;
    while i < bottom
      invariant top <= i <= bottom
      invariant forall r, c :: 0 <= r < m.Length0 && 0 <= c < m.Length1 ==>
        m[r, c] == if top <= r < i && left <= c < right then v else old(m[r, c])
    {
      var j := left;
      while j < right
        invariant left <= j <= right
        invariant forall r, c :: 0 <= r < m.Length0 && 0 <= c < m.Length1 ==>
          m[r, c] == if (top <= r < i && left <= c < right) || (r == i && left <= c < j) then v else old(m[r, c])
      {
        m[i, j] := v;
        j := j + 1;
      }
      i := i + 1;
    }
  }

  /**
    `src.copyTo(new Mat(dst, new Rect(left, top, src.cols(), src.rows())))`:
    the sub-rectangle of `dst` whose top-left corner is (top, left) and whose
    size is that of `src` becomes a copy of `src`; the rest of `dst` is kept.
  */
  method CopyTo<P>(src: array2<P>, dst: array2<P>, top: nat, left: nat)
    requires src != dst
    requires top + src.Length0 <= dst.Length0 && left + src.Length1 <= dst.Length1
    modifies dst
    ensures forall i, j :: 0 <= i < dst.Length0 && 0 <= j < dst.Length1 ==>
      dst[i, j] == if top <= i < top + src.Length0 && left <= j < left + src.Length1
                   then src[i - top, j - left] else old(dst[i, j])
  {
    var i := 0;
    while i < src.Length0
      invariant 0 <= i <= src.Length0
      invariant forall r, c :: 0 <= r < dst.Length0 && 0 <= c < dst.Length1 ==>
        dst[r, c] == if top <= r < top + i && left <= c < left + src.Length1
                     then src[r - top, c - left] else old(dst[r, c])
    {
      var j := 0;
      while j < src.Length1
        invariant 0 <= j <= src.Length1
        invariant forall r, c :: 0 <= r < dst.Length0 && 0 <= c < dst.Length1 ==>
          dst[r, c] == if (top <= r < top + i && left <= c < left + src.Length1) || (r == top + i && left <= c < left + j)
                       then src[r - top, c - left] else old(dst[r, c])
      {
        dst[top + i, left + j] := src[i, j];
        j := j + 1;
      }
      i := i + 1;
    }
  }

  /**
    `Core.fillPoly` for the single polygon with corners (x0, y0), (x0, y1),
    (x1, y1), (x1, y0). OpenCV fills the inside of the polygon together with
    its outline, so every pixel whose column lies between x0 and x1 and whose
    row lies between y0 and y1, ends included and in either order, becomes
    `v`. Corners may lie outside the matrix; the fill is clipped to it.
  */
  method FillRectPolygon<P>(m: array2<P>, x0: int, y0: int, x1: int, y1: int, v: P)
    modifies m
    ensures forall i, j :: 0 <= i < m.Length0 && 0 <= j < m.Length1 ==>
      m[i, j] == if Between(y0, y1, i) && Between(x0, x1, j) then v else old(m[i, j])
  {
    var top := Clamp(Min(y0, y1), 0, m.Length0);
    var bottom := Clamp(Max(y0, y1) + 1, 0, m.Length0);
    var left := Clamp(Min(x0, x1), 0, m.Length1);
    var right := Clamp(Max(x0, x1) + 1, 0, m.Length1);
    FillRect(m, top, bottom, left, right, v);
  }
}
