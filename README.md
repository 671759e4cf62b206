# ImageStitcher core in Dafny

This project models the data handling of the ImageStitcher Android app. The
app stitches two overlapping photos into one panorama with OpenCV. The
`Stitcher` class downscales each input to at most 1024 pixels per side. It
detects features in a column band of each image: the right half of the left
image and the left half of the right image. It matches the features and
keeps the matches whose distance is below three times the best distance. It
fits a homography (a 3x3 projective transform) from the right image into the
left one with RANSAC, a random-sampling fit that also flags which matches it
used. Then it warps the right image onto a wide canvas and copies the left
image over the canvas's top-left corner. Along the way it stores five step
images. `FitImageView` sizes an image view so that its image fits the space
the parent allows without changing the aspect ratio.

Modules:

- `CvCore` (cv_core.dfy): the OpenCV value types the stitcher reads
  (`Point`, `KeyPoint`, `DMatch`, 8-bit cells). It also holds the three
  in-place matrix operations the stitcher calls: `setTo` on a region,
  `copyTo` into a sub-rectangle, and `fillPoly` of an axis-aligned rectangle.
  Matrices are `array2`s of a pixel type `P`.
- `Stitching` (stitcher.dfy): the code of `Stitcher.java`.
- `JavaInt` (java_int.dfy): Java `int` arithmetic. Products wrap around at
  32 bits and division rounds toward zero.
- `FitImageView` (fit_image_view.dfy): `onMeasure`'s size computation as
  Java computes it (`OnMeasure`), and the same computation in exact
  arithmetic (`AspectFit`), with the lemmas that relate them.

Library calls whose results the stitcher passes on are parameters of the
model: the brute-force matcher's candidate list, `Calib3d.findHomography`
(`ransac`), `Imgproc.resize` (`resize`), the canvas `warpPerspective` draws
into (`warped`), and the image each pipeline step produces (`stepImage`).

Where the comments and the code disagree, the model follows the code (the
corrected members of "## Findings" aside):

- The doc comment of `createMask` describes the band as `min * n <= i < max * n`
  in exact arithmetic. The code takes the floor of both ends, so the band is
  `[floor(min * n), floor(max * n))`. For an odd width the left image's band
  therefore starts one column earlier than the comment says, and the right
  image's band ends one column earlier: for 5 columns the comment gives the
  right image [0, 3) and the code [0, 2), the left image [3, 5) and [2, 5).
- The mask is filled with 255, not 1. Feature detection treats any non-zero
  cell as allowed.
- The stitcher checks no errors itself: no minimum match count, no empty
  feature set. Whatever the library does with too few points belongs to the
  `ransac` parameter.

## Model

| member | source | states |
|---|---|---|
| `CvCore.FillRect` | ImageStitcher/stitcher/src/main/java/dbuhler/stitcher/Stitcher.java:179 | `setTo` on a rectangle: the cells inside it get the value and every other cell keeps its old value |
| `CvCore.CopyTo` | ImageStitcher/stitcher/src/main/java/dbuhler/stitcher/Stitcher.java:185-186 | `copyTo` into a sub-rectangle at (top, left): that region becomes the source and the rest of the destination is unchanged |
| `CvCore.FillRectPolygon` | ImageStitcher/stitcher/src/main/java/dbuhler/stitcher/Stitcher.java:208-216 | `fillPoly` of a rectangle: every pixel between the corner columns and the corner rows, ends included and in either order, gets the value, clipped to the matrix; all other pixels keep their values |
| `Stitching.ResizeScale` | ImageStitcher/stitcher/src/main/java/dbuhler/stitcher/Stitcher.java:155-161 | a scale is chosen exactly when max(rows, cols) > 1024; it then lies strictly between 0 and 1 and maps the larger side to exactly 1024; an empty matrix divides to +Infinity and is not resized |
| `Stitching.CreateMatrix` | ImageStitcher/stitcher/src/main/java/dbuhler/stitcher/Stitcher.java:150-164 | dimensions are unchanged when max(rows, cols) <= 1024; otherwise the result is the resize by 1024 / max(rows, cols) |
| `Stitching.BandLimits` | ImageStitcher/stitcher/src/main/java/dbuhler/stitcher/Stitcher.java:203-204 | xMin and xMax are the floors of min * cols and max * cols, and 0 <= xMin <= xMax <= cols |
| `Stitching.CreateMaskAsWritten` | ImageStitcher/stitcher/src/main/java/dbuhler/stitcher/Stitcher.java:200-219 | the mask has the matrix's rows and cols; a cell is 255 exactly when its column lies between xMin and xMax - 1, ends included and in either order, in every row; all other cells are 0 |
| `Stitching.CreateMask` | ImageStitcher/stitcher/src/main/java/dbuhler/stitcher/Stitcher.java:191-219 | the mask has the matrix's rows and cols; a cell is 255 exactly when xMin <= column < xMax, in every row, and 0 otherwise |
| `Stitching.PolygonIsBand` | ImageStitcher/stitcher/src/main/java/dbuhler/stitcher/Stitcher.java:208-212 | when xMin < xMax, the polygon with corners on columns xMin and xMax - 1 covers exactly the columns [xMin, xMax) |
| `Stitching.EmptyBandFilledAsWritten` | ImageStitcher/stitcher/src/main/java/dbuhler/stitcher/Stitcher.java:203-216 | for 4 columns and min = max = 0.5 the band is empty, but the polygon as written covers columns 1 and 2 |
| `Stitching.OneColumnRightBand` | ImageStitcher/stitcher/src/main/java/dbuhler/stitcher/Stitcher.java:107 | for a right image one column wide, run()'s (0.0, 0.5) gives xMin = xMax = 0: the polygon as written fills column 0, while the floored band is empty |
| `Stitching.BandWidth` | ImageStitcher/stitcher/src/main/java/dbuhler/stitcher/Stitcher.java:191-204 | the number of allowed columns is floor(max * cols) - floor(min * cols), which is 0 when min == max |
| `Stitching.DetectionBands` | ImageStitcher/stitcher/src/main/java/dbuhler/stitcher/Stitcher.java:106-107 | the left image is searched in columns [cols/2, cols) and the right image in [0, cols/2); for equal widths each column is in exactly one of the two bands |
| `Stitching.MinDistance` | ImageStitcher/stitcher/src/main/java/dbuhler/stitcher/Stitcher.java:279-287 | the loop's minDistance is at most Double.MAX_VALUE, at most every candidate's distance, and either Double.MAX_VALUE or some candidate's distance |
| `Stitching.MinimumDistance` | ImageStitcher/stitcher/src/main/java/dbuhler/stitcher/Stitcher.java:279-287 | the first loop of matchFeatures computes MinDistance of the candidates |
| `Stitching.MinDistanceIsMinimum` | ImageStitcher/stitcher/src/main/java/dbuhler/stitcher/Stitcher.java:278-287 | for a non-empty candidate list, minDistance is the smallest distance and is the distance of some candidate |
| `Stitching.KeepClose` | ImageStitcher/stitcher/src/main/java/dbuhler/stitcher/Stitcher.java:290-298 | the second loop yields the ordered selection of the candidates whose distance passes the bound: below it for the source's strict test, at most it for the inclusive one |
| `Stitching.MatchFeatures` | ImageStitcher/stitcher/src/main/java/dbuhler/stitcher/Stitcher.java:270-302 | the result is the candidates with distance below 3 * minDistance, in order; no candidates give no matches |
| `Stitching.FilterKeepsCloseMatches` | ImageStitcher/stitcher/src/main/java/dbuhler/stitcher/Stitcher.java:292-298 | filtering by a bound returns a subsequence in the original order: a strictly increasing position list exists, and a candidate is kept exactly when its distance passes the bound (< for the strict test, <= for the inclusive one) |
| `Stitching.GoodMatchesAreClose` | ImageStitcher/stitcher/src/main/java/dbuhler/stitcher/Stitcher.java:279-300 | matchFeatures keeps, in order, exactly the matches with distance < 3 * minDistance; every dropped match has distance >= 3 * minDistance |
| `Stitching.PerfectMatchDropsAll` | ImageStitcher/stitcher/src/main/java/dbuhler/stitcher/Stitcher.java:292-298 | if any candidate has distance 0, matchFeatures as written returns no match at all |
| `Stitching.BestMatchSurvives` | ImageStitcher/stitcher/src/main/java/dbuhler/stitcher/Stitcher.java:278-298 | when minDistance itself passes the bound, a candidate with the smallest distance is kept |
| `Stitching.MatchFeaturesWithinThreshold` | ImageStitcher/stitcher/src/main/java/dbuhler/stitcher/Stitcher.java:289-298 | the filter the comment describes: keeps the candidates with distance <= 3 * minDistance, in order; no candidates give no matches |
| `Stitching.WithinThresholdAreClose` | ImageStitcher/stitcher/src/main/java/dbuhler/stitcher/Stitcher.java:289-298 | the filter the comment describes keeps, in order, exactly the candidates with distance <= 3 * minDistance |
| `Stitching.WithinThresholdKeepsBest` | ImageStitcher/stitcher/src/main/java/dbuhler/stitcher/Stitcher.java:289-298 | for any non-empty candidate list, the filter the comment describes keeps a best match |
| `Stitching.SelectPositions` | ImageStitcher/stitcher/src/main/java/dbuhler/stitcher/Stitcher.java:373-379 | appending the flagged elements in a loop yields exactly the flagged positions, in increasing order |
| `Stitching.GatherPoints` | ImageStitcher/stitcher/src/main/java/dbuhler/stitcher/Stitcher.java:339-354 | two point lists as long as the match list, with L[i] = keyPointsL[matches[i].queryIdx].pt and R[i] = keyPointsR[matches[i].trainIdx].pt; every index must be in range |
| `Stitching.FindHomography` | ImageStitcher/stitcher/src/main/java/dbuhler/stitcher/Stitcher.java:336-358 | RANSAC is called with the right points as source, the left points as destination and threshold 1.0, so the homography maps right into left |
| `Stitching.FilterMatches` | ImageStitcher/stitcher/src/main/java/dbuhler/stitcher/Stitcher.java:367-385 | the result is the ordered selection of the matches whose mask entry is 1; the mask may not be longer than the match list |
| `Stitching.FilterMatchesCount` | ImageStitcher/stitcher/src/main/java/dbuhler/stitcher/Stitcher.java:373-379 | filterMatches returns as many matches as the mask holds 1s |
| `Stitching.FilterMatchesSelectsInliers` | ImageStitcher/stitcher/src/main/java/dbuhler/stitcher/Stitcher.java:369-379 | filterMatches returns, in order, exactly the matches at positions where mask[i] == 1 |
| `Stitching.MergeMatrices` | ImageStitcher/stitcher/src/main/java/dbuhler/stitcher/Stitcher.java:173-189 | the canvas is max(rowsL, rowsR) x (colsL + colsR); it holds L at [0, rowsL) x [0, colsL) and R at [0, rowsR) x [colsL, colsL + colsR); every other cell is 0 |
| `Stitching.MergeImages` | ImageStitcher/stitcher/src/main/java/dbuhler/stitcher/Stitcher.java:396-403 | on the rowsL x (colsL + colsR) warped canvas, the top-left rowsL x colsL region becomes imageL exactly, and every cell right of it keeps its warped value |
| `Stitching.Stitcher.constructor` | ImageStitcher/stitcher/src/main/java/dbuhler/stitcher/Stitcher.java:62-72 | the constructor keeps both bitmaps and runs the stitcher, leaving all NUM_STEPS step images stored |
| `Stitching.Stitcher.Run` | ImageStitcher/stitcher/src/main/java/dbuhler/stitcher/Stitcher.java:90-128 | run() stores the image of every step 0 to 4 |
| `Stitching.Stitcher.GetStep` | ImageStitcher/stitcher/src/main/java/dbuhler/stitcher/Stitcher.java:74-84 | getStep(i) is defined for 0 <= i < NUM_STEPS = 5 and returns the image of step i |
| `JavaInt.Mul` | ImageStitcher/stitcher/src/main/java/dbuhler/stitcher/FitImageView.java:55 | Java int multiplication equals the exact product when that product fits in 32 bits, and always differs from it by a multiple of 2^32 |
| `JavaInt.TruncDiv` | ImageStitcher/stitcher/src/main/java/dbuhler/stitcher/FitImageView.java:57 | division rounding toward zero: the magnitude is the quotient of the magnitudes and the sign follows the operands' signs |
| `JavaInt.Div` | ImageStitcher/stitcher/src/main/java/dbuhler/stitcher/FitImageView.java:61 | Java int division equals floor division for a non-negative dividend and a positive divisor, and always differs from the truncated quotient by a multiple of 2^32 |
| `FitImageView.OnMeasure` | ImageStitcher/stitcher/src/main/java/dbuhler/stitcher/FitImageView.java:50-62 | throws the division-by-zero error exactly when the branch taken divides by a zero image side; a 0 x 0 image always throws, and an image with two non-zero sides never does |
| `FitImageView.AspectFitWithinBox` | ImageStitcher/stitcher/src/main/java/dbuhler/stitcher/FitImageView.java:55-62 | for positive image sides, the measured width is at most maxWidth and the measured height at most maxHeight |
| `FitImageView.AspectFitKeepsRatio` | ImageStitcher/stitcher/src/main/java/dbuhler/stitcher/FitImageView.java:55-62 | if imgW * maxH >= maxW * imgH the width is maxW and the height is the floor of imgH * maxW / imgW; otherwise the height is maxH and the width is the floor of imgW * maxH / imgH |
| `FitImageView.OnMeasureIsAspectFit` | ImageStitcher/stitcher/src/main/java/dbuhler/stitcher/FitImageView.java:50-62 | for positive image sides and products that fit in an int, the Java computation gives exactly the exact-arithmetic size |
| `FitImageView.OnMeasureOverflowExample` | ImageStitcher/stitcher/src/main/java/dbuhler/stitcher/FitImageView.java:55-61 | when the products do not fit, the branch test wraps: a 65536 x 1 image in a 1 x 65536 box measures 0 x 65536 instead of 1 x 0 |

## Left out

- OpenCV's algorithms are left out because they are library code with floating-point numerics: GFTT detection, FREAK description, brute-force `match`, `Calib3d.findHomography` (RANSAC, which also uses random sampling), `warpPerspective`, `resize`, `cvtColor`, `drawKeypoints` and `drawMatches`. Their results enter the model as parameters.
- `detectFeatures`, `drawFeatures` and `drawMatches` consist only of those library calls plus `createMask`, `mergeMatrices` and `createBitmap`, so they are not modelled as members of their own.
- Stitcher.Run: `run()` chains the modelled operations (`createMatrix`, `mergeMatrices`, `createMask`, `matchFeatures`, `findHomography`, `filterMatches`, `mergeImages`) with library calls. The model does not compose them: each stored step image is the parameter `stepImage(bitmapL, bitmapR, k)`, so nothing ties step 0 to `MergeMatrices` or step 4 to `MergeImages`.
- `createBitmap` and `Utils.bitmapToMat` convert between Android bitmaps and matrices, which is platform I/O.
- CreateMatrix: does not model the resized dimensions or the interpolation, because they depend on OpenCV's rounding. Only the resize decision and the scale factor are stated.
- Floating point: distances, fractions and scales are exact reals. The matcher's metric is L2, so a distance is a float; tripling a float is exact in a double, so the strict test `distance < 3.0 * minDistance` is decided as on reals. The fractions the stitcher passes (0.0, 0.5, 1.0) are exact in binary.
- ResizeScale: the scale is the exact real 1024 / max(rows, cols). Java computes it as a rounded double, so "the larger side maps to exactly 1024" holds for the real only; the resize decision (scale below 1.0) is the same either way.
- CreateMask: skips the fill whenever floor(min * cols) == floor(max * cols), which is more than the min == max case the doc comment's empty band justifies. It is reachable from `run()`: for a right image one column wide, (0.0, 0.5) gives xMin = xMax = 0, and the code as written fills column 0, as the comment's exact band 0 <= 0 < 0.5 also does, while `CreateMask` leaves it 0 (`OneColumnRightBand`).
- BandLimits: requires 0 <= min <= max <= 1, which both callers meet. Java's cast for negative or out-of-range products (truncation toward zero, saturation) is not modelled.
- MergeMatrices: the two matrices must have one pixel type `P`. With different OpenCV types, `copyTo` would reallocate the sub-matrix and the copy would not reach the canvas. Every caller passes two matrices of the same type.
- The pixel type and channel count of a matrix are a type parameter. The zero pixel of `setTo(Scalar.all(0))` is passed in as `zero`.
- The `drawable == null` branch of `onMeasure` defers to `ImageView.onMeasure`, which is not modelled. The `setMeasuredDimension` side effect becomes the returned pair. Measure-spec modes are ignored; only their sizes are used.
- MainActivity.java, ResultActivity.java and SpinnerWaitDialog.java are not part of this model. They hold Android activity lifecycle, menus, image loading and a background thread with a UI callback.

## Findings

| source | as written | input that shows it | evidently intended | confidence | as-written member | corrected member |
|---|---|---|---|---|---|---|
| ImageStitcher/stitcher/src/main/java/dbuhler/stitcher/Stitcher.java:208-216 | the mask polygon has its corners on columns xMin and xMax - 1, and `fillPoly` fills the outline too, so when xMin == xMax the polygon is one pixel wide "backwards" and columns xMin - 1 and xMin are filled | min = max = 0.5 on a 4-column matrix: columns 1 and 2 are 255. The current callers never pass min == max, but the floors coincide for a right image one column wide (see "CreateMask:" under "## Left out") | an empty mask, as the doc comment's band min * n <= i < max * n is empty when min == max | medium, not executed; depends on fillPoly filling the polygon's outline | `Stitching.CreateMaskAsWritten`, `Stitching.EmptyBandFilledAsWritten` | `Stitching.CreateMask`, `Stitching.BandWidth` |
| ImageStitcher/stitcher/src/main/java/dbuhler/stitcher/Stitcher.java:292-298 | keeps `distance < MATCH_THRESHOLD * minDistance`, so when the best distance is 0 no match at all survives | candidates [DMatch(0, 0, 0, 0.0)]: one perfect match, and the result is empty | keep the matches "at most MATCH_THRESHOLD times worse than the best match" (comment at line 289), that is `distance <= 3 * minDistance`, which always keeps a best match | medium, not executed | `Stitching.MatchFeatures`, `Stitching.PerfectMatchDropsAll` | `Stitching.MatchFeaturesWithinThreshold`, `Stitching.WithinThresholdKeepsBest` |
