# Vision core of the arm-tracking node, in Dafny

This project models the image-processing core of the camera node in
`image1.py`. The node estimates the configuration of a planar robot arm from
one BGR camera frame. It uses four coloured markers: yellow (the base), blue,
green and red. It also locates an orange target object. The model covers these
stages:

- **Colour thresholding** (`cv2.inRange`, module `Threshold`). A pixel becomes
  255 when each of its blue, green and red channels lies within the inclusive
  bounds of a colour range, and 0 otherwise. The five ranges are the source's
  constants. A sixth, near-white range binarises the reference image of the
  target.
- **Dilation** (`cv2.dilate` with a 5×5 all-ones kernel and 3 iterations,
  module `Dilation`). Each pass replaces a pixel by the maximum of the pixels
  within Chebyshev distance 2 that lie inside the image.
- **Moments and blob centre** (`cv2.moments`, module `Moments`). The moments
  are m00 = Σv, m10 = Σx·v and m01 = Σy·v, with x the column and y the row.
  The centre is `(int(m10/m00), int(m01/m00))`, and `(0, 0)` when m00 is 0.
- **Marker detection** (`detect_red/green/blue/yellow/orange`, module
  `Markers`): threshold, dilate, then centre. The orange target is only
  thresholded.
- **Scale calibration** (`pixel2meter`, module `Scale`). This is the exact
  integer squared distance between the blue and yellow centres. The scale
  `2/sqrt(d)` is a real number related to d by `IsScaleFor`.
- **Joint vector** (`detect_joint_angles`, module `Joints`): the 8 entries
  `[blue dx, blue dy, green dx, green dy, red dx, red dy, base x, base y]`.
  Each displacement is `a·yellow − a·marker`.
- **Target offset** (`detect_target`, module `Target`). The result is
  `[min_loc.x + w/2, max_loc.y + h/2]`, where w is the template's column count
  and h its row count.

Every stage is a pure function of its inputs. Grids are `seq<seq<…>>` indexed
row first, and channel and mask values are the 8-bit `Byte` type. The score
surface of `cv2.matchTemplate` and the scale `a` are inputs. Both are computed
in floating point, inside OpenCV and with `np.sqrt`.

Points where the code behaves differently from what one might expect. The
model follows the code in each case:

- **Python 2 division.** `detect_target` uses Python 2 arithmetic, so `w/2` is
  floor division. The shebang `#!/usr/bin/env python` names the `python` interpreter. Lines 102-105 also mix tabs
  and spaces, which only Python 2 accepts.
- **No zero-distance guard.** The division in `pixel2meter` is unguarded.
  `Scale.NoScaleAtZeroDistance` shows that no real scale exists when the two
  centres coincide. One might expect eight zeros for an all-black frame;
  the code gives an infinite scale there, and the outputs are not finite. `Joints.NoMarkersGiveZeros` states what every real scale
  would give.
- **Origin fallback is ambiguous.** A centre of `(0, 0)` does not mean the
  mask was empty. `Moments.OriginIsNotOnlyFallback` shows a mask with mass
  whose centre is also `(0, 0)`.
- **Truncation, not rounding.** The centre uses `int()`, which truncates.
  Every moment is non-negative, so this is the floor.
- **Fixed constants.** The kernel size, the iteration count and the colour
  ranges are constants, not configuration.

Three passes of the 5×5 kernel equal one pass of a 13×13 kernel
(`Dilation.DilateIsOnePass`). OpenCV computes the iterated dilation this way.

## Model

| member | source | states |
|---|---|---|
| `Threshold.InRange` | image1.py:33 | The mask has the frame's dimensions. An entry is 255 exactly when all three channels lie within the range's inclusive bounds, and 0 exactly when they do not. |
| `Threshold.RangesDisjoint` | image1.py:33-96 | No pixel lies in two of the red, green, blue, yellow and orange ranges. |
| `Threshold.MasksDisjoint` | image1.py:33-96 | At any pixel of a frame, at most one of the five `inRange` (threshold) masks is 255, before dilation. |
| `Threshold.BlackMatchesNoMarker` | image1.py:33-96 | A black pixel (0, 0, 0) lies in none of the five marker ranges. |
| `Dilation.BoxMax` | image1.py:35-36 | The result is at least every entry of the rectangle and equal to one of them, so it is the rectangle's maximum. |
| `Dilation.PassAt` | image1.py:35-36 | The value one pass writes at a pixel is the maximum of the in-image pixels within the kernel's radius. |
| `Dilation.Pass` | image1.py:35-36 | One pass keeps the dimensions and writes at every pixel the maximum of the in-image pixels within Chebyshev distance r. |
| `Dilation.Dilate` | image1.py:36 | Any number of iterations keeps the mask rectangular with the same dimensions. |
| `Dilation.DilateMarker` | image1.py:35-36 | The 5×5 kernel (radius 2), 3 iterations, keeps the mask's dimensions. |
| `Dilation.PassCompose` | image1.py:36 | A pass of radius r2 after a pass of radius r1 equals a single pass of radius r1 + r2. |
| `Dilation.DilateIsOnePass` | image1.py:36 | n ≥ 1 iterations of radius r equal one pass of radius n·r. |
| `Dilation.DilateMarkerWindow` | image1.py:35-36 | Each pixel of a dilated marker mask is the maximum of the threshold mask within distance 6. |
| `Dilation.DilateNeverClears` | image1.py:34-36 | Dilation never lowers a pixel, so a set pixel stays set: the region only grows. |
| `Dilation.DilateStep` | image1.py:36 | n + 1 iterations are one more pass on the result of n iterations. |
| `Dilation.MoreIterationsLarger` | image1.py:34-36 | Each extra iteration never lowers a pixel: the more iterations, the larger the region. |
| `Dilation.DilateZeroIff` | image1.py:34-36 | A mask is all zero exactly when its dilation is all zero. |
| `Dilation.DilateKeepsBinary` | image1.py:36 | Dilating a 0/255 mask gives a 0/255 mask. |
| `Moments.Mass` | image1.py:38 | m00 of `cv2.moments`: the sum of all mask entries, Σv. |
| `Moments.MomentX` | image1.py:38 | m10 of `cv2.moments`: the sum of column·v over all entries. |
| `Moments.MomentY` | image1.py:38 | m01 of `cv2.moments`: the sum of row·v over all entries. |
| `Moments.FloorDiv` | image1.py:44-45 | The quotient q satisfies q·d ≤ n < (q+1)·d. This is Python's `int()` of a non-negative float quotient. |
| `Moments.Centroid` | image1.py:38-47 | With zero mass the centre is exactly (0, 0). Otherwise cx = floor(m10/m00) and cy = floor(m01/m00), both non-negative. |
| `Moments.MassZeroIff` | image1.py:38-43 | m00 is 0 exactly when every entry of the mask is 0. |
| `Moments.MomentXBounds` | image1.py:38-44 | If every set entry lies in columns [lo, hi], then lo·m00 ≤ m10 ≤ hi·m00. |
| `Moments.MomentYBounds` | image1.py:38-45 | If every set entry lies in rows [lo, hi], then lo·m00 ≤ m01 ≤ hi·m00. |
| `Moments.CentroidInBox` | image1.py:44-47 | A mask with mass has its centre in every box that holds all its set entries, so in their bounding box. |
| `Moments.CentroidInImage` | image1.py:40-47 | The centre of a non-empty mask is one of its pixels, the (0, 0) fallback included. |
| `Moments.OriginIsNotOnlyFallback` | image1.py:40-47 | Any mask whose only non-zero pixel is (0, 0) has mass and still has centre (0, 0), the same value as the empty-mask fallback. |
| `Markers.MarkerMask` | image1.py:33-36 | The thresholded and dilated mask has the frame's dimensions. |
| `Markers.ThresholdZeroIffAbsent` | image1.py:33 | The threshold mask is all zero exactly when no pixel of the frame lies in the range. |
| `Markers.MassIffVisible` | image1.py:33-40 | The dilated marker mask has non-zero m00 exactly when some pixel of the frame has the marker's colour. |
| `Markers.DetectMarker` | image1.py:31-47 | An absent colour gives exactly (0, 0). A visible one gives the floor quotients of its dilated mask's moments, with m00 > 0. The result is a pixel of any non-empty frame. |
| `Markers.DetectRed` | image1.py:31-47 | No red pixel gives (0, 0). The result lies in the frame. |
| `Markers.DetectGreen` | image1.py:49-61 | No green pixel gives (0, 0). The result lies in the frame. |
| `Markers.DetectBlue` | image1.py:65-77 | No blue pixel gives (0, 0). The result lies in the frame. |
| `Markers.DetectYellow` | image1.py:80-92 | No yellow pixel gives (0, 0). The result lies in the frame. |
| `Markers.MarkerNearItsPixels` | image1.py:33-47 | A visible marker's centre lies within 6 pixels of any box holding all pixels of its colour (3 dilations of radius 2). |
| `Markers.DetectOrange` | image1.py:95-98 | The mask is thresholded but not dilated. It is 0/255 of the frame's size, 255 exactly on orange pixels, and those have no other marker colour. |
| `Markers.ReferenceMask` | image1.py:163 | The reference image becomes a 0/255 mask of its own size, 255 exactly on pixels with every channel in [200, 255]. |
| `Scale.SquaredDistance` | image1.py:114 | The squared distance is a non-negative integer, 0 exactly when the two points coincide. |
| `Scale.MarkerDistance` | image1.py:109-114 | The squared yellow-to-blue distance is 0 exactly when the two centres coincide, in particular when both markers are absent. |
| `Scale.IsScaleFor` | image1.py:115 | `a` stands for `2 / np.sqrt(d)`: a is positive and a²·d = 2². |
| `Scale.NoScaleAtZeroDistance` | image1.py:115 | No real a satisfies a > 0 and a²·0 = 2², so the unguarded 2/sqrt(0) has no real value. |
| `Scale.NoScaleWithoutMarkers` | image1.py:109-115 | A frame with neither yellow nor blue admits no scale. |
| `Scale.ScaleUnique` | image1.py:115 | The scale 2/sqrt(d) is unique: two positive a, b with a²d = b²d = 4 are equal. |
| `Scale.ZoomDistance` | image1.py:114 | Multiplying both centres by k multiplies their squared distance by k². |
| `Scale.ScaleCovariant` | image1.py:114-115 | Zooming the scene by k > 0 divides the scale by k. |
| `Joints.JointVector` | image1.py:119-139 | There are exactly 8 entries in the order blue, green, red, base. Entries 0-5 are a·(base − marker) per coordinate; entries 6-7 are a·base. |
| `Joints.FallbackDisplacement` | image1.py:119-139 | A marker at the (0, 0) fallback has the base's metric coordinates as its displacement. |
| `Joints.CalibratedBlueLength` | image1.py:120-125 | With the calibrated scale, the blue displacement's squared length is 2², the physical separation squared. |
| `Joints.DetectJointAngles` | image1.py:119-139 | The vector always has 8 entries. An absent blue, green or red marker's displacement equals the base's coordinates. With the calibrated scale the blue link has length 2. |
| `Joints.NoMarkersGiveZeros` | image1.py:119-139 | The vector assembly alone, for a frame with none of the four colours: every centre falls back to (0, 0), so any finite real scale gives eight zeros. This is not the program's output for such a frame. Its scale there is 2/sqrt(0), which is not a real number (`Scale.NoScaleWithoutMarkers`). |
| `Joints.BlackFrameHasNoMarkers` | image1.py:33-92 | An all-black frame contains none of the four arm-marker colours. |
| `Target.MinMaxLoc` | image1.py:103 | Every non-empty score surface has a minimising and a maximising placement. |
| `Target.DetectTarget` | image1.py:100-105 | The result is None exactly when the template does not fit. Otherwise it is a pixel of the mask. x minus w/2 is a minimising column (from min_loc); y minus h/2 is a maximising row (from max_loc). |
| `Target.DetectTargetCorrected` | image1.py:100-105 | Same fit condition and bounds. Both coordinates minus the half sizes form a minimising placement. |
| `Target.CorrectedFindsUniqueBest` | image1.py:100-105 | When the template matches best at exactly one placement p, the corrected target is p + (w/2, h/2). |
| `Target.MixedConventionMisses` | image1.py:103-105 | For the mask `[[0], [255]]`, the template `[[255]]` and the score surface `[[1.0], [0.0]]` (best match at row 1), the as-written result is (0, 0) and the corrected result is (0, 1). |

## Findings

| source | as written | input that shows it | evidently intended | confidence | as-written member | corrected member |
|---|---|---|---|---|---|---|
| image1.py:105 | `[min_loc[0] + w/2, max_loc[1] + h/2]`: y is taken from the location of the largest score, but with method 1 (normalised squared difference) the best match is the smallest score | mask `[[0], [255]]`, template `[[255]]`, scores `[[1.0], [0.0]]`: the best placement is row 1, the worst row 0, and the result is (0, 0) | both coordinates from `min_loc`: (0, 1) | medium, not executed | `Target.MixedConventionMisses` (about `Target.DetectTarget`) | `Target.DetectTargetCorrected` |

## Left out

- `Target.DetectTarget` and `Target.DetectTargetCorrected` return None for a template that is empty or larger than the mask in either dimension. This stands for `cv2.matchTemplate` failing at image1.py:102; the source itself never returns None. OpenCV's exact behaviour on such sizes (an error, or swapping image and template when the template is larger in both dimensions) is not modelled.
- The ROS node is not modelled: publishers, the subscriber, `callback1` and `main` (image1.py:16-29, 143-190). They are transport and lifecycle code.
- `CvBridge` conversion between ROS images and arrays, and its error printing, is not modelled. It is an external format bridge. The frame is an input in BGR order.
- Reading `image_crop.png` from disk on every frame is file I/O and is not modelled. The reference image is an input of `Markers.ReferenceMask`.
- How `cv2.matchTemplate` computes its normalised squared-difference scores is not modelled. It is floating point inside OpenCV, so the score surface is an input of the stated size.
- `cv2.minMaxLoc` tie-breaking is not modelled: `min_loc` and `max_loc` are any placements that attain the minimum and the maximum. `Target.MinMaxLoc` only shows that such placements exist.
- `np.sqrt` and the float division in `pixel2meter` are not modelled. The scale is a real parameter related to the integer distance by `Scale.IsScaleFor`, which has no solution at distance 0. The +inf/NaN outputs numpy produces there are outside the model.
- Floating-point rounding is not modelled. The moments, the `int()` of their quotient and the products `a * centre` are exact integers and reals here.
- Moments other than m00, m10 and m01 are not modelled, because the source never reads them.
- `cv2.waitKey` and the commented-out `imshow`/`imwrite` calls are UI and debugging code, and are not modelled.
- Frames and masks are assumed rectangular (`IsGrid`), as every numpy 2-D array is.
- `Dilation.Dilate`: its contract states only the grid shape. What the iterations compute is stated by `Dilation.DilateIsOnePass` and the lemmas after it.
