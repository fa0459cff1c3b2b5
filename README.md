# Fetal head segmentation: evaluation metrics and noise injection in Dafny

This project models the two pieces of the fetal-head segmentation pipeline
whose logic lives in the repository itself rather than in an image library.

- **Mask evaluation** (`evaluation.py`, module `Evaluation` in
  `evaluation.dfy`): IoU, Dice, precision, recall and F1 between a
  ground-truth mask and a segmented mask. A mask is the sequence of its pixel
  values; every metric is an element-wise test, a count or a sum, and a
  ratio. Counting goes through one function, `CountWhere`, which takes the
  element-wise test as a named predicate (`BothSet` for `np.logical_and`,
  `EitherSet` for `np.logical_or`, `TruePositive`, `FalsePositive` and
  `FalseNegative` for the `== 1` / `== 0` comparisons). The ratios are exact
  rationals (`real`). Below, #A is the number of nonzero pixels of mask A
  and #(A and B) the number of pixels nonzero in both masks. IoU and Dice
  divide without a guard, so their denominators are preconditions. Precision, recall and F1 guard their
  divisions and return 0 instead, and they are total.
- **Salt-and-pepper noise** (`preprocessing.py`, `add_salt_and_pepper_noise`,
  module `Preprocessing` in `preprocessing.dfy`): a method that allocates a
  fresh `rows x columns x channels` array of 8-bit values. It fills the array
  pixel by pixel in nested loops over rows and columns. Each pixel becomes
  black when its draw r satisfies r < p/2, white when p/2 <= r < p, and a copy
  of the input pixel otherwise. The caller supplies the random draws as a
  grid: `draws[i][j]` is the value `random.random()` returns at loop
  iteration (i, j), so each pixel consumes exactly one draw, in row-major
  order. `DrawGrid` builds this grid from the flat stream of draws. Each draw
  lies in [0, 1). Called without `p`, the function uses 0.3
  (`AddDefaultSaltAndPepperNoise`). Writing `[0, 0, 0]` or `[255, 255, 255]`
  into a pixel that does not have exactly 3 channels raises a numpy
  broadcasting error. The method reports that case with `ok == false`.

## Model

| member | source | states |
|---|---|---|
| `Evaluation.CountWhere` | evaluation.py:28-29 | `np.sum` over an element-wise test counts at most one per pixel: the count never exceeds the number of pixels |
| `Evaluation.IntersectionWithinUnion` | evaluation.py:9-11 | the logical-and count is at most the logical-or count; they are equal exactly when both masks have the same nonzero pixels; the and-count is 0 exactly when the masks are disjoint; the or-count is 0 exactly when both masks are all zero |
| `Evaluation.SupportsSplit` | evaluation.py:9-10 | inclusion-exclusion: nonzero pixels of gt plus nonzero pixels of seg equal the and-count plus the or-count |
| `Evaluation.Iou` | evaluation.py:4-12 | defined only when some pixel is nonzero in either mask (the unguarded division); the score lies in [0, 1], is 1 exactly when the masks have the same nonzero pixels and 0 exactly when they are disjoint |
| `Evaluation.IouSymmetric` | evaluation.py:9-11 | IoU and its precondition do not change when the two masks are exchanged |
| `Evaluation.Dice` | evaluation.py:14-21 | defined only when the pixel sums of the two masks do not add up to 0 (the unguarded division); the score is 0 exactly when no pixel is nonzero in both masks |
| `Evaluation.DiceSymmetric` | evaluation.py:19-20 | Dice does not change when the two masks are exchanged |
| `Evaluation.SumCoversSupport` | evaluation.py:20 | for non-negative pixels, the pixel sum in Dice's denominator is at least the nonzero-pixel count, with equality exactly when the mask is 0/1 |
| `Evaluation.DiceWithinUnit` | evaluation.py:19-20 | for masks of non-negative pixels, Dice lies in [0, 1] |
| `Evaluation.DiceOfBinaryMasks` | evaluation.py:19-20 | on 0/1 masks Dice is defined exactly when the union is nonempty, and then equals 2 #(A and B) / (#A + #B) and 2 IoU / (1 + IoU) |
| `Evaluation.DiceOfTwoLevelMasks` | evaluation.py:20 | on masks whose foreground value is c > 0 instead of 1, Dice is the nonzero-count Dice divided by c |
| `Evaluation.DiceOfIdenticalWhiteMasks` | evaluation.py:20 | two identical one-pixel 0/255 masks get Dice 1/255, while the nonzero-count Dice is 1 |
| `Evaluation.DiceOfSupports` | evaluation.py:19-20 | Dice over nonzero-pixel counts: defined when the union is nonempty, lies in [0, 1], is 1 exactly when the masks have the same nonzero pixels and 0 exactly when they are disjoint |
| `Evaluation.DiceOfSupportsFromIou` | evaluation.py:9-11 | the nonzero-count Dice equals 2 IoU / (1 + IoU) for all masks |
| `Evaluation.Precision` | evaluation.py:23-31 | total; lies in [0, 1]; is 0 exactly when there is no true positive, which includes the guarded TP + FP = 0 case; is 1 exactly when there are true positives and no false positives |
| `Evaluation.Recall` | evaluation.py:33-41 | total; lies in [0, 1]; is 0 exactly when there is no true positive, which includes the guarded TP + FN = 0 case; is 1 exactly when there are true positives and no false negatives |
| `Evaluation.RecallIsSwappedPrecision` | evaluation.py:28-39 | exchanging the masks keeps the true positives and turns false negatives into false positives, so recall(gt, seg) = precision(seg, gt) |
| `Evaluation.NoUnitPixelsScoreZero` | evaluation.py:28-40 | the true-positive test compares pixels with 1, so when either mask has no pixel equal to 1 (a 0/255 mask image, for one) there are no true positives and precision, recall and F1 are all 0 |
| `Evaluation.HarmonicMeanBetween` | evaluation.py:48 | the guarded 2PR/(P+R) lies between P and R for non-negative P and R, and is 0 exactly when one of them is 0 |
| `Evaluation.F1` | evaluation.py:43-49 | total; lies in [0, 1] and between precision and recall; is 0 exactly when precision or recall is 0 |
| `Evaluation.F1FromCounts` | evaluation.py:45-48 | F1 equals 2 TP / (2 TP + FP + FN), and 0 when there is no true positive |
| `Evaluation.F1Symmetric` | evaluation.py:45-48 | F1 does not change when the two masks are exchanged |
| `Preprocessing.AddSaltAndPepperNoise` | preprocessing.py:19-41 | returns a freshly allocated image of the same rows, columns and channels and leaves the input unchanged (no `modifies`); when it succeeds, each pixel (i, j) holds what its own draw `draws[i][j]` makes of input pixel (i, j); it fails exactly when the image does not have 3 channels and some draw would blacken or whiten its pixel; with p <= 0 it succeeds and returns a copy of the input |
| `Preprocessing.AddDefaultSaltAndPepperNoise` | preprocessing.py:19 | the call without `p`, as made at preprocessing.py:108, behaves as the noise method with p = 0.3: same shape, each pixel from its own draw, and failure exactly when the image does not have 3 channels and some draw is below 0.3 |
| `Preprocessing.FlattenDrawGrid` | preprocessing.py:32-34 | the grid `DrawGrid` builds from a stream of rows x columns draws reads back, row by row, as that same stream: every draw of the stream is used by exactly one pixel, in row-major order, none skipped and none used twice |
| `Preprocessing.NoisyPixelIsBlackWhiteOrCopy` | preprocessing.py:35-40 | a pixel whose draw r < p/2 is black [0,0,0]; one with p/2 <= r < p is white [255,255,255]; one with neither is the input pixel; every pixel is one of the three |
| `Preprocessing.FillPixel` | preprocessing.py:36-38 | `noisy[i][j] = [v, v, v]` needs 3 channels, sets all of them to v and changes no other pixel |
| `Preprocessing.CopyPixel` | preprocessing.py:40 | `noisy[i][j] = img[i][j]` copies every channel of the pixel and changes no other pixel |

## Findings

| source | as written | input that shows it | evidently intended | confidence | as-written member | corrected member |
|---|---|---|---|---|---|---|
| evaluation.py:20 | the numerator counts pixels nonzero in both masks (`np.logical_and`), but the denominator adds the raw pixel values `np.sum(gt_img) + np.sum(seg_img)` | gt = seg = a single pixel of value 255, the usual foreground of an 8-bit mask image: Dice = 2 / 510 = 1/255 although the masks are identical | 2 #(A and B) / (#A + #B) over nonzero pixels, which is 1 for identical masks and equals 2 IoU / (1 + IoU) (`DiceOfSupportsFromIou`); on 0/c masks the source's value is this divided by c (`DiceOfTwoLevelMasks`), on 0/1 masks the two agree (`DiceOfBinaryMasks`). Precision, recall and F1 compare pixels with 1, so on the same 0/255 masks they are all 0 (`NoUnitPixelsScoreZero`) | medium (correct for 0/1 masks), not executed | `Evaluation.DiceOfIdenticalWhiteMasks` | `Evaluation.DiceOfSupports` |

## Left out

- `segmentation.py` is not part of this model. `apply_active_contour` and `flood_fill_segmentation` only call scikit-image's `active_contour` and `flood_fill`, whose code is not in the repository. `initialize_contour` is floating-point trigonometry. `save_and_plot_contours` and `segment_image` are plotting and file I/O.
- `gamma_correction` (a floating-point power), `denoise_image` and `convert_to_grayscale` (OpenCV filters) and `preprocess_image` (file loading and display) are left out: none of them has logic of its own beyond library calls.
- `utils.py` (interactive ROI selection and image saving), `config.py` (directory creation), `main.py` (command-line glue) and `__init__.py` (re-exports) are I/O or glue.
- Reading the masks with `io.imread` is I/O. The metrics take the masks as parameters.
- Python's `random` module is replaced by the caller-supplied grid of draws. That each draw lies in [0, 1) is a precondition, because `random.random()` guarantees it.
- Float64 arithmetic is modelled by exact rationals. numpy's `nan` result of the unguarded IoU and Dice divisions is excluded by their preconditions. Precision and recall return the integer 0 in the guarded case, which has the same value as the model's 0.0.
- Mask shape: the masks are flattened and must have the same number of pixels. numpy broadcasting between masks of different shapes is not modelled.
- `Evaluation.Iou`: its precondition excludes the all-zero case, where the source returns `nan` with a runtime warning.
- `Evaluation.Dice`: its precondition excludes a zero denominator, where the source returns `nan` or `inf`. The [0, 1] bound (`DiceWithinUnit`) is stated only for non-negative pixels, since `int` pixels may be negative while image pixels are not.
- `Preprocessing.AddSaltAndPepperNoise`: the input is typed as a 3-dimensional array of 8-bit values. The `ValueError` that shape unpacking raises on a 2-dimensional image is excluded by the type. The `uint8` conversion numpy applies when copying from an input of another dtype is not modelled. When `ok` is false the returned array is not meaningful: the source raises instead of returning.
