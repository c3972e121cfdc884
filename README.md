# Passport crop geometry of Zeb Photo App

This project models the cropping logic of the Zeb Photo App's passport
script (`src/main.py`) in Dafny and proves properties of the model. The
script takes the face boxes the OpenCV face detector reports and keeps the
largest one. It pads that box by 30 % of its width on each side and by
50 % of its height above and below. It clamps each edge to the image,
trims the crop to a centred 3:4 (width:height) window and resizes the
window to 826 by 1062 pixels. Before that, it checks that the input path
exists and has a `.jpg`, `.jpeg` or `.png` extension in any letter case.

Modules:

- `Faces` (faces.dfy): detected boxes and the largest-face selection. Python's `max` keeps the first of several boxes of equal area.
- `Crop` (crop.dfy): padding, per-edge clamping, and the size of the numpy slice `image[y1:y2, x1:x2]`.
- `Ratio` (ratio.dfy): the centred 3:4 trim of a `wc` by `hc` crop.
- `Passport` (passport.dfy): one run end to end. It ends in `NoFace`, `DegenerateCrop` or `Photo(window, 826, 1062)`.
- `Extension` (extension.dfy): `os.path.splitext`, `lower()` and the membership test on extensions.

Modelling assumptions. The script computes with floats; the model
computes with integers:

- `int(w * 0.3)` is `(3 * w) / 10` and `int(h * 0.5)` is `h / 2`.
- `w_c / h_c > 0.75` is `4 * w_c > 3 * h_c`.
- `int(h_c * 0.75)` is `(3 * h_c) / 4` and `int(w_c / 0.75)` is `(4 * w_c) / 3`.

All operands are non-negative, so truncation and floor agree. The
products with 0.5 and 0.75 are exact in binary floating point. The
product with 0.3 and the division by 0.75 agree with these integer forms
for image sizes far beyond any real photograph. Face boxes are treated as
non-negative pixel values, as the detector reports them.

Facts about the script that the model keeps:

- Vertical padding is the same above and below.
- Edges are clamped to the closed ranges `[0, W]` and `[0, H]`.
- The centred start of the trimmed dimension is never clamped. `Ratio.Trim` proves it is never negative.
- The extension check is only printed and never stops the crop (`src/main.py:10-14`).
- The script has no guard when the crop collapses. A crop with no rows divides by zero at `src/main.py:45`. A one-row crop trims to an empty window of width `(3 * 1) / 4 == 0`, which `cv2.resize` rejects. The model returns `DegenerateCrop` in both cases.

## Model

| member | source | states |
|---|---|---|
| `Faces.Area` | src/main.py:28 | the selection key is zero exactly for a box with no width or no height, and is at least either side when the other side is non-zero |
| `Faces.LargestIndex` | src/main.py:28 | the chosen index has an area at least that of every box, and every earlier box has a strictly smaller area (the first maximum wins) |
| `Faces.FirstLargestUnique` | src/main.py:28 | any index that is maximal and strictly beats every earlier box is the one chosen, so the selection is fully determined |
| `Faces.LargestFace` | src/main.py:26-28 | no face exactly when the detector returned no boxes; otherwise a detected box that is the first of maximal area |
| `Faces.LargestFaceDominates` | src/main.py:28 | every detected box has an area no larger than the selected face's |
| `Crop.PadX` | src/main.py:31 | the horizontal padding is 3/10 of the face width rounded down: `10p <= 3w < 10p + 10` |
| `Crop.PadY` | src/main.py:32 | the vertical padding is half the face height rounded down: `2p <= h < 2p + 2` |
| `Crop.Padded` | src/main.py:31-38 | before clamping, the padding is equal on the left and right (PadX) and equal above and below (PadY) |
| `Crop.Clamp` | src/main.py:35-38 | the clamped rectangle's edges lie within `[0, W]` and `[0, H]` |
| `Crop.PaddedCrop` | src/main.py:35-38 | the padded crop lies within the image and starts no later than the face |
| `Crop.PaddedCropContainsFace` | src/main.py:31-38 | a face box inside the image is contained in its padded crop |
| `Crop.ClampKeepsFittingBox` | src/main.py:35-38 | when the padded box fits in the image, clamping leaves it unchanged |
| `Crop.ClampPerEdge` | src/main.py:35-38 | each clamped edge is either its padded edge or the image border, and clamping only moves edges inward |
| `Crop.SliceBound` | src/main.py:40 | a slice bound is clamped into `[0, n]`: unchanged when already inside, `n` when above, and counted from the end (at least 0) when negative |
| `Crop.SliceLength` | src/main.py:40 | a slice has at most `n` elements, `stop - start` of them for bounds in order inside `[0, n]`, and none when the bounds are reversed |
| `Crop.CropWidth` | src/main.py:40-44 | `w_c` is `x2 - x1`, or 0 when the rectangle is empty |
| `Crop.CropHeight` | src/main.py:40-44 | `h_c` is `y2 - y1`, or 0 when the rectangle is empty |
| `Crop.CropAtLeastFace` | src/main.py:31-44 | a face box inside the image gives a crop at least as wide and as tall as the face |
| `Ratio.TooWide` | src/main.py:43-47 | for a crop with rows, the integer test `4 * wc > 3 * hc` holds exactly when the exact ratio `wc / hc` exceeds 0.75 |
| `Ratio.RatioAboveThreeQuarters` | src/main.py:45-47 | `wc / hc > 0.75` in exact arithmetic is equivalent to `4 * wc > 3 * hc` |
| `Ratio.Trim` | src/main.py:43-56 | the window lies inside the crop. A too-wide crop keeps its height and gets the widest width not over 3:4; otherwise the crop keeps its width and gets the tallest height not over 4:3. The trailing margin equals the leading one or is one pixel more |
| `Ratio.TrimWithinOnePixel` | src/main.py:47-56 | after a width trim `0 <= 3h - 4w <= 3`; after a height trim `0 <= 4w - 3h <= 2` |
| `Ratio.TrimEmptyIff` | src/main.py:49-56 | the window is empty exactly when the crop has no columns or a single row |
| `Ratio.TrimKeepsExactRatio` | src/main.py:43-56 | a crop that is already exactly 3:4 is kept whole |
| `Passport.CropSize` | src/main.py:44 | the crop's width and height never exceed the image's, and are at least the face's when the face is inside the image |
| `Passport.Absolute` | src/main.py:51-56 | the window in image coordinates is the trim window moved by the crop's corner: same size, offset from the corner by the trim's start |
| `Passport.CropFace` | src/main.py:31-59 | never `NoFace`. A photo's window is non-empty, lies inside the image and inside the padded crop, is within one pixel of 3:4, and is resized to 826 by 1062 |
| `Passport.Plan` | src/main.py:26-66 | `NoFace`, so nothing is cropped or written, exactly when no face was detected; otherwise the outcome is that of the first largest face; a photo's window is non-empty and inside the image |
| `Passport.DegenerateIff` | src/main.py:44-59 | the crop fails exactly when the padded crop has no columns or at most one row |
| `Passport.FaceInsideGivesPhoto` | src/main.py:26-59 | a face inside the image that is at least 1 pixel wide and 2 pixels tall always gives a photo |
| `Passport.SquareFaceKept` | src/main.py:31-56 | a square face of at least 2 pixels whose padded box fits in the image lies wholly inside the final 3:4 window |
| `Extension.LastSep` | src/main.py:9 | the result is -1 or the index of a separator, and no separator follows it |
| `Extension.LastDot` | src/main.py:9 | the result is -1 or the index of a dot, and no dot follows it |
| `Extension.SplitExt` | src/main.py:9 | root and extension concatenate to the path; the extension is empty or a dot followed by neither dots nor separators; a non-empty extension leaves a root whose last component is not only dots |
| `Extension.Lower` | src/main.py:10 | every upper-case ASCII letter becomes its lower-case letter, every other character is kept, and no upper-case letter is left |
| `Extension.IsValidImage` | src/main.py:8-10 | an accepted path names an existing file and splits into a root that is not only dots and a dot-led extension |
| `Extension.AcceptedExtensionShape` | src/main.py:8 | every accepted extension, in any letter case, is a dot followed by characters that are neither dots nor separators |
| `Extension.LastSepAppend` | src/main.py:9 | appending text without separators does not move the last separator |
| `Extension.LastDotAppend` | src/main.py:9 | appending an extension puts the last dot at its start |
| `Extension.SplitExtAt` | src/main.py:9 | a stem that is not only dots, followed by an extension, is split exactly between them |
| `Extension.AcceptedIsNamed` | src/main.py:9-10 | an accepted path is a stem that is not only dots followed by an accepted extension |
| `Extension.NamedIsAccepted` | src/main.py:9-10 | a stem that is not only dots followed by an accepted extension is split there, so its extension is accepted |
| `Extension.IsValidImageIff` | src/main.py:8-10 | a path is accepted exactly when the file exists and the path is a stem that is not only dots followed by `.jpg`, `.jpeg` or `.png` in any letter case |
| `Extension.LastSepNone` | src/main.py:9 | a path without separators has no last separator |
| `Extension.UpperCaseAccepted` | src/main.py:10 | `photo.JPG` is accepted |
| `Extension.MissingFileRejected` | src/main.py:10 | no path is accepted when the file does not exist |
| `Extension.OtherFormatRejected` | src/main.py:8-10 | `photo.gif` is rejected |
| `Extension.HiddenFileRejected` | src/main.py:9-10 | `photos/.png` has no extension and is rejected |

## Left out

- Face detection (`CascadeClassifier`, `detectMultiScale`, src/main.py:17-23) and the grayscale conversion (`cvtColor`) are foreign OpenCV calls. The detected boxes are an input sequence of non-negative `(x, y, w, h)`.
- Image decoding and writing (`imread`, `imwrite`, src/main.py:14, 63) are file I/O. A photo outcome stands for the file that is written.
- `cv2.resize` with area interpolation (src/main.py:59) is foreign resampling. Only the output size, 826 by 1062, is modelled. That size is not exactly 3:4, so the resize is not claimed to be a uniform scale.
- The existence test `os.path.exists` (src/main.py:10) is file-system I/O. It is a boolean parameter of `Extension.IsValidImage`.
- The `print` calls are console output.
- `Extension.SplitExt` follows the Windows form of `os.path.splitext`, which treats both `/` and `\` as separators. On POSIX systems `\` is an ordinary character.
- `Extension.Lower` lowers ASCII letters only. Python's `str.lower` also lowers other scripts, but no other character lowers to a letter of the three extensions, so acceptance is unaffected.
- `Faces.Area` uses unbounded integers. The detector's 32-bit box values could overflow in `w * h` only for faces over 46340 pixels on a side.
- The float computations are replaced by the exact integer forms listed above. Rounding at sizes beyond real photographs is not modelled.
- The graphical front end (`src/app.py`) is not part of this model. That covers its widgets, dialogs, `resource_path` and `validate_float`. The compositing, background, enhancement and page-tiling options it passes to `main.main` (src/app.py:68-75) have no counterpart in `src/main.py`, which defines no `main` function.
