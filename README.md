# Face redaction geometry and region write-back

A Dafny model of the frame-processing core of a real-time face redaction
program: a camera frame (640 x 480, 8-bit BGR) is searched for faces, and every
detected face is either blurred destructively in place or outlined with a red
box. The model covers the part of `src/main.rs` that is the program's own
logic rather than library calls:

- `Geometry` (`geometry.dfy`): the `Rect` value, `clamp_rect_to_image_bounds`
  as the function `Clamp`, and the scaling step of `draw_box_around_face` as
  `Scale`. The source's `i32` arithmetic is stated with mathematical integers
  and preconditions (`ClampDefined`, `ScaleDefined`) that say the sums and
  products do not overflow.
- `Detection` (`detection.dfy`): the confidence filter of
  `detect_faces_yunet`, as a method with a loop (`DetectFacesYunet`) proved
  against the specification `Selected`/`KeptRows`.
- `Redaction` (`redaction.dfy`): the live frame is an `array2<Pixel>`
  (rows x columns). `BlurFace` takes a value snapshot of the frame (the
  clone), clamps the face, blurs the snapshot's region and writes the result
  into the same region of the live frame; `DrawBoxAroundFace` scales the face
  and draws it. The Gaussian blur and the rectangle drawing are library code
  and enter as function-valued parameters (`GaussianBlur`,
  `RectanglePainter`): the model fixes what they are given and where their
  results go, not what they compute. The blur is given the snapshot's pixels
  within half a kernel (88 pixels) of the clamped region (`KernelReach`),
  because the library's filter on a region of interest also reads the frame
  around it; its result is written into the clamped region only. The drawing
  is applied to every pixel of the frame, so the model does not bound which
  pixels an outline changes.
- `FrameLoop` (`frame_loop.dfy`): the per-face loop of `frame_loop`
  (`RedactFaces`), one action per face chosen by the `USE_BLUR` switch
  (`Policy`), specified by the fold `RedactAll`; and the YuNet branch of one
  iteration (`ProcessFrame`).
- `Config` (`config.dfy`): the capture size, the blur kernel size and the
  `i32` range; the first three come from `src/constants.rs`, the range
  from the `i32` fields of the library's `Rect`.

Configuration that is a float or a switch in the source is a parameter here:
the confidence threshold (0.7 in the source), the inverse scale factor `k`
(1 in the source, derived from the scale factor 1.0) and the policy (blur in
the source).

Three behaviours of the code are easy to misread; the model follows the code:

- the filter keeps only rows whose confidence is strictly above the threshold
  (`KeptRowsExact`);
- `blur_face` has no guard for an empty clamped rectangle: on a negative
  clamped width or height `Mat::roi(..).unwrap()` panics, and on a zero one
  the blur call returns an error through `?`; either way the iteration ends
  (`BlurFaceResult`, `PastRightEdgeScenario`);
- clamping moves a negative origin to 0 and keeps the extent, so the clamped
  rectangle can cover pixels the face box did not
  (`ClampCanCoverOutsideOriginal`).

## Model

| member | source | states |
|---|---|---|
| `Geometry.Clamp` | src/main.rs:36-51 | the result satisfies x >= 0, y >= 0, x + width <= 640, y + height <= 480, stays within i32, and its width and height are no larger than the input's |
| `Geometry.ClampFixedPoints` | src/main.rs:36-51 | clamping returns its input unchanged exactly when the input already satisfies the four bounds (both directions) |
| `Geometry.ClampIdempotent` | src/main.rs:36-51 | clamping a clamped rectangle changes nothing |
| `Geometry.ClampKeepsExtentAtNegativeOrigin` | src/main.rs:38-46 | a negative x (y) becomes 0 while the width (height) is kept whenever it fits in the frame |
| `Geometry.ClampCanCoverOutsideOriginal` | src/main.rs:38-46 | for a box overhanging the left edge, the clamped rectangle covers the pixel just right of the original box, which the original does not cover |
| `Geometry.ClampLeftOverhangExample` | src/main.rs:38-46 | the box (-10, 0, 100, 100) clamps to (0, 0, 100, 100), which covers pixel (row 0, column 95) outside the original |
| `Geometry.ClampIsIntersectionForNonNegativeOrigin` | src/main.rs:44-49 | with a non-negative origin, a pixel is covered by the clamped rectangle iff it is covered by the original and lies in the frame |
| `Geometry.ClampEmptyIff` | src/main.rs:44-49 | the clamped rectangle is empty iff the original is empty or the clamped origin is at or past the right or bottom edge; such an origin forces a width (height) <= 0 |
| `Geometry.ClampMonotone` | src/main.rs:36-51 | a rectangle inside another clamps to a region inside the other's clamped region |
| `Geometry.Scale` | src/main.rs:104-109 | the scaled rectangle stays within i32 and equals the input when the inverse scale factor is 1 |
| `Geometry.ScaleCoversScaledPixel` | src/main.rs:104-109 | for k > 0 the scaled rectangle covers (row * k, col * k) iff the original covers (row, col) |
| `Geometry.ScaleCovers` | src/main.rs:104-109 | for k > 0 the scaled rectangle covers pixel (row, col) iff the original covers (row / k, col / k), rounding down: every pixel of the drawn box is accounted for |
| `Geometry.ScaleEmptyIff` | src/main.rs:104-109 | for k > 0 scaling neither creates nor removes emptiness |
| `Geometry.ScaleStaysInScaledImage` | src/main.rs:104-109 | a box inside a cols x rows image scales to a box inside the (cols * k) x (rows * k) image, so the outline needs no clamping |
| `Detection.KeptRows` | src/main.rs:79-98 | the kept row indices are no more than the rows and each is a valid row index |
| `Detection.KeptRowsExact` | src/main.rs:86-94 | a row index is kept iff it is a row of the input and its confidence is strictly greater than the threshold |
| `Detection.KeptRowsAscending` | src/main.rs:79-98 | kept row indices are strictly ascending, so the output keeps row order and holds no row twice |
| `Detection.SelectedSnoc` | src/main.rs:86-94 | looking at one more row appends that row's box exactly when its confidence beats the threshold |
| `Detection.NoneAboveThreshold` | src/main.rs:79-100 | when no row's confidence beats the threshold, no row is kept and no face is reported |
| `Detection.DetectFacesYunet` | src/main.rs:79-100 | the loop returns the boxes of exactly the kept rows, in row order |
| `Redaction.GridOf` | src/main.rs:121 | the value copy of the frame has the frame's dimensions and its pixels |
| `Redaction.Roi` | src/main.rs:123 | the region of interest has the clamped rectangle's size and pixel (i, j) is frame pixel (y + i, x + j) |
| `Redaction.Paste` | src/main.rs:135-137 | writing into a region of interest yields a frame of the capture size |
| `Redaction.PasteThenRoi` | src/main.rs:135-137 | reading back a region just written gives exactly the written patch |
| `Redaction.RoiThenPaste` | src/main.rs:135-137 | writing a region back unchanged leaves the frame unchanged |
| `Redaction.PasteKeepsOutside` | src/main.rs:135-137 | writing into a region changes no pixel outside it |
| `Redaction.KernelReach` | src/main.rs:123-133 | the pixels a blur of the clamped region reads: exactly the frame pixels within the kernel radius (177 / 2) of the region, a region of interest itself |
| `Redaction.GaussianBlurred` | src/main.rs:126-133 | the blurred region has the size of the region it was computed from |
| `Redaction.BlurFaceResult` | src/main.rs:120-141 | blur_face fails iff the clamped face has no pixel; a failing call reports that clamped rectangle and leaves the frame as it was |
| `Redaction.BlurFaceEffect` | src/main.rs:120-141 | blur_face changes no pixel outside the clamped face, and the clamped region afterwards is the blur of that region as it was before the call |
| `Redaction.BlurFaceReadsOnlyKernelReach` | src/main.rs:121-133 | the written pixels depend only on the pre-call snapshot within the kernel's reach of the clamped region: frames agreeing there agree on the region afterwards |
| `Redaction.CopyToRoi` | src/main.rs:135-137 | the live frame afterwards is the old frame with the region replaced by the patch |
| `Redaction.BlurFace` | src/main.rs:120-141 | the new frame and status are those of `BlurFaceResult` on the frame before the call: blur computed from the snapshot, written into the clamped region only; the final copy into the local `blurred` leaves the frame as it is |
| `Redaction.BoxOutline` | src/main.rs:104-116 | the outline is red with thickness 2, and at inverse scale factor 1 its rectangle is the face itself |
| `Redaction.Outlined` | src/main.rs:116 | drawing an outline yields a frame of the capture size |
| `Redaction.DrawRectangle` | src/main.rs:116 | the live frame afterwards is the old frame with the drawing effect applied |
| `Redaction.DrawBoxAroundFace` | src/main.rs:103-118 | the live frame afterwards is the old frame with the red outline of the face scaled by k, unclamped |
| `FrameLoop.Redact` | src/main.rs:162-166 | one action per face as the policy says; the outline action never fails |
| `FrameLoop.RedactAll` | src/main.rs:161-167 | a failing loop runs under the blur policy and reports the empty clamped region of one of the faces |
| `FrameLoop.RedactAllAppend` | src/main.rs:161-167 | redacting a + b is redacting a, then (if that succeeded) b from the resulting frame: faces are handled strictly in list order |
| `FrameLoop.RedactAllStatus` | src/main.rs:161-167 | the loop succeeds iff the policy is outline or every face clamps to a non-empty region |
| `FrameLoop.BlurChangesOnlyFaceRegions` | src/main.rs:161-167 | under the blur policy no pixel outside the union of the clamped face regions changes, whether the loop succeeds or stops early |
| `FrameLoop.RedactFaces` | src/main.rs:161-167 | the frame and status after the loop are those of `RedactAll` on the frame before it (the cascade branch at src/main.rs:173-180 runs the same loop) |
| `FrameLoop.ProcessFrame` | src/main.rs:157-167 | the YuNet branch: the frame and status are those of redacting, in row order, the boxes of the rows whose confidence beats the threshold; only the kept boxes need overflow-free arithmetic |
| `FrameLoop.BelowThresholdLeavesFrame` | src/main.rs:86-97 | when every detection scores at or below the threshold, no face is reported and the frame comes back unchanged with success |
| `FrameLoop.OneFaceBlurScenario` | src/main.rs:157-167 | one detection (100, 100, 100, 100) scoring 95 against threshold 70 under blur: success, nothing outside the square changes, the square holds the blur of its old contents |
| `FrameLoop.PastRightEdgeScenario` | src/main.rs:120-123 | one confident detection (700, 10, 50, 50) clamps to width -60 and makes the iteration fail with the frame untouched |

## Left out

- Pixel semantics of the library: grayscale conversion, histogram equalisation, the Gaussian kernel arithmetic, rectangle rasterisation and text drawing are library code; blur and drawing are uninterpreted parameters, so the smoothing and "no detail survives" properties of the blur are not stated.
- The detectors themselves (`CascadeClassifier::detect_multi_scale`, `FaceDetectorYN::detect`) and so `detect_faces` and `preprocess_image`: their output contract lives in the library. `ProcessFrame` takes the detector's rows as input.
- Floats: the f32 score and box columns and their `as i32` casts are taken as already-converted integers; `SCALE_FACTOR_INV` is the parameter `k`; NaN scores are not modelled.
- FPS timing (`TickMeter`), the text overlay, display, key polling and the quit key, the output video writer and the final sleep: I/O and clocks. A capture miss (`None` from `grab_frame`) only skips to the next iteration and is not modelled.
- `main()` setup (window, capture, output, classifier and detector creation); the detector's own 0.9 score threshold set there is not part of this model.
- `src/window.rs` and `src/output.rs`: wrappers over the library with no logic of their own.
- Clamp: `i32` overflow of `x + width` and `y + height` is excluded by the precondition `ClampDefined` instead of being modelled as a debug-build panic or release-build wrap-around.
- Scale: `i32` overflow of the four products is excluded by the precondition `ScaleDefined` in the same way.
- BlurFace: both ways an empty clamped rectangle ends the iteration are merged into the status `EmptyRoi`: the panic of `unwrap` on a negative width or height, and the error `gaussian_blur` returns through `?` on a zero one (`Mat::roi` accepts a zero extent). Other errors the library's blur and copy calls may return through `?` are not modelled.
- DrawBoxAroundFace: the library's rectangle drawing is taken to be infallible.
- RedactFaces: on an empty clamped rectangle the source ends the process, by the panic of `unwrap` (negative extent) or by the error `frame_loop` returns (zero extent); the model returns the status `EmptyRoi` and the partly redacted frame instead.
- Logging (`println!` at src/main.rs:96 and 174) is output only and is not modelled; nor are the errors of `at_2d(..)?` when reading the detector's columns (src/main.rs:80-84), since the rows are taken as already read.
