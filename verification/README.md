# Pose-estimation drawing and resizing helpers, modelled in Dafny

This project models the two helpers of a pose-estimation demo that sit in
`utils/utils.py`:

- **The skeleton colour table.** Eighteen pairs of keypoint indices, each with
  the colour of the line drawn between the two keypoints. It lives in
  `edge_table.dfy` (module `EdgeTable`).
- **`visualize`.** It decides what to draw for a list of detected persons.
  - A person whose score is below the instance threshold is skipped.
  - For every other person it draws a circle on each keypoint scoring at
    least the keypoint threshold.
  - It then draws a line along each table edge whose two endpoints both score
    strictly above that threshold.
  - The model returns the ordered list of drawing calls (`DrawCmd`) that
    `visualize` makes. It is in `visualizer.dfy` (module `Visualizer`).
  - The walk "positions of a sequence that pass a test, in order" is shared
    by both drawing loops. It is defined once in `selection.dfy` (module
    `Selection`), with a declarative description and a proof that the
    description has exactly one answer.
- **`keep_aspect_ratio_resizer`.** Only its size arithmetic is modelled.
  - The longer side becomes the target size.
  - The shorter side is scaled in proportion and rounded up to a whole pixel.
  - The canvas rounds that shorter side up to a multiple of 32.
  - Padding is added on the bottom and right only.
  - It is in `resizer.dfy` (module `Resizer`).

Two points about the resizer's code are easy to misread:

- **Square images.** The resizer's branch test is strict, `height > width`
  (utils/utils.py:95). A square image therefore takes the "wide" branch: its
  width becomes the target size and only its height is rounded up to 32.
  Whenever `target_size` is not a multiple of 32, the canvas is therefore
  taller than it is wide. `Resizer.SquareIsWide` states what the code does.
- **Multiples of 32.** The docstring says the padded image has both sides a
  multiple of 32 (utils/utils.py:82-84). The longer side is set to
  `target_size` and never rounded, so this holds exactly when `target_size`
  is itself a multiple of 32. `Resizer.CanvasAligned` proves this as an
  if-and-only-if. `Resizer.UnalignedTargetExample` shows a 100 by 200 image
  with target 250 getting a canvas 250 pixels wide.

## Model

| member | source | states |
|---|---|---|
| EdgeTable.TableShape | utils/utils.py:9-28 | The edge table has 18 entries. Each pair lists its smaller index first. Every index is below 17, so every edge can be looked up on a 17-keypoint person. |
| EdgeTable.TableKeysDistinct | utils/utils.py:9-28 | No index pair appears twice in the table, as the table is a dictionary keyed by the pair. |
| EdgeTable.TableFits | utils/utils.py:61-64 | On a person with at least 17 keypoints, both endpoint lookups of every table edge are in range. |
| Selection.Select | utils/utils.py:56-57 | The loop's selected positions are positions of the walked sequence, and there are no more of them than elements. |
| Selection.SelectIsSelection | utils/utils.py:56-65 | The selected positions are strictly increasing. Each one passes the test. Every position that passes the test is among them. |
| Selection.SelectionUnique | utils/utils.py:56-65 | Only one sequence meets that description, so the description fixes what the loop draws. |
| Visualizer.Circles | utils/utils.py:55-58 | The landmark loop makes exactly one circle per keypoint scoring at least the threshold, in keypoint order. Each circle is at that keypoint's coordinate, with radius 2, the keypoint colour and thickness 4. |
| Visualizer.Lines | utils/utils.py:60-72 | The edge loop makes exactly one line per edge whose endpoints both score above the threshold, in table order. Each line joins the two endpoint coordinates, in the edge's colour, with thickness 2. |
| Visualizer.SkeletonCommands | utils/utils.py:52-72 | For an accepted person, all circles come first and all lines follow. Position j of each block is the j-th selected keypoint or edge. |
| Visualizer.DotsInKeypointColor | utils/utils.py:56-58 | Every circle drawn for one person is in the keypoint colour. |
| Visualizer.Visualize | utils/utils.py:48-50 | When every person is below the instance threshold, nothing is drawn. |
| Visualizer.VisualizeDotColor | utils/utils.py:48-58 | Every circle in the whole output is in the keypoint colour. |
| Visualizer.SelectionRule | utils/utils.py:56-65 | A keypoint gets a circle if and only if its score is at least the threshold. An edge gets a line if and only if both endpoint scores are strictly greater than the threshold. |
| Visualizer.BoundaryKeypoint | utils/utils.py:57-64 | A keypoint scoring exactly the threshold gets its circle, yet no drawn line touches it. |
| Visualizer.VisualizeAppend | utils/utils.py:48-72 | The output for persons `a + b` is the output for `a` followed by the output for `b`. |
| Visualizer.VisualizeSingle | utils/utils.py:48-72 | The output for a single person is that person's own block of calls. |
| Visualizer.PersonBlock | utils/utils.py:48-72 | Person i's calls come after those of earlier persons and before those of later persons. |
| Visualizer.SkippedPerson | utils/utils.py:48-50 | A person below the instance threshold adds no calls. The calls for the persons around it are unchanged. |
| Visualizer.NoLinesWithoutSecondKeypoint | utils/utils.py:9-28 | Every table edge has an endpoint other than keypoint 0. So if no keypoint except 0 scores above the threshold, no line is drawn. |
| Visualizer.DefaultThresholdExample | utils/utils.py:31-72 | Default arguments, a person scoring 0.5, nose 0.2, left eye 0.04, the rest 0: the output is one circle on the nose and no lines. |
| Resizer.CeilDiv | utils/utils.py:96-98 | The ceiling of a proportional length: the least q with q * b >= a. |
| Resizer.RoundUpToStride | utils/utils.py:100 | The rounded side is a multiple of 32, at least the scaled side, and less than 32 above it. |
| Resizer.RoundUpIsLeast | utils/utils.py:100 | No smaller multiple of 32 covers the scaled side. |
| Resizer.ScaledSideBounds | utils/utils.py:96-98 | The scaled shorter side is positive and at most the target size. |
| Resizer.KeepAspectRatio | utils/utils.py:94-121 | The longer side (width for squares) equals the target size and is not rounded. The shorter side is the least whole length keeping the aspect ratio, and its canvas side is the least multiple of 32 covering it. Top and left padding are 0. Bottom and right padding are non-negative and one is 0. Resized size plus padding equals the returned canvas size. |
| Resizer.CanvasAligned | utils/utils.py:82-106 | Both canvas sides are multiples of 32 if and only if the target size is a multiple of 32. |
| Resizer.UnalignedTargetExample | utils/utils.py:101-106 | With target size 250, a 100 by 200 image gets a canvas width of 250, which is not a multiple of 32. |
| Resizer.SquareIsWide | utils/utils.py:95-106 | A square image is resized to target by target. Its width is the target size and its height is the target rounded up to 32. |
| Resizer.WideImageExample | utils/utils.py:101-110 | A 100 by 200 image with target 256 is resized to 128 by 256 and needs no padding. |

## Left out

- Pixel work is not modelled: `cv2.resize` interpolation, the constant border
  fill of `cv2.copyMakeBorder`, and the rasterisation of `cv2.circle` and
  `cv2.line`. These are library calls. The model records only the sizes
  requested and the drawing calls made, with their arguments.
- Image buffers are not modelled. That covers in-place mutation by `visualize`
  and the image both functions return. `visualize` becomes a function from
  persons to a list of drawing calls, and the resizer a function from
  `(height, width, target_size)` to sizes and padding.
- The resizer's floating-point scale, `float(target_size / side)` followed by
  `math.ceil`, is replaced by exact ceiling division. IEEE rounding could in
  principle make the ceiling differ by one from the exact value.
- `Resizer.KeepAspectRatio` requires positive height, width and target size.
  The code does not check them. A zero-area image or a non-positive target
  fails inside the division or the image library.
- `Visualizer.Visualize` requires every accepted person to have at least 17
  keypoints, as the detector produces. With fewer, the code fails only when
  the edge loop reaches a missing index. The `and` in the edge test
  short-circuits, so a short person whose low-scoring keypoints guard the
  missing ones is drawn in full without error. When the loop does fail, the
  person's circles and the lines for earlier edges are already drawn. The
  model represents neither case. Skipped persons are never indexed, so they
  need no such bound.
- Scores and thresholds are Python floats in the code. The model uses exact
  reals, so NaN is not represented: a person scoring NaN is drawn by the code,
  since `nan < instance_threshold` is false, and a NaN keypoint gets neither a
  circle nor a line. `DEFAULT_KEYPOINT_THRESHOLD` is the exact real 0.05, not
  the nearest double.
- The `Person` class comes from the `data` module, which is not part of this
  model. `Person` here keeps only the keypoints and the score. The bounding
  box is read but never used for drawing.
- `keypoint_color` may be a tuple of any length in the code. It is modelled
  as a three-component colour.

