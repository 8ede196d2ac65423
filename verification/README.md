# Thermal anomaly and region-of-interest engine

This project models the analysis core of `ThermalImageAnalyzer`, a tool that reads a
thermal photograph and looks for hot spots. The model covers four parts:

- **Thresholding.** A temperature grid becomes an anomaly mask. A cell is anomalous
  when its temperature is strictly above the threshold.
- **Region registry.** Named rectangles are kept in a Python dict. A region is stored as
  the tuple `(top_left, x + width, y + height)`. Redefining a name overwrites it in place.
- **Two-click capture.** The first mouse click is kept as the anchor. The second click
  gives width and height by subtraction and defines the region under the name typed at
  the prompt. Then the handler is disconnected.
- **Region correlation.** The regions are visited in registry order. For each one, the
  half-open slice of the mask under its rectangle is tested for any anomalous cell. If
  there is one, the slice's contours are moved back into whole-image coordinates.

Modules, one per component:

- `Wrappers` (`wrappers.dfy`): `Option` and `Result`.
- `Geometry` (`geometry.dfy`): points, contours, and the offset translation of contours.
- `Detection` (`detection.dfy`): grids, masks, thresholding, anomalous area.
- `Rois` (`rois.dfy`): the insertion-ordered registry with dict semantics.
- `Correlation` (`correlation.dfy`): slicing, the any-cell test, per-region verdicts.
- `Capture` (`capture.dfy`): the two-click capture as an explicit state machine
  (`CaptureState`: `AwaitingFirst`, `AwaitingSecond(anchor)`, `Closed`).
- `Analyzer` (`analyzer.dfy`): the analyzer object, as the datatype `Session`. Its later-set attributes
  (`anomalies`, `contours`, `rois`) are `Option` fields, absent until set.

The contour finder (`cv2.findContours`) is a parameter `finder: Mask -> seq<Contour>`.
Nothing is assumed about it except that it is a function of the mask. Temperatures are
`real`, because only `>` is ever applied to them. Printing and drawing are not
modelled. Instead, each check returns a `Verdict`: the region's name, whether an anomaly
was found, and the whole-image contours the code draws.

The model is functional. `Analyzer.CheckRois` takes the analyzer state (`Session`) as a
value and returns only verdicts. In the code, checking never changes the mask or the
registry either, but it does draw the contours into the temperature grid itself; the model
does not (see Left out).

The model follows the code, including where a stricter design would differ:

- An empty grid is not rejected; it gives an empty mask.
- `define_roi` does not validate anything. A zero or negative width or height, or a
  rectangle outside the image, is stored as given.
- There is no session state machine and no `InvalidStateError`. Checking regions before
  detection subscripts a missing mask, which raises an error in the code. That case is
  modelled as `Err(NotDetected)`, and only when the registry is non-empty, because an
  absent or empty registry never touches the mask.
- The first click is called the bottom-left corner in the code, but it is stored as
  `top_left`. See Findings.

## Model

| member | source | states |
|---|---|---|
| Detection.Threshold | flir_image_extractor.py:33 | The mask has the grid's shape, and a cell is anomalous exactly when its temperature is strictly above the threshold. A cell equal to the threshold is not anomalous. |
| Detection.ThresholdMonotone | flir_image_extractor.py:33 | If t1 <= t2, every cell anomalous at threshold t2 is also anomalous at t1: raising the threshold never adds an anomalous cell. |
| Detection.ThresholdAreaMonotone | flir_image_extractor.py:33 | Raising the threshold never increases the number of anomalous cells. |
| Detection.ThresholdExtremes | flir_image_extractor.py:33 | A threshold below every temperature marks every cell. A threshold at or above every temperature marks none. |
| Geometry.Translate | flir_image_extractor.py:141 | Adding the region offset keeps the number of contours, the length of each and the order of points, and moves every point by exactly (x, y). |
| Geometry.TranslateRoundTrip | flir_image_extractor.py:141 | Subtracting the same offset recovers the local contours exactly. |
| Geometry.TranslateInjective | flir_image_extractor.py:141 | Two different lists of local contours never become the same whole-image contours. |
| Rois.Put | flir_image_extractor.py:117 | After the dict assignment, the name maps to the new rectangle and every other name keeps its entry. A new name goes last in iteration order, and an existing name keeps its place. Distinct names stay distinct. |
| Rois.PutIsDictUpdate | flir_image_extractor.py:115-117 | Read as a map, the registry after the assignment is the old map updated at that name. |
| Rois.DefineRoi | flir_image_extractor.py:104-117 | The stored region gives back the corner, width and height it was defined with. Other names and the iteration order behave as for a dict assignment. |
| Correlation.Slice | flir_image_extractor.py:130 | The slice covers rows [top_left.y, bottom_right_y) and columns [top_left.x, bottom_right_x), both half-open. It is empty when a bound is not above its start, and cell (i, j) of the slice is mask cell (top_left.y + i, top_left.x + j). |
| Correlation.AnyCell | flir_image_extractor.py:133 | `np.any` is true exactly when some cell of the slice is true. |
| Correlation.SliceAnyIffRect | flir_image_extractor.py:129-133 | Some cell of the slice is true exactly when some mask cell inside the half-open rectangle is true. |
| Correlation.CheckRoi | flir_image_extractor.py:128-147 | A region reports an anomaly exactly when some mask cell in its rectangle is true. It then returns the slice's contours moved by the top-left corner, and subtracting the corner gives back exactly what the finder returned for the slice. With no anomaly it returns no contours. |
| Correlation.Correlate | flir_image_extractor.py:128-147 | One verdict per region, in registry order, each the check of that region. |
| Correlation.CorrelateVerdicts | flir_image_extractor.py:128-133 | Verdict k names the k-th region, and it reports an anomaly exactly when that region's rectangle holds an anomalous cell. |
| Correlation.CorrelateAllClear | flir_image_extractor.py:146-147 | On a mask with no anomalous cell, every region is reported clear with no contours. |
| Correlation.CorrelateAfterRedefine | flir_image_extractor.py:115-130 | After a region is redefined, its verdict keeps its old position and follows only the new rectangle. Every other verdict is unchanged. |
| Capture.DefineFromClicks | flir_image_extractor.py:80-88 | As written, the second click's region has the anchor as top-left and the second click as bottom-right, so its width and height are the differences of the clicks. Under the corrected rule it is the rectangle the clicks span. Other names are untouched, distinct names stay distinct, and the name keeps its place in iteration order, or goes last when it is new, as for a dict assignment. |
| Capture.OnClick | flir_image_extractor.py:70-88 | The first click becomes the anchor and defines nothing. As written, the second click stores a region whose bottom-right corner is exactly that click, and closes the capture. A closed capture ignores clicks. Other names are untouched, and the second click leaves the name in its place in iteration order, or last when it is new. |
| Capture.ClosedIgnoresClicks | flir_image_extractor.py:90-92 | After the handler is disconnected, no click changes the capture or the registry. |
| Capture.CaptureOutcome | flir_image_extractor.py:70-92 | With fewer than two clicks, no region is defined. With two or more, only the first two count. As written, the region has the first click as top-left and the second as bottom-right, and its width and height are their differences. |
| Capture.AsWrittenHidesPromptedRoi | flir_image_extractor.py:77-88 | Clicks in the prompted order (bottom-left, then top-right) store a negative height. The stored rectangle then holds no mask cell, whatever the mask. |
| Capture.AsWrittenMissesHotMask | flir_image_extractor.py:77-88 | On a 4 by 4 mask that is anomalous everywhere, clicks (0, 3) then (3, 0) define the region `((0, 3), 3, 0)`, whatever its name and the registry, and the check reports it clear. |
| Capture.SpanningCoversPromptedRoi | flir_image_extractor.py:80-88 | The corrected capture stores the rectangle the two clicks span. It does not depend on click order and never has a negative size. In the prompted order it covers exactly the rows and columns between the clicks. |
| Capture.SpanningFindsHotMask | flir_image_extractor.py:80-88 | For the same clicks on the all-anomalous mask, the corrected capture defines the region `((0, 0), 3, 3)`, and the check reports the anomaly. |
| Analyzer.DetectAnomalies | flir_image_extractor.py:28-34 | Detection sets the mask to the grid compared with the threshold, cell by cell, and the contours to the finder's result on that mask. Grid, threshold and regions are untouched, and regions that fit the grid fit the mask. |
| Analyzer.DefineRoi | flir_image_extractor.py:104-117 | Defining a region creates the registry if it is absent and stores `(top_left, x + width, y + height)` under the name. Other names, the mask and the contours are untouched. |
| Analyzer.CaptureRoi | flir_image_extractor.py:62-92 | The registry exists after a capture, and fewer than two clicks leave it unchanged. With two or more clicks only the first two count. As written, the region stored under the typed name has the first click as top-left corner and the second click as bottom-right corner. Under the corrected rule it is the rectangle the two clicks span. The name keeps its place in iteration order, or goes last when it is new, so the regions are checked in the same order as in the code. Other names, the grid and the mask are untouched. |
| Analyzer.CheckRois | flir_image_extractor.py:119-147 | With no registry, or an empty one, there are no verdicts. With regions but no mask the check fails. Otherwise there is one verdict per region in registry order, with an anomaly exactly when the rectangle holds a true mask cell. Such a region carries the contours the finder returns for its slice, moved by its top-left corner; a clear one carries no contours. |
| Analyzer.DetectThenCheck | flir_image_extractor.py:33-133 | After detection, the check succeeds, gives one verdict per region, and reports an anomaly exactly when some grid cell in the region's rectangle is hotter than the threshold. |
| Analyzer.ExampleFirstRoi | flir_image_extractor.py:117 | Defining "A" at (0, 0) with size 2 by 2 in an empty registry stores `((0, 0), 2, 2)`. |
| Analyzer.ExampleSecondRoi | flir_image_extractor.py:117 | Defining "B" after "A" lists it second, with the stored tuple `((3, 3), 4, 4)`. |
| Analyzer.ExampleSession | flir_image_extractor.py:162-174 | With threshold 45, a 4 by 4 grid hot only at (1, 1) and (2, 2), region "A" over (0, 0)-(2, 2) and region "B" over (3, 3)-(4, 4): "A" reports an anomaly, and "B" reports none and has no contours. |

## Left out

- Correlation.Correlate, Correlation.Slice, Correlation.SliceAnyIffRect, Correlation.CorrelateVerdicts: each requires every rectangle to have non-negative bounds, with the right and bottom bounds inside the mask. numpy's clamping of out-of-range slice bounds and its negative indices are not modelled.
- Correlation.CheckRoi: has the same non-negative, in-bounds precondition as `Correlation.Correlate`, for the same reason.
- Analyzer.CheckRois: has the same precondition on the regions once a mask exists.
- Loading the grid (`load_and_process_image`, flir_image_extractor.py:23-26) calls an image-extraction library outside this model. The grid is an input: `Analyzer.Loaded` is the analyzer right after construction and loading, and the worked example starts from it.
- Contour tracing (`cv2.findContours`, flir_image_extractor.py:34 and 137) is a foreign algorithm. It is the `finder` parameter, so connectivity, winding and "external contours only" are not modelled. For the same reason, it is not proved that correlating reproduces the whole-image contours lying inside a rectangle.
- Drawing (`cv2.drawContours`, flir_image_extractor.py:144) writes the contour outlines, value 255 and two pixels wide, into the temperature array itself. Rasterising the outlines is a foreign algorithm, so the model drops this in-place change: the verdict carries the contours, and the grid is unchanged by a check. In the code, a later detection on the same analyzer sees every outline cell as 255: anomalous when the threshold is below 255; otherwise the outline hides any hotter reading it covers. In the model it sees the original grid.
- All display code (flir_image_extractor.py:36-60, 95-102) and every `print` are left out. The printed messages correspond to `Verdict.hasAnomaly`.
- Event plumbing (`plt.connect`, `plt.disconnect`, `plt.close`, `input()`, and the `int(event.xdata)` conversion at flir_image_extractor.py:73-92) is left out. Clicks arrive as integer points, and the typed name is a parameter.
- The module-level example script (flir_image_extractor.py:150-177) is not modelled as a program. `Analyzer.ExampleSession` follows its detect-then-check part on a small grid. Its regions are given directly as a registry, not captured by clicks.
- Other files (extract_metadata.py, analysis/thermal_processor.py, analysis/utilities.py, main.py) hold subprocess calls, file I/O and plotting only. They are not part of this model.

## Findings

| source | as written | input that shows it | evidently intended | confidence | as-written member | corrected member |
|---|---|---|---|---|---|---|
| flir_image_extractor.py:81-88 | The window title (line 98) asks for the bottom-left corner and then the top-right. The handler stores the first click as `top_left` with `height = second.y - first.y`. The image is shown with row 0 at the top, so that height is negative, and the row slice `[first.y:second.y]` at line 130 is empty. | Clicks (0, 3) then (3, 0) on a mask that is anomalous everywhere: the region is reported with no anomaly. | The region is the rectangle the two clicks span, whichever corners they are. | not executed; relies on matplotlib showing images with the origin at the upper left, which is its default | Capture.AsWrittenHidesPromptedRoi | Capture.SpanningCoversPromptedRoi |

The corrected rule is `Capture.Spanning`. `Analyzer.CaptureRoi` takes the rule as a
parameter: with `Capture.AsWritten` it stores what the code stores, and with
`Capture.Spanning` it stores the corrected rectangle. `Capture.OnClick` and
`Capture.CaptureOutcome` state the as-written round trip: the stored bottom-right corner
is the second click.
