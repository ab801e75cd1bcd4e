# VideoSetter calibration core, in Dafny

This project models the calibration half of a seven-segment display reader. The
operator opens a video. In the cropping stage they drag rectangles to cut the
first frame down. In the rotating stage they turn the view in quarter turns with
`r`. In the placement stage they click the segments of each digit.

Every click is converted from screen coordinates to coordinates in the original
first frame (`convertCords`). Every placed point is drawn back on screen through
the inverse transform (`showedCords`). Segments are grouped seven to a `Digit`,
in placement order, and Backspace undoes the most recent placement. When a
side of the cut frame exceeds 900 px, the frame is resized to 900 px high and
the scale `900 / height` is stored in `scaleF`. A frame that is wide but less
than 900 px tall is therefore enlarged (see Findings).

Modules:

- `Outcomes`: the exceptions the code raises, and a `Result` type that
  propagates them with `:-`.
- `Geometry`: `convertCords` and `showedCords` as pure functions, with Python's
  `round` modelled exactly on fractions. It also holds their round-trip
  theorems.
- `Scaling`: the scale rule of `_scale`, both as written and as evidently
  intended (see Findings). It also holds the size of the frame `showFrame` cuts
  with Python slice clamping, the scale stored for it as written, and whether
  showing it raises.
- `Placement`: `digits` and `segmentsHistory` as values. It holds `setSegment`,
  `Digit.place`, `removeLast` and `Digit.removeLast`, and the bookkeeping
  invariant they keep.
- `Stages`: what a key does in each of the three stage loops, what a mouse event
  does while cropping, and the rotation key.
- `Setter`: the `VideoSetter` class itself. Its fields are updated in place by
  methods with loops, and each method is proved against the pure definitions
  above.

Behaviour of the code that a reader may not expect, which the model keeps:

- Crops accumulate. Every crop applies an offset after the previous ones, and
  a new crop never replaces an earlier one. There is no crop undo.
- The corners of a crop are stored as dragged, with no min/max normalisation
  and no minimum size. A drag towards the top left, released inside the frame,
  therefore leaves an empty frame, and showing it raises (`Scaling.ReversedDragEmptiesFrame`).
- The scale is `900 / height` whenever a side exceeds 900 px, and small frames
  are never scaled up.
- The rotation key works only in its own stage, between cropping and
  placement.
- The placement stage has no exit key, no accept check, and no "too close"
  rejection.
- Only "no key" (-1, which `waitKey` returns when the window is gone) quits.
  Every other unhandled key is printed and ignored.

Python's object identity of `Digit` and `Segment` is modelled by creation slot.
A segment's id is its index in the history, and a digit's id is its index in
`digits`. This is sound because the model proves that both lists only ever
lose their last element.

## Model

| member | source | states |
|---|---|---|
| `Geometry.RoundDiv` | VideoSetter.py:119 | Python's `round(a / b)`: the nearest integer, within half a unit, and an even one on a tie |
| `Geometry.CropOffset` | VideoSetter.py:121-122 | the summed top-left corners of all crops; succeeds exactly when every crop has its corner A, otherwise IndexError |
| `Geometry.Unrotate` | VideoSetter.py:124-133 | the four rotation cases of `convertCords`; IndexError exactly when the quadrant is outside 0..3 |
| `Geometry.Rotate` | VideoSetter.py:141-151 | the four rotation cases of `showedCords`; IndexError exactly when the quadrant is outside 0..3 |
| `Geometry.ScaleDown` | VideoSetter.py:119 | `round(pos / scaleF)` on both axes: each coordinate is within half a unit of p / s |
| `Geometry.ScaleUp` | VideoSetter.py:156 | `round(pos * scaleF)` on both axes: each coordinate is within half a unit of p * s |
| `Geometry.ConvertCords` | VideoSetter.py:116-135 | succeeds exactly when the quadrant is 0..3 and every crop has corner A; the only error is IndexError |
| `Geometry.ShowedCords` | VideoSetter.py:137-158 | succeeds under the same condition as `convertCords`; the only error is IndexError |
| `Geometry.RotationCasesInverse` | VideoSetter.py:124-148 | for a fixed `originalSize`, each rotation case of `showedCords` undoes the matching case of `convertCords`, and the other way round |
| `Geometry.RotationOutOfRangeFails` | VideoSetter.py:132-151 | a quadrant outside 0..3 makes both transforms raise IndexError, whatever the crops |
| `Geometry.ShowedAfterConvert` | VideoSetter.py:116-158 | drawing a converted click gives `round(round(p / s) * s)`: the crop offsets added are exactly removed and the rotation is undone |
| `Geometry.ConvertAfterShowed` | VideoSetter.py:116-158 | converting a drawn point reduces to the scale round trip inside the cropped, rotated frame |
| `Geometry.UnrotateShift` | VideoSetter.py:124-133 | shifting a rotation case's input shifts its output by the same amounts, possibly swapped between the axes |
| `Geometry.UnitScaleIsIdentity` | VideoSetter.py:119 | at scale 1, neither `round(p / s)` nor `round(p * s)` changes a coordinate |
| `Geometry.UnitScaleRoundTrip` | VideoSetter.py:116-158 | at scale 1, for any crops and quadrant 0..3, `showedCords(convertCords(p)) == p` and `convertCords(showedCords(q)) == q` |
| `Geometry.ScaleRoundTripAxis` | VideoSetter.py:119 | one axis of scale-down then scale-up ends within (num + den) / (2 den) of where it started |
| `Geometry.ReverseRoundTripAxis` | VideoSetter.py:156 | one axis of scale-up then scale-down ends within (num + den) / (2 num) of where it started |
| `Geometry.DownscaledRoundTripWithinOne` | VideoSetter.py:116-158 | with a scale of at most 1, a converted click is drawn back within one pixel on each axis |
| `Geometry.UpscaledReverseWithinOne` | VideoSetter.py:116-158 | with a scale of at least 1, converting a drawn point lands within one pixel of it on each axis |
| `Scaling.ScaleFactorAsWritten` | VideoSetter.py:42-49 | `_scale` as written: scale 1 when the frame fits, otherwise height x scale = 900; raises exactly when the frame must be resized and has no rows or no columns |
| `Scaling.AsWrittenEnlargesWideFrame` | VideoSetter.py:44-46 | an uncropped 1000 x 200 first frame gets scale 9/2; a click at (2, 0) is drawn back at (0, 0) |
| `Scaling.AsWrittenRaisesOnEmptyCrop` | VideoSetter.py:44-46 | a frame 1000 px wide with no rows makes `_scale` raise |
| `Scaling.ScaleFactor` | VideoSetter.py:42-49 | the intended scale: never enlarges, both sides fit in 900 px, it is 1 when the frame fits, and the larger side becomes exactly 900 when it does not |
| `Scaling.ScaleFor` | VideoSetter.py:42-49 | `_scale` with the intended factor: the same error condition as written, otherwise the intended scale |
| `Scaling.ScaleFactorAgreesOnTallFrames` | VideoSetter.py:44-49 | on frames at least as tall as wide, the as-written and intended rules give the same outcome |
| `Scaling.ScaleFactorDiffersOnWideFrames` | VideoSetter.py:44-46 | on every non-empty frame wider than 900 px and wider than tall, the as-written rule differs from the intended one, and under the stored `scaleF` the frame's width maps past 900 in `showedCords` coordinates (for an uncropped first frame, also the width shown) |
| `Scaling.ScaledRoundTripWithinOne` | VideoSetter.py:116-158 | with the intended scale, for any frame size, crops and quadrant 0..3, a converted click is drawn back within one pixel |
| `Scaling.SliceBound` | VideoSetter.py:108 | a slice bound is clamped into 0..n and kept as is when already inside |
| `Scaling.SliceLength` | VideoSetter.py:108 | a slice is never longer than its axis; `[a:b]` inside the axis has length b - a, and a reversed one is empty |
| `Scaling.CropOnce` | VideoSetter.py:108 | cutting by one crop never grows the frame, and raises IndexError exactly when a corner is unset |
| `Scaling.CroppedSize` | VideoSetter.py:106-108 | cutting by all crops in turn never grows the frame, and succeeds exactly when every crop has both corners |
| `Scaling.ShownScale` | VideoSetter.py:105-110 | the scale `showFrame` stores, as written: it exists only for well-formed crops that cut successfully, the height shown always fits 900 px, and the error is IndexError from the crops or else EmptyFrame from `cv2.resize` |
| `Scaling.ShowOutcome` | VideoSetter.py:105-114 | `showFrame` returns normally exactly when the cut succeeds and has rows and columns; it then always has a stored scale, an error of `_scale` is its error, and an empty cut raises EmptyFrame in `cv2.imshow` even unresized |
| `Scaling.LandscapeHdScale` | VideoSetter.py:42-49 | an uncropped 1920 x 1080 video is stored at 900 / 1080, and a click at (100, 100) maps to (120, 120), matching the 1600 x 900 frame shown; the intended rule gives 900 / 1920 and (213, 213), which needs the resize target changed too |
| `Scaling.CropInsideFrame` | VideoSetter.py:108 | a drag inside the frame cuts it to exactly the dragged rectangle |
| `Scaling.ReversedDragEmptiesFrame` | VideoSetter.py:105-114 | a drag towards the top left, released inside the frame, leaves a 0 x 0 frame; `_scale` sets the scale to 1, and `cv2.imshow` then raises EmptyFrame |
| `Scaling.LeftwardTallDragRaises` | VideoSetter.py:105-114 | a leftward drag spanning more than 900 rows leaves a frame with no columns that must be resized, so `_scale` raises EmptyFrame before it assigns the scale |
| `Stages.OnKey` | VideoSetter.py:57-103 | in each loop: -1 quits; Enter leaves cropping and rotating but not placement; `r` rotates only while rotating; Backspace undoes only while placing; any other key does nothing |
| `Stages.NextStage` | VideoSetter.py:36-38 | leaving a stage enters the next one in `set`'s order |
| `Stages.StageAfter` | VideoSetter.py:36-103 | the reference definition of the stage reached after a key sequence, stopping at `quit()`; its properties are `Stages.StagesOnlyMoveForward` and `Stages.TwoEntersReachPlacement` |
| `Stages.StagesOnlyMoveForward` | VideoSetter.py:57-103 | no key sequence goes back to an earlier stage, and placement is never left |
| `Stages.TwoEntersReachPlacement` | VideoSetter.py:57-87 | two Enter presses take cropping to placement, and nothing after them leaves it |
| `Stages.NextRotation` | VideoSetter.py:80-81 | the rotation key always yields a quadrant in 0..3, one quarter turn on |
| `Stages.RotationAfter` | VideoSetter.py:80-81 | the reference definition of the quadrant after n presses of the rotation key, one `NextRotation` per press; its properties are `Stages.RotationAfterPresses` and `Stages.FourPressesRestore` |
| `Stages.RotationAfterPresses` | VideoSetter.py:80-81 | n presses from quadrant r give (r + n) mod 4 |
| `Stages.FourPressesRestore` | VideoSetter.py:80-81 | four presses return the quadrant to its starting value |
| `Stages.CropEvent` | VideoSetter.py:162-168 | crops only accumulate, by at most one per event; exactly a release appends, and it appends (corner A, release point) and clears the corners; a press sets corner A to the point and keeps corner B and the crops; any other event changes nothing |
| `Stages.Redraws` | VideoSetter.py:162-173 | the events after which `onClick` calls `showFrame`: a release while cropping and a press while placing |
| `Stages.PressThenRelease` | VideoSetter.py:162-168 | a press at a followed by a release at b appends exactly (a, b) and clears the corners; nothing else changes |
| `Stages.ReleaseWithoutPress` | VideoSetter.py:165-168 | a release with no press since the last crop appends a crop without corner A; from then on both transforms raise for every position |
| `Stages.ArmedReleaseKeepsWellFormed` | VideoSetter.py:162-168 | while every release follows a press, the crops stay well formed |
| `Placement.IsFull` | VideoSetter.py:250-251 | `Digit.isFull`: at least seven segments |
| `Placement.IsEmpty` | VideoSetter.py:253-254 | `Digit.isEmpty`: no segments |
| `Placement.Valid` | VideoSetter.py:175-195 | the invariant `setSegment` and `removeLast` keep: every digit holds 1..7 segments and all but the last are full, every digit and segment knows its slot and its owner, and the digits hold exactly the history in order |
| `Placement.NewDigit` | VideoSetter.py:177 | `digits.append(Digit(self))`; `Placement.NewDigitAddsNoSegment` states what it does |
| `Placement.NewDigitAddsNoSegment` | VideoSetter.py:177-185 | a new digit is empty and goes after the old ones, so the segments held and the history are unchanged |
| `Placement.SetSegment` | VideoSetter.py:175-185 | `setSegment` records exactly one new segment, at pos, after the earlier history; where it lands is `Placement.SetSegmentPlacesInFirstOpen` |
| `Placement.FirstOpen` | VideoSetter.py:178-182 | the index where the `for d in self.digits` loop stops: every digit before it is full, and the one at it, if any, is not |
| `Placement.Place` | VideoSetter.py:236-239 | `Digit.place`: a new segment at pos, with the next id, goes to the end of both the digit and the history; other digits are untouched |
| `Placement.IndexOf` | VideoSetter.py:191-192 | the first position holding x |
| `Placement.RemoveFirst` | VideoSetter.py:191-194 | `list.remove` shortens the list by one |
| `Placement.RemoveFirstOfLast` | VideoSetter.py:191-192 | removing an element found only at the end drops the last element |
| `Placement.DigitIndex` | VideoSetter.py:190 | the first digit whose id matches: the object `seg.digit` refers to |
| `Placement.Detach` | VideoSetter.py:191-194 | the three `remove` calls for a segment found in digit k: the history loses one entry, and the digits lose one exactly when that digit held only that segment |
| `Placement.DropLastSegment` | VideoSetter.py:187-194 | taking the last segment off the digits: their concatenation loses exactly its last entry, and only the last digit changes or goes |
| `Placement.RemoveLast` | VideoSetter.py:187-195 | the reference undo: on a non-empty history exactly the most recent entry is forgotten, and an empty one changes nothing; `Placement.RemoveLastIsDetach` ties it to the removal by identity |
| `Placement.RemoveReplacedLastDigit` | VideoSetter.py:193-194 | `digits.remove(digit)` on the last digit, with digits numbered by slot, drops the last digit |
| `Placement.LastSegmentOwner` | VideoSetter.py:187-192 | in a valid layout the last placed segment is the last one of the last digit, occurs nowhere else, and refers to that digit |
| `Placement.PopSegment` | VideoSetter.py:247-248 | `Digit.removeLast` raises IndexError exactly on an empty digit, and otherwise shortens it by one |
| `Placement.PopUndoesAppend` | VideoSetter.py:236-248 | popping right after appending gives the digit back |
| `Placement.PlaceInNewDigit` | VideoSetter.py:184-185 | a new digit that is placed into holds exactly the new segment |
| `Placement.SetSegmentPlacesInFirstOpen` | VideoSetter.py:175-185 | for any layout, the history grows by one segment at pos, which lands in the first non-full digit, or in a new digit at the end when all are full or there are none |
| `Placement.SetSegmentShape` | VideoSetter.py:175-185 | on a valid layout the new segment goes into the last digit while it has room, otherwise into a new digit |
| `Placement.RemoveLastIsDetach` | VideoSetter.py:187-194 | on a valid layout with a history, the removal by identity (the last segment, looked up through its digit) finds a segment present in its digit and in the history, and takes the last segment off the history and off the last digit, dropping that digit when it held only that segment |
| `Placement.AppendToLastKeepsValid` | VideoSetter.py:178-182 | appending to a last digit with room keeps the invariant |
| `Placement.StartDigitKeepsValid` | VideoSetter.py:176-185 | starting a new digit after a full one keeps the invariant |
| `Placement.SetSegmentKeepsValid` | VideoSetter.py:175-185 | `setSegment` keeps the invariant: digits hold 1..7 segments, all but the last are full, and the digits hold exactly the history in order |
| `Placement.ShrinkLastKeepsValid` | VideoSetter.py:187-192 | dropping the last segment of a last digit holding several keeps the invariant |
| `Placement.DropLastKeepsValid` | VideoSetter.py:193-194 | dropping a last digit that became empty keeps the invariant |
| `Placement.RemoveLastKeepsValid` | VideoSetter.py:187-195 | `removeLast` keeps the invariant |
| `Placement.UndoAppendToLast` | VideoSetter.py:175-195 | undo after a placement into the last digit restores the layout |
| `Placement.UndoStartDigit` | VideoSetter.py:175-195 | undo after a placement that created a digit restores the layout, dropping that digit |
| `Placement.RemoveLastUndoesSetSegment` | VideoSetter.py:175-195 | `removeLast` right after `setSegment(pos)` restores the digits and the history exactly |
| `Placement.HistoryHasDigits` | VideoSetter.py:175-195 | a valid layout has digits exactly when it has placed segments |
| `Placement.RemoveLastOnEmptyHistory` | VideoSetter.py:187-188 | with nothing placed there are no digits, and `removeLast` changes nothing |
| `Placement.CountFlatten` | VideoSetter.py:238-239 | the digits hold as many segments as their concatenation |
| `Placement.FullDigitsFlatten` | VideoSetter.py:250-251 | k full digits hold exactly 7k segments |
| `Placement.DigitCountIsCeiling` | VideoSetter.py:250-254 | in a valid layout the segment count equals the history length, there are ceil(n / 7) digits, and the last holds the remainder |
| `Placement.PlaceAll` | VideoSetter.py:170-172 | the reference definition of a run of placement clicks, one `setSegment` each, in order |
| `Placement.PlaceAllRecords` | VideoSetter.py:175-185 | a run of placements appends the clicked positions, in order, to the history |
| `Placement.PlaceAllKeepsValid` | VideoSetter.py:175-185 | any run of placements keeps the invariant |
| `Placement.UndoTimes` | VideoSetter.py:187-195 | j undos, while there are at least j placements, forget exactly the last j of them |
| `Placement.UndoTimesKeepsValid` | VideoSetter.py:187-195 | any number of undos keeps the invariant |
| `Placement.WholeDigits` | VideoSetter.py:175-185 | a valid layout with 7k segments has exactly k digits, all full |
| `Placement.WholeDigitsFromPlacements` | VideoSetter.py:175-185 | 7k placements from scratch give exactly k digits, all full; so 14 give two |
| `Placement.DigitsHoldHistory` | VideoSetter.py:175-185 | in well-sized digits, segment i of digit d sits at entry 7d + i of their concatenation |
| `Placement.WholeDigitsHoldPrefix` | VideoSetter.py:175-195 | a valid layout whose history is the first 7k entries of another is k full digits holding those entries' positions in order |
| `Placement.UndoToWholeDigits` | VideoSetter.py:187-195 | undoing 7j of 7(k + j) recorded placements on a valid layout leaves k full digits holding the first 7k positions in order |
| `Placement.PlacementsThenUndo` | VideoSetter.py:175-195 | 7(k + j) placements from scratch, then 7j undos, leave k full digits holding the first 7k clicked positions in order; so 14 placements and 7 undos leave one digit, and 14 undos none |
| `Setter.VideoSetter.constructor` | VideoSetter.py:8-30 | a new setter: no crops, no corners, quadrant 0, scale 1, no digits, empty history, invariant holds |
| `Setter.VideoSetter.Valid` | VideoSetter.py:116-133 | the object invariant: the quadrant is one `convertCords` knows, and the digits and history satisfy `Placement.Valid` |
| `Setter.VideoSetter.ShowFrame` | VideoSetter.py:105-114 | the cutting loop and `_scale` as written: `scaleF` becomes `Scaling.ShownScale` of the crops, or is kept when `_scale` raised before assigning it; the outcome is `Scaling.ShowOutcome`, so an empty cut raises; no other field changes |
| `Setter.VideoSetter.ConvertCords` | VideoSetter.py:116-135 | the loop over the crops computes exactly `Geometry.ConvertCords` of the current fields |
| `Setter.VideoSetter.ShowedCords` | VideoSetter.py:137-158 | the loop over the crops computes exactly `Geometry.ShowedCords` of the current fields |
| `Setter.VideoSetter.Place` | VideoSetter.py:236-239 | updates the digits and history as `Placement.Place`; no other field changes |
| `Setter.VideoSetter.SetSegment` | VideoSetter.py:175-185 | the search loop and its appends leave the digits and history as `Placement.SetSegment`; no other field changes |
| `Setter.VideoSetter.Detach` | VideoSetter.py:191-194 | the three `remove` calls update the digits and history as `Placement.Detach` |
| `Setter.VideoSetter.DetachLast` | VideoSetter.py:187-194 | the removals by identity leave the digits and history as `Placement.RemoveLast` of the old ones: the most recent placement is forgotten |
| `Setter.VideoSetter.RemoveLast` | VideoSetter.py:187-195 | `removeLast` then `showFrame`: the layout as `Placement.RemoveLast`, the invariant kept, and `scaleF` and the outcome as `showFrame` leaves them |
| `Setter.VideoSetter.Start` | VideoSetter.py:32-36 | `set` shows the frame, storing the scale as `showFrame` does, then enters cropping, or stays idle when showing raised |
| `Setter.VideoSetter.OnClick` | VideoSetter.py:160-173 | the click is converted first and an IndexError changes nothing; while cropping the corners and crops follow `Stages.CropEvent`; a press while placing runs `setSegment`; a release while cropping and a press while placing redraw as `showFrame`, and every other event outside cropping leaves the crops, corners, digits and history unchanged; the invariant is kept |
| `Setter.VideoSetter.HandleKey` | VideoSetter.py:57-103 | one loop pass: show the frame, so that the outcome is an error exactly when `showFrame` raises and `scaleF` is what it stores; then act on `Stages.OnKey`, advancing the stage, turning the view or undoing; everything else is unchanged and the invariant is kept |

## Left out

- OpenCV I/O is not modelled. That covers opening and reading the video, `fps`, `imshow`, `waitKey`, `setMouseCallback`, `setWindowTitle` and `destroyWindow`. Keys and mouse events are parameters of `HandleKey` and `OnClick`, and the first frame's size is a constructor parameter.
- Pixels are not modelled. The model keeps only frame sizes: the size `showFrame` cuts the first frame to and the `scaleF` that `_scale` derives from it. It leaves out `cv2.resize`'s output, `_rotate` (`np.rot90`), and the fields `frame`, `source_img`, `sizeX`, `sizeY` and `ratio`.
- Drawing is not modelled: `_drawSegments`, `Digit.draw`, `Segment.draw` and `Segment.getColor`. It is rendering and pixel reads. A point drawn outside the frame can make `getColor` raise IndexError, and that is not modelled either.
- Scaling.ShowOutcome: when segments are placed and the cut frame is empty, `getColor` raises IndexError during drawing, before `cv2.imshow` would; the model reports EmptyFrame for every empty cut.
- Scaling.ScaleFactorAsWritten: the frame is resized to `round(900 / ratio)` x 900, with `ratio` taken once from the first frame and never refreshed. After a crop that changes the aspect ratio, the horizontal display scale therefore differs from `scaleF`, yet `convertCords` and `showedCords` apply `scaleF` to both axes. The model keeps only `scaleF`, so that horizontal mismatch is lost.
- Scaling.ScaleFactorAsWritten: does not raise when the resize target `round(900 / ratio)` is 0 px wide, which happens for a first frame at least 1800 times as tall as it is wide; `ratio` comes from the first frame and is not modelled.
- `Segment.scan` and `Digit.scan` are left out. They are stubs with no effect.
- `export` and `VideoData` are left out, because the constructor call is missing an argument.
- `quit()` ends the program, so it is returned as `Abort` with nothing changed. `print(key)` is returned as `Stay`.
- `scaleF` is an exact fraction. The float rounding of `900 / sizeY`, and of the quotient `round` then rounds, is not modelled.
- Video.py, _main.py, App.py and Graph.py are not part of this model. The digit decoding, naming, fixing and scanning stages are not in the modelled source.
- Placement.RemoveFirst: requires the element to be present, where Python's `list.remove` would raise ValueError. `removeLast` only removes the last segment of a valid layout, and `Placement.LastSegmentOwner` proves that segment is always present.
- Placement.RemoveLastIsDetach: requires the bookkeeping invariant. Layouts that break it cannot be reached through `setSegment` and `removeLast`, and on them the removal by identity is not modelled.
- Setter.VideoSetter.constructor: does not raise for a first frame with no columns. `__init__` would raise computing `ratio`, which is not modelled.
- Setter.VideoSetter.Start: requires the idle stage. `set` never returns except through `quit()`, so it is never entered twice.
- Setter.VideoSetter.HandleKey: does not model the exception `removeLast`'s own `showFrame` could raise. It cannot raise, because the same crops were just shown successfully by the same pass.

## Findings

| source | as written | input that shows it | evidently intended | confidence | as-written member | corrected member |
|---|---|---|---|---|---|---|
| VideoSetter.py:44-46 | when either side exceeds 900 px the scale is `900 / sizeY`, the height alone | an uncropped 1000 x 200 first frame: scale 9/2, resized by line 45 to 4500 x 900, and a click at (2, 0) is converted to (0, 0) and drawn there, two pixels off; an uncropped 1920 x 1080 video is stored at 900 / 1080 instead of 900 / 1920 | scale by 900 over the larger side at line 46 and resize to that same scale at line 45, so the frame shrinks to fit 900 px and is never enlarged | not executed; medium | `Scaling.AsWrittenEnlargesWideFrame` | `Scaling.ScaleFactor` |

`Scaling.ScaleFactorAsWritten` models the rule as written, and
`Scaling.ScaleFactorDiffersOnWideFrames` shows that it differs on every wide
frame. `Scaling.LandscapeHdScale` shows the difference on an ordinary
1920 x 1080 video. `Scaling.ShownScale` and the `VideoSetter` class follow the
code as written, so that the class stores the scale the program stores. The
corrected rule is `Scaling.ScaleFactor`, with `Scaling.ScaleFor` as the
corrected `_scale`. With it, `Scaling.ScaledRoundTripWithinOne` proves that a
converted click is drawn back within one pixel on every frame.

The fix has to change line 45's resize target together with line 46's
scale. For an uncropped video, `900 / sizeY` is exactly the scale of the
900 px high frame that line 45 produces. Applying `Scaling.ScaleFor` alone
to the code as written would convert a click at (100, 100) on the 1600 x 900
display of a 1920 x 1080 video to (213, 213), while the pixel shown there is
(120, 120).
