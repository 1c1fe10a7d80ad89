# Keyframe engine of the 3D logo animator

This project is a Dafny model of the keyframe engine behind the browser-based
3D logo animator in `logo/script.js`, with proofs about it. The user places
keypoints on three per-axis tracks (rotation about X, Y and Z) on a timeline. The
engine keeps each track sorted by time and snaps times to a 0.2-second grid. It
samples the rotation at any time by eased interpolation between neighbouring
keypoints, plays the animation back frame by frame, and exports it as a list of
CSS keyframe steps.

The modules follow the parts of the script:

- `Easing` (`easing.dfy`): the preset easing table, the single-axis cubic
  Bezier, the two-pass custom curve, and `interpolate`. All of it is pure
  functions over exact reals.
- `Sorting` (`sorting.dfy`): the stable sort by a key that every
  `.sort((a, b) => a.time - b.time)` in the script performs. It is an
  insertion sort, proved sorted, a permutation, and the identity on sorted
  input.
- `Keypoints` (`keypoints.dfy`): the keypoint record and the three tracks.
  It also holds the grid snapping done by `Math.round`, the filter and
  `findIndex` by id, and the store invariant: sorted tracks, grid times,
  handles in the unit square, and ids that are unique and below the id counter.
- `Sampling` (`sampling.dfy`): `getRotationAtTime`. It is a specification
  function plus the method with the script's loop, proved equal to it.
- `Duration` (`duration.dfy`): the maximum loops of `updateTimelineDuration`
  and `getLastKeyframeTime`.
- `Playback` (`playback.dfy`): the play guard and one step of the frame
  loop, with the elapsed time as a parameter.
- `Export` (`export.dfy`): the step list of `generateCSSAnimation`. It
  collects the distinct times, sorts them, and emits one step with a
  percentage and a sampled rotation per time.
- `Editor` (`editor.dfy`): the global state (`keypoints`,
  `keypointIdCounter`, `timelineDuration`, `selectedKeypoint`,
  `controlPoints`) as a class. Each event handler that changes it is a
  method, and every method keeps the editor invariant.

Every keypoint id `kp-n` is modelled by its number `n`.

### Two behaviours of the code worth knowing

- **A custom curve with the linear preset's handles is not linear.** With
  handles (0,0) and (1,1), the two-pass custom curve composes two smoothstep
  curves: at t = 0.25 it gives about 0.066, not 0.25
  (`Easing.LinearHandlesAreNotLinear`).
- **`addKeypoint` only rounds.** It has no clamp below 0.1 s, unlike the drag.
  For the non-negative pointer times the timeline produces, the two snaps agree
  (`Keypoints.DragSnapAgreesOnNonNegative`).

## Model

| member | source | states |
|---|---|---|
| Easing.EaseNamed | logo/script.js:49-57 | each preset fixes 0 and 1; a name outside the table falls back to linear |
| Easing.EaseNamedInUnit | logo/script.js:49-57 | every preset, and the fallback, maps [0,1] into [0,1] |
| Easing.CubicBezier | logo/script.js:817-825 | the cubic starts at its first control value and ends at its last |
| Easing.BernsteinWeights | logo/script.js:817-825 | the four Bernstein weights of the cubic are non-negative on [0,1] and sum to 1 |
| Easing.CubicBezierInHull | logo/script.js:817-825 | on [0,1] the cubic stays inside any interval holding its four control values |
| Easing.CustomEaseEndpoints | logo/script.js:76-81 | whatever the handles, the two-pass custom curve maps 0 to 0 and 1 to 1 |
| Easing.CustomEaseInUnit | logo/script.js:76-81 | with handles in the unit square, the custom curve maps [0,1] into [0,1] |
| Easing.EasedEndpoints | logo/script.js:74-87 | every easing, preset or custom, fixes 0 and 1 |
| Easing.EasedInUnit | logo/script.js:74-87 | an easing with handles in the unit square maps [0,1] into [0,1] |
| Easing.InterpolateEndpoints | logo/script.js:74-87 | interpolate(a, b, 0, e) is a and interpolate(a, b, 1, e) is b, for every easing |
| Easing.InterpolateBetween | logo/script.js:74-87 | for t in [0,1] and a well-formed easing, the result lies between a and b, whichever is larger |
| Easing.LinearHandlesAreNotLinear | logo/script.js:76-81 | the custom curve with handles (0,0),(1,1) is below 0.1 at t = 0.25 and exactly 0.5 at t = 0.5 |
| Easing.PresetControlPoints | logo/script.js:757-775 | the handles shown for each preset lie in the unit square; any other name gets (0.25,0.25),(0.75,0.75) |
| Easing.Clamp01 | logo/script.js:858-859 | the clamp lands in [0,1], keeps values already there, and sends values below 0 to 0 and above 1 to 1 |
| Sorting.InsertBy | logo/script.js:244 | one insertion step of the sort adds exactly one element |
| Sorting.InsertByMultiset | logo/script.js:244 | an insertion step adds the element and loses none |
| Sorting.InsertionIndex | logo/script.js:244 | the insertion point lies within the sequence |
| Sorting.SortBy | logo/script.js:244 | the sort returns a permutation of its input, ordered by key |
| Sorting.InsertBySorted | logo/script.js:244 | inserting into a sorted sequence keeps it sorted |
| Sorting.InsertByShape | logo/script.js:244 | an insertion places the element at its insertion point and keeps the others in order around it |
| Sorting.InsertBySplit | logo/script.js:244 | on a sorted sequence, everything before the insertion point has key at most the element's, and everything after has a larger key |
| Sorting.InsertByAfterAll | logo/script.js:244 | an element whose key is at least every other key goes at the end |
| Sorting.SortBySortedIsIdentity | logo/script.js:99 | sorting an already sorted sequence changes nothing |
| Sorting.SortByAppend | logo/script.js:243-244 | pushing onto a sorted track and re-sorting is a single insertion |
| Sorting.InsertByNoDuplicates | logo/script.js:1033 | inserting an absent element keeps the elements distinct |
| Sorting.SortByNoDuplicates | logo/script.js:1033 | sorting keeps distinct elements distinct |
| Sorting.InsertByStable | logo/script.js:244 | inserting into a sorted sequence puts the element after every element with its key, and keeps the order of the elements with each key |
| Sorting.SortByStable | logo/script.js:244 | the sort is stable: for every key, the elements with that key come out in the order they went in |
| Sorting.ProjectInsertBy | logo/script.js:244 | an insertion adds exactly the inserted element's projection to the projected bag |
| Sorting.ProjectSortBy | logo/script.js:672 | re-sorting a track keeps the bag of any projection of it, for example the ids |
| Keypoints.SortByTime | logo/script.js:244 | a track after re-sorting is ordered by time and holds the same keypoints |
| Keypoints.Tracks.With | logo/script.js:243-244 | replacing one axis's track sets that track and leaves the other two as they were |
| Keypoints.SnapToGrid | logo/script.js:227-228 | addKeypoint's time is on the 0.2 s grid, within 0.1 s of the pointer, non-negative for a non-negative pointer, and unchanged when already on the grid |
| Keypoints.DragSnap | logo/script.js:654-660 | the drag's time is on the grid and non-negative; below 0.1 it is 0, otherwise within 0.1 of the pointer and at least 0.2 |
| Keypoints.DragSnapIdempotent | logo/script.js:654-660 | snapping a snapped time again changes nothing |
| Keypoints.DragSnapAgreesOnNonNegative | logo/script.js:227-228 | for non-negative times the drag's clamp below 0.1 gives the same result as plain rounding |
| Keypoints.QuantizationExamples | logo/script.js:228 | 0.07 snaps to 0 and 0.31 snaps to 0.4, in both snapping functions |
| Keypoints.RemoveId | logo/script.js:358 | the filter never lengthens a track |
| Keypoints.RemoveIdMembers | logo/script.js:358 | a keypoint survives the filter exactly when it was there and its id differs |
| Keypoints.FindIndex | logo/script.js:669 | findIndex gives the first index holding the id, or none when no keypoint has it |
| Keypoints.IdBagWith | logo/script.js:243 | replacing one track swaps that track's ids in the store's bag |
| Keypoints.TrackIdsMembership | logo/script.js:717 | an id is in a track's bag exactly when some keypoint of the track has it |
| Keypoints.TrackIdsUnique | logo/script.js:669 | on a track whose bag counts each id at most once, no two positions share an id |
| Keypoints.TrackIdsRemoveId | logo/script.js:358 | the filter removes every copy of the id from the bag and keeps the rest |
| Keypoints.TrackIdsUpdate | logo/script.js:671 | overwriting a keypoint with one of the same id keeps the bag |
| Keypoints.IdsFreshAdd | logo/script.js:235 | the counter is not yet an id, and taking it as one keeps ids unique and below the next counter |
| Keypoints.IdsFreshShrink | logo/script.js:358 | removing ids keeps the rest unique and below the counter |
| Keypoints.RemoveIdAbsent | logo/script.js:358 | filtering out an absent id leaves the track unchanged |
| Keypoints.RemoveIdSorted | logo/script.js:358 | filtering keeps a track sorted |
| Keypoints.RemoveIdFound | logo/script.js:358 | on a track with distinct ids, the filter removes exactly the keypoint at the found index |
| Keypoints.AddToTrackPlacement | logo/script.js:243-244 | a new keypoint lands after every keypoint at an equal or earlier time and before every later one; nothing else moves |
| Keypoints.ReplaceTrackSameIds | logo/script.js:671-672 | swapping a track for a valid one with the same ids keeps the store invariant and the id bag |
| Keypoints.AddTrackValid | logo/script.js:234-244 | adding a valid keypoint keeps a track valid and adds its id |
| Keypoints.AddPreservesStore | logo/script.js:224-244 | addKeypoint keeps the store invariant, adds exactly the counter's value as an id, and moves the counter on |
| Keypoints.RemoveTrackValid | logo/script.js:358 | deleting keeps a track valid and removes the id from its bag |
| Keypoints.DeletePreservesStore | logo/script.js:357-358 | deleteKeypoint keeps the store invariant, the id is gone, and every other id's count is unchanged |
| Keypoints.RetimeTrackValid | logo/script.js:669-672 | retiming one keypoint to a grid time and re-sorting keeps the track valid with the same ids |
| Keypoints.RetimePreservesStore | logo/script.js:669-672 | a keypoint drag keeps the store invariant and the id bag |
| Keypoints.RetimePlacement | logo/script.js:671-672 | after a drag to time t, the moved keypoint comes after the keypoints at t that preceded it on the track and before those that followed it |
| Keypoints.RetimeKeepsOtherTimes | logo/script.js:671-672 | a drag keeps the order of the keypoints at every other time |
| Keypoints.EasingEditTrackValid | logo/script.js:725-726 | editing one keypoint's easing fields keeps the track valid with the same ids |
| Keypoints.EasingEditPreservesStore | logo/script.js:865-869 | editing one keypoint's easing fields with handles in the unit square keeps the store invariant and the id bag |
| Keypoints.StoreIdsUnique | logo/script.js:235 | under the store invariant no two keypoints of a track share an id |
| Sampling.SegmentEasingOf | logo/script.js:117-121 | a segment uses its arriving keypoint's custom curve when it has one, otherwise its preset name with "" read as linear; a valid keypoint gives a well-formed easing |
| Sampling.FindSegment | logo/script.js:111-114 | the scan returns the first segment containing the time, or none when no segment does |
| Sampling.SegmentStartsBefore | logo/script.js:101-115 | after the first-keypoint test fails, the found segment starts strictly before the time, so the division at line 115 is defined |
| Sampling.SegmentFound | logo/script.js:106-114 | strictly before the last keypoint's time, the scan always finds a segment |
| Sampling.Fraction | logo/script.js:115 | within a segment the local fraction lies in (0,1], and is 1 at the segment's end |
| Sampling.SampleAxis | logo/script.js:93-126 | the loop for one axis computes exactly the specification's sample of the sorted copy |
| Sampling.ScanSegments | logo/script.js:111-126 | the segment loop returns the interpolation over the first containing segment |
| Sampling.GetRotationAtTime | logo/script.js:90-130 | the three axes are sampled independently, each by the specification |
| Sampling.SampleEmpty | logo/script.js:94-96 | an axis without keypoints gives 0 at every time |
| Sampling.SampleBeforeFirst | logo/script.js:101-104 | at or before the first keypoint of a sorted track, its value holds |
| Sampling.SampleAfterLast | logo/script.js:101-109 | at or after the last keypoint the last value holds, unless every keypoint shares that time, where the first-keypoint test wins |
| Sampling.SampleInterior | logo/script.js:111-124 | strictly inside a track, the sample is the eased interpolation over the containing segment at a fraction in (0,1], and lies between the segment's two values |
| Sampling.SampleHitsKeypoint | logo/script.js:111-124 | sampling a sorted track at an interior keypoint that is the first at its time gives that keypoint's value |
| Sampling.LinearScenario | logo/script.js:90-130 | linear keypoints (0 s, 0), (1 s, 45), (2 s, 90) sample to 22.5 at 0.5 s and to 67.5 at 1.5 s |
| Duration.MaxKeypointTime | logo/script.js:387-394 | the loop over x, y, z computes the fold of the maximum |
| Duration.GetLastKeyframeTime | logo/script.js:596-606 | getLastKeyframeTime is the fold started from 0 |
| Duration.LatestTimeIsMax | logo/script.js:596-606 | the fold is at least its start and every time, and equals its start or one of the times |
| Duration.UpdatedDurationIsMax | logo/script.js:386-399 | the new duration is at least the old one and at least 2 s, covers every keypoint, and equals the old duration, 2 s or some keypoint's time |
| Duration.LastKeyframeTimeIsMax | logo/script.js:596-606 | the export duration is non-negative, covers every keypoint, is 0 with no keypoints, and is otherwise 0 or some keypoint's time |
| Duration.MarkersOnTimeline | logo/script.js:280 | with times in [0, duration], every marker sits between 0 % and 100 % |
| Playback.KeypointCount | logo/script.js:489 | the total is the number of keypoints on the three tracks together |
| Playback.CanPlay | logo/script.js:489-493 | play starts exactly when there are at least two keypoints: two on one axis, or one on each of two axes |
| Playback.AxisSettles | logo/script.js:515-517 | sampled at or after all of its keypoints, an axis not all at that time holds its last value |
| Playback.AxisStarts | logo/script.js:101-104 | sampled at or before all of its keypoints, an axis holds its first value |
| Playback.PlaybackEnd | logo/script.js:515-523 | at or beyond the last keyframe time the frame is the finished one at the duration; empty axes show 0 and other axes their latest value |
| Playback.PlaybackStart | logo/script.js:512-542 | at elapsed 0 the frame is running with the pointer at 0, and each non-empty axis shows its earliest keypoint's value |
| Playback.ZeroLengthPlayback | logo/script.js:489-515 | two keypoints at 0 s may start play, but the duration is 0 and the first frame is already the finished one |
| Export.PercentAsWritten | logo/script.js:1036 | the percentage is the finite time/duration*100 for a non-zero duration, and not a finite number when the duration is 0 |
| Export.CollectTimes | logo/script.js:1027-1032 | the set-building loop yields the distinct keypoint times in first-seen order |
| Export.BuildSteps | logo/script.js:1035-1042 | the emission loop makes one step per time, carrying its percentage and its sampled rotation |
| Export.GenerateAnimation | logo/script.js:1016-1042 | the export method's duration and steps are exactly the specification's |
| Export.DedupProperties | logo/script.js:1027-1032 | the set holds each time once, and exactly the times added |
| Export.TimesMembers | logo/script.js:1029-1030 | a value is among the collected times exactly when some keypoint has it |
| Export.ExportTimesAscending | logo/script.js:1033 | the export times are strictly ascending |
| Export.ExportTimesMembers | logo/script.js:1027-1033 | the export times are exactly the keypoint times |
| Export.ExportTimesProperties | logo/script.js:1027-1033 | the export times are strictly ascending and are exactly the keypoint times |
| Export.ExportSteps | logo/script.js:1016-1042 | one step per export time, in ascending order, each with that time's percentage and rotation; the duration is the last keyframe time |
| Export.ExportTimesBounded | logo/script.js:1017-1033 | with non-negative times, every export time lies in [0, duration], and a positive duration is the last export time |
| Export.ExportPercentsInRange | logo/script.js:1035-1036 | with non-negative times every percentage is in [0,100], and with a positive duration the last step is at exactly 100 % |
| Export.PercentInRange | logo/script.js:1036 | a time in [0, duration] is at a percentage in [0,100], and the duration itself is at 100 % |
| Export.AllAtZeroExportsNaN | logo/script.js:1036 | a single keypoint at 0 s: duration 0, one export time, a NaN percentage as written, and a 0 % step once corrected |
| Export.TwoKeypointScenario | logo/script.js:1016-1042 | keypoints (0 s, 0) and (2 s, 90) on X export as exactly two steps, 0 % and 100 %, over 2 s |
| Export.TwoStepAnimation | logo/script.js:1035-1042 | two export times 0 and 2 with duration 2 give the steps 0 % and 100 % with the rotations sampled there |
| Export.TwoKeypointTimes | logo/script.js:1027-1033 | in that scenario the export times are 0 and 2 |
| Export.TwoKeypointDuration | logo/script.js:596-606 | in that scenario the duration is 2 |
| Export.TwoKeypointRotations | logo/script.js:90-130 | in that scenario X is 0 at 0 s and 90 at 2 s, and the other axes are 0 |
| Editor.EditorPoints | logo/script.js:757-783 | the editor shows a keypoint's custom curve when it has one, otherwise its preset's handles, always inside the unit square for a valid keypoint |
| Editor.SelectedKeypoint | logo/script.js:716-718 | a found keypoint is on the selected axis with the selected id; none is found only when no keypoint there has the id |
| Editor.MoveHandle | logo/script.js:855-861 | a handle drag moves only the dragged handle, to the clamped point, and keeps both handles in the unit square |
| Editor.DragTarget | logo/script.js:647-660 | the dragged time is on the grid, non-negative, and at most 0.1 s past the duration; it is within 0.1 s of a pointer inside the timeline, and 0 below 0.1 |
| Editor.RetimeToOwnTime | logo/script.js:647-672 | dragging a keypoint of a valid track to its own time within the timeline leaves the track exactly as it was |
| Editor.FindIndexSameIds | logo/script.js:669 | two tracks with the same ids at each position give the same findIndex |
| Editor.RefreshedShows | logo/script.js:697-713 | after re-rendering, the handles lie in the unit square and show the selected keypoint; when they already did, nothing changes |
| Editor.EditEasingPreserves | logo/script.js:721-732 | editing the selected keypoint's easing keeps the store invariant and the ids; the selection then finds the edited keypoint, and with nothing found nothing changes |
| Editor.EditEasingKeepsTimes | logo/script.js:725-726 | an easing edit moves no keypoint in time |
| Editor.CustomEditShows | logo/script.js:865-871 | once a handle drag stores the handles on the selected keypoint, the editor shows it |
| Editor.PresetEditShows | logo/script.js:724-728 | once a preset is stored on the selected keypoint, the preset's handles show it |
| Editor.DeleteKeepsOtherSelection | logo/script.js:357-365 | deleting an id the selection does not name leaves the selected keypoint as it was |
| Editor.SameIdSameKeypoint | logo/script.js:716-718 | under the store invariant an id names at most one keypoint on a track |
| Editor.InitialInvariant | logo/script.js:29-46 | the state on page load (with `selectedKeypoint` from line 687 and `controlPoints` from line 734) satisfies the editor invariant |
| Editor.UpdatedDurationCovers | logo/script.js:386-399 | the duration update restores the timeline part of the invariant |
| Editor.AddKeepsInvariant | logo/script.js:224-247 | addKeypoint keeps the editor invariant |
| Editor.DeleteKeepsInvariant | logo/script.js:357-365 | deleteKeypoint keeps the editor invariant, clearing a selection that named the id |
| Editor.RetimeKeepsInvariant | logo/script.js:669-675 | a keypoint drag keeps the editor invariant |
| Editor.SelectKeepsInvariant | logo/script.js:689-695 | selecting any axis and id keeps the editor invariant once the handles are re-read |
| Editor.PresetKeepsInvariant | logo/script.js:721-732 | a preset change keeps the editor invariant, and re-rendering leaves the preset's handles in place |
| Editor.HandleDragKeepsInvariant | logo/script.js:848-875 | a handle drag keeps the editor invariant, and re-rendering leaves the moved handles in place |
| Editor.KeyframeEditor.constructor | logo/script.js:29-46 | page load: no keypoints, counter 0, a 10 s timeline, nothing selected (line 687), the default handles (line 734); the invariant holds |
| Editor.KeyframeEditor.RenderSelection | logo/script.js:697-713 | re-rendering re-reads the handles from the selected keypoint and changes nothing else |
| Editor.KeyframeEditor.UpdateTimelineDuration | logo/script.js:386-399 | the duration becomes the maximum of itself, every keypoint time and 2 s; nothing else changes |
| Editor.KeyframeEditor.AddKeypoint | logo/script.js:224-247 | the new linear keypoint takes the counter as id and the snapped time, and the track is re-sorted; the counter moves on, the duration is updated, and the invariant holds |
| Editor.KeyframeEditor.DeleteKeypoint | logo/script.js:357-365 | the id is filtered out of the track, the duration is updated, and a selection naming the id is cleared; the invariant holds |
| Editor.KeyframeEditor.DragKeypoint | logo/script.js:644-676 | a found keypoint takes the clamped and snapped time, and the track is re-sorted and the duration updated; an unknown id changes nothing; the invariant holds |
| Editor.KeyframeEditor.SelectKeypoint | logo/script.js:689-695 | the selection is set and the handles are re-read from it; the invariant holds |
| Editor.KeyframeEditor.SetEasingPreset | logo/script.js:721-732 | the found selected keypoint takes the preset name and loses its curve, and the editor shows the preset's handles; otherwise nothing changes; the invariant holds |
| Editor.KeyframeEditor.DragControlPoint | logo/script.js:848-875 | the dragged handle moves to the clamped point, and the found selected keypoint takes both handles as a "custom" curve; the invariant holds |

## Left out

- The DOM and all rendering are not modelled: markers, segment lines and their
  dash styles, labels, the canvas drawing of the curve, titles, and the showing
  and hiding of the curve editor. Re-rendering is kept only for its one effect
  on the state: it re-reads the handles from the selected keypoint.
- Pixel geometry is not modelled. Times reach the model already converted from
  pixels, as parameters. Hit-testing of the curve editor's handles (the
  10-pixel test at lines 839-845) is replaced by the handle index, passed as a
  parameter.
- The rotation sliders and number fields are not modelled: their input handlers
  (lines 148-222), `updateControls` and `updateTransform`. So are the pointer
  moves that only re-sample them (lines 427-481 and 609-626), and the slider
  resets to 0 that `updateTimelineDuration` and `stopAnimation` perform. The
  rotation `addKeypoint` reads is a parameter, so `parseInt` of the slider
  value is not modelled.
- The frame loop is modelled one step at a time (`Playback.FrameAt`). Left out:
  `requestAnimationFrame`, the clock (elapsed time is a parameter), the
  `isAnimating` flag and its cancellation.
- After playback the pointer's position is written as `calc(..%)` (line 592).
  `addKeypoint` then reads it back with `parseFloat`, which gives NaN.
  `Editor.KeyframeEditor.AddKeypoint` takes the pointer time as a number and
  requires it to be non-negative, which `movePointer` guarantees by clamping
  (line 462). The NaN path is not modelled.
- IEEE floating point is not modelled. The model computes over exact reals: a
  grid time is an exact multiple of 0.2, and `toFixed(1)` (lines 236 and 671)
  is the identity on it.
- Easing names that hit a property inherited by JavaScript objects (such as
  `toString`) are not modelled. Every name outside the preset table falls back
  to linear.
- The CSS text around the steps, and the download as a file (lines 883-1013
  and 1044-1053), are not modelled. The model covers the steps and the
  duration that the text is built from.
- Export.ExportAnimation: its steps, and those of `Export.BuildSteps` and
  `Export.GenerateAnimation`, carry the corrected percentage, which is 0 % when
  the duration is 0. Line 1036 gives NaN % there (see Findings). The as-written
  percentage is `Export.PercentAsWritten`.
- `Editor.KeyframeEditor.SelectKeypoint` accepts any axis and id. A marker
  click only ever passes one that exists.

## Findings

| source | as written | input that shows it | evidently intended | confidence | as-written member | corrected member |
|---|---|---|---|---|---|---|
| logo/script.js:1036 | the step percentage is `(time / animationDuration) * 100` even when `getLastKeyframeTime()` is 0 | a single keypoint at 0 s on X (value 10): the one export time is 0 and the duration is 0, so the step's percentage is 0/0, NaN | a single step at 0 % carrying the sampled rotation (10, 0, 0) | high; not executed | Export.AllAtZeroExportsNaN | Export.ExportPercentsInRange |
