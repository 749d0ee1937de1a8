# Person-following tracker core, modelled in Dafny

This project models the per-frame logic of a ROS node that follows one person.
The node takes the person detector's rectangles for a camera frame and drops
every rectangle that another rectangle contains. It then picks the candidate
whose colour histogram best matches a remembered one, or takes the first
candidate when no reference is valid. From the chosen rectangle it derives a
yaw and a forward term. A small state machine forgets the reference after 5
consecutive frames without candidates.

Modules, leaf first:

- `Geometry` (`geometry.dfy`): `Rect` and OpenCV's rectangle intersection
  `&`. It proves that `&` is pixel-set intersection, and it characterises the
  containment test `(r & s) == r`.
- `CandidateFilter` (`candidate_filter.dfy`): the nested containment loop
  `Filter`, proved equal to the specification function `Filtered`. The lemmas
  show the output is an order-preserving subsequence of the input and say
  exactly which candidates are dropped.
- `Matching` (`matching.dfy`): the best-score loop `SelectBest`, proved
  against the predicate `IsFirstBest`. A lemma shows that predicate admits at
  most one index.
- `Motion` (`motion.dfy`): yaw and forward term as functions over `real`, with
  deadband, sign, scale and bound lemmas.
- `Tracking` (`tracking.dfy`): the class `Tracker`, which holds the node's four
  fields. `FindBestMatch` and `ProcessFrame` are stated against the
  transition functions `AfterMatch` and `AfterEmpty`. Lemmas cover the state
  invariant, repeated empty frames and the worked example.

The image is abstracted into three inputs: its width `cols`, a function
`hist` giving the normalised histogram of a region, and a function `compare`
standing for histogram intersection. The detector's output is the input list.

Behaviours of the code that the model keeps as they are:

- Identical rectangles. The containment test is not strict. Two identical
  non-empty rectangles at different indices therefore remove each other
  (`CandidateFilter.DuplicatesDropped`).
- Initial counter. The constructor sets the loss counter to `FRAMES_TO_FORGET`
  (5). The code declares a field `previousCountdown` and then updates an
  undeclared `previousCounter`; the model treats them as one counter. Because
  the counter starts at 5, `matrixValid` holds exactly while the counter is
  below 5, in every reachable state (`Tracking.Consistent`).
- Counter range. The counter is never clamped. It grows by one on every
  empty frame, without bound (`Tracking.EmptyFramesSpec`).
- Stale area. `prevArea` is never reset on a loss. A cold start after a loss
  therefore computes its forward term from the area of the last match before
  the loss (`Tracking.ForgetAfterMatch`). Only the initial -1.0 suppresses the
  forward term.
- No yaw clamp. The yaw is not clamped. It stays within `[-0.5, 0.5]` only
  while the rectangle's centre lies inside the frame (`Motion.YawBounded`).

## Model

| member | source | states |
|---|---|---|
| Geometry.IntersectInside | src/PersonTracking.cpp:159 | `r & s` is either the zero rectangle or a non-empty rectangle lying inside both operands |
| Geometry.IntersectPoints | src/PersonTracking.cpp:159 | a pixel lies in `a & b` exactly when it lies in both `a` and `b` |
| Geometry.ContainedInIff | src/PersonTracking.cpp:159 | `(r & s) == r` holds exactly when `r` is the zero rectangle or `r` is non-empty and within `s`'s bounds |
| Geometry.ContainedInPoints | src/PersonTracking.cpp:159 | for a non-empty `r`, `(r & s) == r` holds exactly when every pixel of `r` is a pixel of `s` |
| Geometry.ContainedInSelf | src/PersonTracking.cpp:158-160 | a rectangle passes the containment test against itself exactly when it is non-empty or zero; this is why the test at line 159 needs `j != i` |
| CandidateFilter.Filter | src/PersonTracking.cpp:154-163 | the nested loop with `break` and `push_back` produces exactly the candidates, in input order, that no other index contains |
| CandidateFilter.KeptIndicesSpec | src/PersonTracking.cpp:155-163 | the kept index sequence is strictly increasing and holds exactly the indices no other index contains |
| CandidateFilter.FilteredPrefixSelects | src/PersonTracking.cpp:155-163 | the filtered list is the detector list read at the kept indices |
| CandidateFilter.FilterSubsequence | src/PersonTracking.cpp:154-163 | the output is an order-preserving subsequence of the input; no output rectangle is contained in the rectangle at any other index; an index is kept iff no other index contains it |
| CandidateFilter.FilteredMember | src/PersonTracking.cpp:158-162 | every output rectangle occurs in the input at an index no other index contains |
| CandidateFilter.ContainedDropped | src/PersonTracking.cpp:158-162 | a rectangle contained in a different rectangle of the list occurs nowhere in the output |
| CandidateFilter.StrictlyInsideDropped | src/PersonTracking.cpp:158-162 | a non-empty rectangle lying within the bounds of a different rectangle is removed |
| CandidateFilter.DuplicatesDropped | src/PersonTracking.cpp:158-162 | a non-empty rectangle occurring at two indices is removed at both |
| Matching.SelectBest | src/PersonTracking.cpp:62-88 | the search returns an in-bounds index: the first index holding the maximum score when some score is above 0, and 0 otherwise |
| Matching.FirstBestUnique | src/PersonTracking.cpp:81-86 | at most one index satisfies the selection rule, so the rule fixes the result |
| Matching.LaterTieLoses | src/PersonTracking.cpp:81-86 | a later score equal to the selected one is never selected |
| Matching.TieKeepsFirst | src/PersonTracking.cpp:62-88 | the scores `[0.2, 0.9, 0.9]` select index 1 and not index 2 |
| Motion.Half | src/PersonTracking.cpp:182 | `width/2` truncates toward zero: the remainder lies in `[0, 1]` for non-negative widths and in `[-1, 0]` for negative ones |
| Motion.YawDeadband | src/PersonTracking.cpp:190-199 | the yaw is zero exactly when the centre's offset from `cols/2` lies in `[-25, 25]` |
| Motion.YawSignAndScale | src/PersonTracking.cpp:196-199 | outside the deadband, yaw times `cols/2` equals `0.5 * offset`, and the yaw has the sign of the offset |
| Motion.YawBounded | src/PersonTracking.cpp:190-199 | while the centre lies within the frame, the yaw lies in `[-0.5, 0.5]` |
| Motion.ForwardDeadband | src/PersonTracking.cpp:201-211 | the forward term is zero exactly when `prevArea <= 0` (including the initial -1.0) or the area change lies in `[-50, 50]` |
| Motion.ForwardSignAndScale | src/PersonTracking.cpp:203-211 | outside the deadband, forward times `prevArea` equals `0.75 * areaDifference`, and the term has the sign of the change |
| Motion.ForwardBoundedBelow | src/PersonTracking.cpp:203-211 | for a non-negative area, the forward term is at least -0.75 |
| Tracking.ConsistentInvariant | src/PersonTracking.cpp:218-231 | the initial state, a match and an empty frame all keep "reference valid iff counter below 5, counter non-negative" |
| Tracking.EmptyFramesSpec | src/PersonTracking.cpp:224-232 | k empty frames add exactly k to the counter and leave area and histogram unchanged; the reference survives only if it was valid and the counter stays below 5 |
| Tracking.ForgetAfterMatch | src/PersonTracking.cpp:218-231 | after a match, the reference stays valid through 4 empty frames and is invalid from the 5th on; the area of that match is still remembered |
| Tracking.WorkedExample | src/PersonTracking.cpp:178-218 | on a 640-column frame, a cold-start match on width 100, height 200 at x 280 gives command (0, 0) and remembers area 20000; the next match on width 120, height 210 gives yaw 0 and forward term 0.75 * 5200 / 20000 |
| Tracking.Tracker.constructor | src/PersonTracking.cpp:117-121 | the initial state: `prevArea` -1.0, counter 5, no valid reference |
| Tracking.Tracker.FindBestMatch | src/PersonTracking.cpp:52-102 | returns the candidate the selection rule picks; overwrites the histogram with the first candidate's histogram on a cold start only |
| Tracking.Tracker.ProcessFrame | src/PersonTracking.cpp:151-232 | for a non-empty filtered list, returns the command for the chosen candidate, computed with the old `prevArea`, and moves to `AfterMatch`; otherwise returns no command and moves to `AfterEmpty`; keeps the state invariant |

## Left out

- ROS plumbing is outside this model: the node handle, the image subscription and publishing, the `cv_bridge` conversion and its exception path, and `main`/`ros::spin`. These are framework I/O.
- The HOG person detector (`detectMultiScale`) is a foreign library. Its output list is an input to `ProcessFrame`.
- Histogram computation and comparison (`calcHist`, `normalize`, `compareHist`) are OpenCV floating-point internals. They enter as the parameters `hist` and `compare`. Nothing is assumed about the range of the scores.
- The shrunken display rectangles, `rectangle`, `imshow`, `waitKey` and the window setup and teardown are not modelled. `rectangle` (line 172) draws the shrunken boxes into `Img` itself, before `Img` reaches the matcher (line 180). The histograms at lines 75 and 94 are therefore computed over pixels that include those drawn boxes. This changes the scores, the chosen candidate and the histogram stored on a cold start. The model absorbs it into the unconstrained `hist` parameter, which stands for the histogram of a region of the image as drawn on.
- The `move_base` goal's timestamp, frame id and quaternion are not modelled. `ProcessFrame` returns the pair (`nextX`, yaw) as a `Command`. The goal is never sent, and the action client is unused.
- IEEE double arithmetic is not modelled: `prevArea`, yaw and the forward term are exact reals.
- Tracking.Tracker.ProcessFrame: assumes every filtered rectangle lies inside the image. The detector runs with padding `Size(32,32)` (line 152), so its rectangles can cross the frame edge. For such a rectangle, `Mat currentSubImage(img, foundRects[i])` (lines 71 and 92) raises an OpenCV error. The callback then aborts that frame: it emits no command and leaves all four fields unchanged. The model's `hist` is total, so it always produces a command and moves to `AfterMatch`.
- Tracking.Tracker.ProcessFrame: requires a positive frame width, because a zero width would make the code divide by zero.
- Tracking.Tracker.ProcessFrame: does not model 32-bit overflow of `width * height` or of `x + width/2`. These are exact integers, which is faithful for frame-sized rectangles.
- The missing semicolons at lines 192 and 201 do not affect the model, which follows the evident meaning of those lines.
- Tracking.Tracker.FindBestMatch: computes all scores before its loop instead of inside it. Histogram comparison has no side effects, so the chosen index is the same.
