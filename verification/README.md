# Pinch-click debouncer

A Dafny model of the gesture logic of a p5.js hand-pose sketch. Once per
frame the sketch reads the latest hand predictions. A thumb tip and index tip
closer than a depth-dependent threshold "engage" a pinch. Opening them again
"releases" it. A release with the thumb strictly inside a button rectangle
schedules a 200 ms browser timeout. When that timeout fires, its callback
toggles the display between colour and grayscale. Pinching again, or losing
all tracking, cancels the timeout before it fires.

Modules:

- `Geometry` (geometry.dfy): fingertip points, the button rectangle, p5's
  `map` (`Remap`), the depth threshold and the square-root-free pinch test.
- `Debounce` (debounce.dfy): the sketch's globals as an immutable `State`,
  the per-hand step, the frame (the loop, or the reset on tracking loss),
  the timeout firing, and the safety invariant `Inv`.
- `Trace` (trace.dfy): sessions as sequences of events (a frame, a wait, a
  timeout firing) and the lemmas that hold over any session.
- `Scenarios` (scenarios.dfy): worked sessions on a button spanning
  (100, 100) to (300, 300).
- `Wrappers` (wrappers.dfy): `Option`.

The model keeps browser timeouts explicit. `live` is the set of timeouts the
browser still holds. `pinchTimeout` is the sketch's single handle variable.
The sketch overwrites it without clearing it first (sketch.js:116), and it
keeps a stale handle after its timeout has fired. `clearTimeout` on a stale
handle does nothing. So the model can express an orphaned timeout: one that
is live but that no variable names. `Inv` says this never happens. Every live
timeout is the one the handle names, and a timeout is pending only while no
pinch is engaged. `Inv` also asks that every live timeout carry a handle
the browser has already issued, so a new timeout is always fresh. `Inv`
holds initially and every step keeps it. So the overwrite at line 116
always happens with nothing pending, and at most one timeout is ever
pending. `Debounce.OverwriteOrphansWithoutInv` shows that
the overwrite would orphan a timeout in a state that breaks `Inv`.

Facts about sketch.js that the model keeps:

- The threshold is p5's unclamped `map(z, 20, -50, 20, 50)`, which
  satisfies 7·t = 200 − 3·z. At depth 0 the threshold is 200/7 ≈ 28.6; at
  depth −10 it is 230/7 ≈ 32.9 (sketch.js:92).
- The engaged flag is one global shared by all hands (sketch.js:10).
  `Trace.SharedFlagCrossTalk` shows a consequence: a pinching hand followed,
  in array order, by an open hand with its thumb in the button reads as a
  release.
- A prediction without fingertip landmarks makes the code throw
  (sketch.js:75-76). In the model every hand carries both tips.
- The button's top-left corner is the canvas centre (sketch.js:37-38), so
  the button spans (320, 240) to (520, 440).
- The delay is 200 ms, as the constant says (sketch.js:12). The comment
  beside it says 400.

## Model

| member | source | states |
|---|---|---|
| Geometry.Remap | sketch.js:92 | p5's `map` result lies on the line through (start1, start2) and (stop1, stop2); it is not clamped |
| Geometry.ThresholdLine | sketch.js:92 | the depth threshold t satisfies 7·t = 200 − 3·z; depth 20 gives 20 and depth −50 gives 50 |
| Geometry.ThresholdDecreasing | sketch.js:91-92 | the threshold strictly decreases as thumb depth increases: a nearer thumb allows a larger gap |
| Geometry.SqPlanarDist | sketch.js:90 | the squared planar thumb-to-index distance is never negative; depth is ignored |
| Geometry.CloseIffDistBelowThreshold | sketch.js:90-95 | for the true distance d ≥ 0, the square-free pinch test `IsClose` holds exactly when `d < threshold` |
| Geometry.FarThumbNeverCloses | sketch.js:92-95 | a thumb at depth 200/3 or more has a non-positive threshold, so it never engages a pinch |
| Geometry.EdgeIsOutside | sketch.js:106-110 | the button test `InRegion` is strict on all four sides: a thumb on an edge line is outside |
| Geometry.ButtonAreaBounds | sketch.js:37-38 | the default button is the open rectangle (320, 240)–(520, 440) on the 640×480 canvas |
| Debounce.InitInv | sketch.js:9-17 | at start there is no pinch, no handle and nothing pending, and the invariant holds |
| Debounce.AtMostOnePending | sketch.js:116 | under the invariant the browser holds at most one timeout, and it is the one the handle names |
| Debounce.ClearPending | sketch.js:97 | clearing removes no live timeout other than the one the handle names, removes that one, changes nothing else, and under the invariant leaves nothing pending |
| Debounce.Schedule | sketch.js:116 | the handle names a new pending timeout due 200 ms from now; when every live handle was issued, it is fresh: it joins the live timeouts without replacing any, and the handles stay issued |
| Debounce.StepHand | sketch.js:95-119 | a close hand engages and leaves the handle naming no pending timeout, whatever the prior state, and under the invariant leaves nothing live at all; a release clears the flag; a timeout is scheduled exactly on a release strictly inside the button, and then, from any state, the handle names it as pending and due now + 200; under the invariant it is the only live one; a release outside changes only the flag; an open hand while idle changes nothing; display and clock are untouched; the invariant is kept; no gone timeout comes back |
| Debounce.ReleaseOverwritesNoLiveTimer | sketch.js:102-116 | under the invariant, when a release inside happens nothing is live or pending, so the overwrite at line 116 loses no timeout: afterwards the new timeout is the only live one and the handle names it |
| Debounce.OverwriteOrphansWithoutInv | sketch.js:116 | in a state that breaks the invariant (engaged with a timeout pending), a release inside orphans the old timeout and two are live |
| Debounce.LoseTracking | sketch.js:121-125 | tracking loss clears the flag, schedules nothing and leaves the handle naming no pending timeout whatever the prior state; under the invariant nothing at all stays live |
| Debounce.FoldHands | sketch.js:72-120 | processing the hands in array order keeps the invariant, the display and the clock, and adds at most one live timeout per schedule |
| Debounce.Frame | sketch.js:70-126 | an empty prediction array resets to idle, schedules nothing and leaves no pending timeout from any state (under the invariant nothing live at all); any frame keeps the invariant and the display |
| Debounce.DoPinch | sketch.js:70-126 | the loop over the predictions computes the same state as the frame function and keeps the invariant |
| Debounce.FireTimer | sketch.js:128-132 | a due live timeout firing flips the display once, removes that timeout and adds none, so the others stay live, leaves the flag and the handle untouched, and under the invariant leaves nothing pending |
| Trace.Step | sketch.js:128-132 | only a timeout firing changes the display, and it is possible exactly when that timeout is live and due; every step keeps the invariant and brings back no timeout that fired or was cleared |
| Trace.RunKeepsInv | sketch.js:95-125 | any session from a state satisfying the invariant keeps it |
| Trace.ReachableIsSafe | sketch.js:116 | in every reachable state at most one timeout is pending, the handle names it, and none is pending while a pinch is engaged |
| Trace.FireTimes | sketch.js:128-132 | the times at which a session's timeouts fire: one entry per firing of a valid session, none before the start |
| Trace.FoldKeepsSpaced | sketch.js:116 | if every live timeout is due at least 200 ms after a time already passed, the loop over any frame keeps that so, since a new timeout is due 200 ms from now |
| Trace.FiresAfter | sketch.js:116-131 | in a session from such a state every firing happens at least 200 ms after that time |
| Trace.FiresSpaced | sketch.js:116-131 | from any state satisfying the invariant, consecutive firings of a session are at least 200 ms apart |
| Trace.AtMostOnePerInterval | sketch.js:116-131 | in every session from the start the display toggles at most once per 200 ms debounce interval |
| Trace.IsLitParity | sketch.js:131 | after any session the display is flipped exactly when an odd number of timeouts fired |
| Trace.FiresBoundedBySchedules | sketch.js:116 | timeouts fired plus timeouts pending never exceed timeouts pending at the start plus releases scheduled |
| Trace.OpenHandsWhileIdle | sketch.js:102 | the loop over a non-empty frame of open hands while idle changes nothing |
| Trace.NoPinchNoSchedule | sketch.js:95-118 | if no hand ever comes close, the pinch never engages and no timeout is ever scheduled |
| Trace.ReleaseFiresAfterInterval | sketch.js:116 | after a release inside, the new timeout can fire exactly when at least 200 ms have passed, and firing it flips the display once and leaves nothing pending |
| Trace.ReengageCancels | sketch.js:95-97 | a pinch after a release inside cancels the timeout: it is never live again and no later session in which it fires is possible |
| Trace.CancelledNeverFires | sketch.js:97 | a timeout that fired or was cleared never becomes live again, and no session in which it fires is possible |
| Trace.TrackingLossForgets | sketch.js:121-125 | after an empty frame nothing is pending and, apart from the stale handle variable, the state no longer depends on the flag or the pending timeout held before it |
| Trace.SharedFlagCrossTalk | sketch.js:10 | with one shared flag, a pinching hand then an open hand with its thumb inside ends the frame with a timeout pending |
| Scenarios.PinchAtDepthZero | sketch.js:90-97 | a 2.2 gap with the thumb at depth 0 (threshold 200/7) engages the pinch |
| Scenarios.ReleaseInsideSchedules | sketch.js:102-118 | a 100 gap at depth −10 (threshold 230/7) after engaging, thumb at (150, 150), schedules a timeout due now + 200 |
| Scenarios.ReleaseOutsideIsIdle | sketch.js:106-118 | a release with the thumb at (50, 50) returns to idle and schedules nothing |
| Scenarios.ClickToggles | sketch.js:116-131 | pinch, release inside, wait 200 ms: the timeout fires and the display goes gray |
| Scenarios.QuickRepinchCancels | sketch.js:95-116 | pinch, release inside, pinch again 50 ms later: the timeout can never fire |

## Left out

- Setup, the draw loop's rendering, the video capture and the hand-pose
  model: I/O and an external library. The `predict` event that refreshes the
  predictions is modelled as the hand sequence carried by each frame event.
- All drawing calls and console logging: cosmetic side effects.
- `pickRandomColor` and `drawKeypoints`: randomness and rendering with no
  logic; `drawKeypoints` is never called.
- Browser timing: real-time scheduling is replaced by a millisecond clock
  (`Wait`) and an explicit firing event that is possible once the timeout is
  live and due. When exactly the browser runs a due timeout is left open.
- Floating point: coordinates are exact reals, and the planar distance is
  compared through its square instead of a square root.
- Geometry.Remap: requires distinct input anchors. p5 divides by their
  difference and yields an infinite or NaN value when they are equal; the
  sketch always passes 20 and -50.
- Landmark arrays: a hand is reduced to its two fingertips. Predictions
  without them make the source throw; that failure is not modelled.
