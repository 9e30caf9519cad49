/** The pinch "click" debouncer of the sketch: one frame's worth of hand
    predictions is read in array order against one shared engaged flag; a
    release with the thumb inside the button schedules a 200 ms timeout,
    and the timeout, when it fires, toggles the display.

    Browser timeouts are modelled explicitly: `live` is the set of
    timeouts the browser still holds (scheduled, not fired, not cleared),
    `pinchTimeout` is the sketch's one handle variable, which the sketch
    overwrites without clearing and which keeps a stale handle after its
    timeout fired. `clearTimeout` of a stale handle does nothing. */
module Debounce {

  import opened Wrappers
  import opened Geometry

  /** Delay between a release inside the button and the toggle, in ms. */
  const TimeToWait: nat := 200

  /** A browser timeout: its handle number and the time it is due. */
  datatype Timer = Timer(handle: nat, deadline: nat)

  /** The sketch's globals plus the browser state the sketch relies on. */
  datatype State = State(
    pinchStarted: bool,            // the shared "pinch engaged" flag
    pinchTimeout: Option<Timer>,   // the handle variable, possibly stale
    live: set<Timer>,              // timeouts the browser will still run
    nextHandle: nat,               // the browser's next timeout handle
    isLit: bool,                   // colour (true) or grayscale display
    now: nat)                      // current time, in ms

  /** Start of the session: not engaged, no handle, display lit. */
  const Init: State := State(false, None, {}, 1, true, 0)

  /** The safety invariant: every live timeout is the one the handle
      variable names (so none is orphaned, and there is at most one), a
      timeout is pending only while the pinch is not engaged, and every live
      timeout carries a handle the browser has already issued. */
  predicate Inv(s: State)
  {
    && (forall t :: t in s.live ==> s.pinchTimeout == Some(t))
    && (s.live != {} ==> !s.pinchStarted)
    && HandlesIssued(s)
  }

  /** Every live timeout's handle is below the browser's next handle. */
  predicate HandlesIssued(s: State)
  {
    forall t :: t in s.live ==> t.handle < s.nextHandle
  }

  /** Every timeout live in `r` was live in `s` or was scheduled after `s`:
      a cancelled or fired timeout never comes back. */
  predicate LiveOnlyFrom(s: State, r: State)
  {
    forall u :: u in r.live ==> u in s.live || s.nextHandle <= u.handle
  }

  /** The timeout the handle variable names, if it is still pending. */
  function Pending(s: State): (p: Option<Timer>)
  {
    if s.pinchTimeout.Some? && s.pinchTimeout.value in s.live then s.pinchTimeout else None
  }

  lemma InitInv()
    ensures Inv(Init) && Pending(Init) == None
  {
  }

  /** Under the invariant the browser holds at most one timeout, and it is
      exactly the pending one. */
  lemma AtMostOnePending(s: State)
    requires Inv(s)
    ensures |s.live| <= 1
    ensures s.live == (if Pending(s).Some? then {Pending(s).value} else {})
  {
    if s.live != {} {
      var t :| t in s.live;
      assert s.live == {t};
    }
  }

  /** `if (pinchTimeout) clearTimeout(pinchTimeout)`: cancels the timeout
      the handle names; a missing or stale handle cancels nothing. */
  function ClearPending(s: State): (r: State)
    ensures r == s.(live := r.live) && r.live <= s.live
    ensures s.pinchTimeout.Some? ==> s.pinchTimeout.value !in r.live
    ensures s.live - r.live <= (if s.pinchTimeout.Some? then {s.pinchTimeout.value} else {})
    ensures Inv(s) ==> r.live == {}
  {
    match s.pinchTimeout
    case None => s
    case Some(t) => s.(live := s.live - {t})
  }

  /** `pinchTimeout = setTimeout(pinch, timeToWait)`: a fresh timeout due
      `TimeToWait` from now; the handle variable is overwritten. */
  function Schedule(s: State): (r: State)
    ensures r.pinchTimeout.Some? && Pending(r) == r.pinchTimeout
    ensures r.pinchTimeout.value.deadline == s.now + TimeToWait
    // the new timeout is fresh: it joins the live ones without replacing any
    ensures HandlesIssued(s) ==>
              && r.pinchTimeout.value !in s.live
              && r.live - {r.pinchTimeout.value} == s.live
              && |r.live| == |s.live| + 1
              && HandlesIssued(r)
    ensures LiveOnlyFrom(s, r) && r.nextHandle == s.nextHandle + 1
    ensures r == s.(pinchTimeout := r.pinchTimeout, live := r.live, nextHandle := r.nextHandle)
  {
    var t := Timer(s.nextHandle, s.now + TimeToWait);
    s.(pinchTimeout := Some(t), live := s.live + {t}, nextHandle := s.nextHandle + 1)
  }

  /** True when `StepHand` takes the release branch and the thumb is in the button. */
  predicate ReleasesInside(area: Region, s: State, h: Hand)
  {
    !IsClose(h) && s.pinchStarted && InRegion(area, h.thumb)
  }

  /** One iteration of the prediction loop: engage, release, or nothing. */
  function StepHand(area: Region, s: State, h: Hand): (r: State)
    // engaging sets the flag, leaves no timeout pending and, under the invariant, nothing live
    ensures IsClose(h) ==> r.pinchStarted && r.nextHandle == s.nextHandle
    ensures IsClose(h) ==> Pending(r) == None
    ensures IsClose(h) && Inv(s) ==> r.live == {}
    // a release clears the flag
    ensures !IsClose(h) && s.pinchStarted ==> !r.pinchStarted
    // a timeout is scheduled, due TimeToWait from now, exactly on a release inside
    ensures r.nextHandle == (if ReleasesInside(area, s, h) then s.nextHandle + 1 else s.nextHandle)
    ensures ReleasesInside(area, s, h) ==>
              Pending(r) == Some(Timer(s.nextHandle, s.now + TimeToWait))
    ensures ReleasesInside(area, s, h) && Inv(s) ==>
              r.live == {Timer(s.nextHandle, s.now + TimeToWait)}
    // a release outside touches no timeout; an open hand while idle changes nothing
    ensures !IsClose(h) && s.pinchStarted && !InRegion(area, h.thumb) ==> r == s.(pinchStarted := false)
    ensures !IsClose(h) && !s.pinchStarted ==> r == s
    // the display and the clock are untouched; the invariant is kept
    ensures r.isLit == s.isLit && r.now == s.now
    ensures Inv(s) ==> Inv(r)
    ensures |r.live| <= |s.live| + (r.nextHandle - s.nextHandle)
    ensures LiveOnlyFrom(s, r)
  {
    if IsClose(h) then
      ClearPending(s).(pinchStarted := true)
    else if s.pinchStarted then
      var released := s.(pinchStarted := false);
      if InRegion(area, h.thumb) then Schedule(released) else released
    else
      s
  }

  /** The scheduling at a release inside the button never overwrites the
      handle of a live timeout: under the invariant nothing is live when it
      happens, so afterwards the new timeout is the only one. */
  lemma ReleaseOverwritesNoLiveTimer(area: Region, s: State, h: Hand)
    requires Inv(s) && ReleasesInside(area, s, h)
    ensures s.live == {} && Pending(s) == None
    ensures var r := StepHand(area, s, h);
            r.live == {r.pinchTimeout.value} && Pending(r) == r.pinchTimeout
  {
  }

  /** Without the invariant the unguarded overwrite does orphan a timeout:
      engaged with a pending timeout, a release inside the button leaves the
      old timeout live while the handle names only the new one. */
  lemma OverwriteOrphansWithoutInv()
    ensures var old0 := Timer(1, 150);
            var s := State(true, Some(old0), {old0}, 2, true, 0);
            var h := Hand(Point3(400.0, 300.0, 0.0), Point3(400.0, 100.0, 0.0));
            var r := StepHand(ButtonArea, s, h);
            !Inv(s) && old0 in r.live && r.pinchTimeout != Some(old0) && |r.live| == 2
  {
  }

  /** Tracking lost: the flag is cleared and the pending timeout cancelled. */
  function LoseTracking(s: State): (r: State)
    ensures !r.pinchStarted && r.nextHandle == s.nextHandle
    ensures Pending(r) == None
    ensures Inv(s) ==> r.live == {} && Inv(r)
    ensures r.isLit == s.isLit && r.now == s.now && r.live <= s.live
  {
    ClearPending(s).(pinchStarted := false)
  }

  /** The prediction loop over a non-empty array, in array order; each hand
      sees the flag the previous hand left. */
  function FoldHands(area: Region, s: State, hands: seq<Hand>): (r: State)
    decreases |hands|
    ensures r.isLit == s.isLit && r.now == s.now
    ensures Inv(s) ==> Inv(r)
    ensures r.nextHandle >= s.nextHandle
    ensures |r.live| <= |s.live| + (r.nextHandle - s.nextHandle)
    ensures LiveOnlyFrom(s, r)
  {
    if |hands| == 0 then s
    else StepHand(area, FoldHands(area, s, hands[..|hands| - 1]), hands[|hands| - 1])
  }

  /** One frame of the detector: the loop over the predictions, or a reset
      when there are none. */
  function Frame(area: Region, s: State, hands: seq<Hand>): (r: State)
    // tracking loss is a reset, never a release
    ensures |hands| == 0 ==> !r.pinchStarted && r.nextHandle == s.nextHandle && Pending(r) == None
    ensures |hands| == 0 && Inv(s) ==> r.live == {}
    ensures r.isLit == s.isLit && r.now == s.now
    ensures Inv(s) ==> Inv(r)
    ensures r.nextHandle >= s.nextHandle
    ensures |r.live| <= |s.live| + (r.nextHandle - s.nextHandle)
    ensures LiveOnlyFrom(s, r)
  {
    if |hands| > 0 then FoldHands(area, s, hands) else LoseTracking(s)
  }

  /** The same frame as a loop over the predictions, as the sketch runs it. */
  method DoPinch(area: Region, s: State, predictions: seq<Hand>) returns (r: State)
    ensures r == Frame(area, s, predictions)
    ensures Inv(s) ==> Inv(r)
  {
    if |predictions| > 0 {
      r := s;
      var i := 0;
      while i < |predictions|
        invariant 0 <= i <= |predictions|
        invariant r == FoldHands(area, s, predictions[..i])
      {
        assert predictions[..i + 1][..i] == predictions[..i];
        r := StepHand(area, r, predictions[i]);
        i := i + 1;
      }
      assert predictions[..i] == predictions;
    } else {
      r := LoseTracking(s);
    }
  }

  /** The timeout is due and still held by the browser. */
  predicate CanFire(s: State, t: Timer)
  {
    t in s.live && t.deadline <= s.now
  }

  /** The browser runs timeout `t`, whose callback `pinch` toggles the
      display; the handle variable keeps the now stale handle. */
  function FireTimer(s: State, t: Timer): (r: State)
    requires CanFire(s, t)
    ensures r.isLit == !s.isLit
    ensures t !in r.live && r.live <= s.live && |r.live| == |s.live| - 1
    ensures r == s.(live := r.live, isLit := r.isLit)
    ensures Inv(s) ==> r.live == {} && Inv(r)
  {
    s.(live := s.live - {t}, isLit := !s.isLit)
  }

  /** Time passes; nothing else changes. */
  function Advance(s: State, ms: nat): (r: State)
    ensures r.now == s.now + ms && r == s.(now := r.now)
    ensures Inv(s) ==> Inv(r)
  {
    s.(now := s.now + ms)
  }

}
