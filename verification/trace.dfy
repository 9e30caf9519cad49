/** Sessions of the sketch as traces of events on one timeline: a frame
    reads the latest predictions, time passes, or a due timeout fires. A
    trace that asks a timeout to fire when the browser would not run it is
    not a run. */
module Trace {

  import opened Wrappers
  import opened Geometry
  import opened Debounce

  datatype Event =
    | NewFrame(hands: seq<Hand>)  // one call of the per-frame detector
    | Wait(ms: nat)               // time passes between frames
    | TimeoutFires(t: Timer)      // the browser runs timeout t

  function Step(area: Region, s: State, e: Event): (r: Option<State>)
    // only a firing can fail, and only a firing changes the display
    ensures !e.TimeoutFires? ==> r.Some? && r.value.isLit == s.isLit
    ensures e.TimeoutFires? ==> (r.Some? <==> CanFire(s, e.t))
    ensures r.Some? && Inv(s) ==> Inv(r.value)
    // no step brings back a timeout that is gone
    ensures r.Some? ==> r.value.nextHandle >= s.nextHandle && LiveOnlyFrom(s, r.value)
  {
    match e
    case NewFrame(hands) => Some(Frame(area, s, hands))
    case Wait(ms) => Some(Advance(s, ms))
    case TimeoutFires(t) => if CanFire(s, t) then Some(FireTimer(s, t)) else None
  }

  /** The state after a whole trace, or None if some firing was not enabled. */
  function Run(area: Region, s: State, es: seq<Event>): (r: Option<State>)
    decreases |es|
  {
    if |es| == 0 then Some(s)
    else match Step(area, s, es[0])
      case None => None
      case Some(s1) => Run(area, s1, es[1..])
  }

  function FireCount(es: seq<Event>): (n: nat)
  {
    if |es| == 0 then 0
    else (if es[0].TimeoutFires? then 1 else 0) + FireCount(es[1..])
  }

  /** Every run from a state satisfying the invariant keeps it. */
  lemma {:induction false} RunKeepsInv(area: Region, s: State, es: seq<Event>)
    requires Inv(s)
    ensures Run(area, s, es).Some? ==> Inv(Run(area, s, es).value)
    decreases |es|
  {
    if |es| > 0 {
      var s1 := Step(area, s, es[0]);
      if s1.Some? {
        RunKeepsInv(area, s1.value, es[1..]);
      }
    }
  }

  /** Every reachable state: at most one pending timeout, it is the one the
      handle names, and none is pending while the pinch is engaged. */
  lemma ReachableIsSafe(area: Region, es: seq<Event>)
    ensures Run(area, Init, es).Some? ==>
              var r := Run(area, Init, es).value;
              && |r.live| <= 1
              && (forall t :: t in r.live ==> r.pinchTimeout == Some(t))
              && (r.pinchStarted ==> r.live == {})
  {
    InitInv();
    RunKeepsInv(area, Init, es);
    if Run(area, Init, es).Some? {
      AtMostOnePending(Run(area, Init, es).value);
    }
  }

  /** The display changes only through firings, once each: after a run it
      is flipped exactly when an odd number of timeouts fired. */
  lemma {:induction false} IsLitParity(area: Region, s: State, es: seq<Event>)
    ensures Run(area, s, es).Some? ==>
              Run(area, s, es).value.isLit == (if FireCount(es) % 2 == 0 then s.isLit else !s.isLit)
    decreases |es|
  {
    if |es| > 0 {
      var s1 := Step(area, s, es[0]);
      if s1.Some? {
        IsLitParity(area, s1.value, es[1..]);
      }
    }
  }

  /** Activations never outnumber releases inside the button: the timeouts
      that fired plus those still pending are at most those pending at the
      start plus those scheduled during the run. */
  lemma {:induction false} FiresBoundedBySchedules(area: Region, s: State, es: seq<Event>)
    ensures Run(area, s, es).Some? ==>
              var r := Run(area, s, es).value;
              r.nextHandle >= s.nextHandle &&
              FireCount(es) + |r.live| <= |s.live| + (r.nextHandle - s.nextHandle)
    decreases |es|
  {
    if |es| > 0 {
      var s1 := Step(area, s, es[0]);
      if s1.Some? {
        FiresBoundedBySchedules(area, s1.value, es[1..]);
      }
    }
  }

  /** The times at which timeouts fire during a run, in order; a run cut
      short by a firing that is not possible ends the list there. */
  function FireTimes(area: Region, s: State, es: seq<Event>): (ts: seq<nat>)
    decreases |es|
    ensures Run(area, s, es).Some? ==> |ts| == FireCount(es)
    ensures forall i :: 0 <= i < |ts| ==> ts[i] >= s.now
  {
    if |es| == 0 then []
    else match Step(area, s, es[0])
      case None => []
      case Some(s1) => (if es[0].TimeoutFires? then [s.now] else []) + FireTimes(area, s1, es[1..])
  }

  /** The clock has reached `last`, and every live timeout is due no
      earlier than TimeToWait after `last`. */
  predicate SpacedAfter(s: State, last: nat)
  {
    s.now >= last && forall t :: t in s.live ==> t.deadline >= last + TimeToWait
  }

  /** Every timeout a frame schedules is due TimeToWait after the frame, so
      the loop over the hands keeps the spacing. */
  lemma {:induction false} FoldKeepsSpaced(area: Region, s: State, hands: seq<Hand>, last: nat)
    requires SpacedAfter(s, last)
    ensures SpacedAfter(FoldHands(area, s, hands), last)
    decreases |hands|
  {
    if |hands| > 0 {
      FoldKeepsSpaced(area, s, hands[..|hands| - 1], last);
    }
  }

  /** From a spaced state, every later firing happens at least TimeToWait
      after `last`. */
  lemma {:induction false} FiresAfter(area: Region, s: State, es: seq<Event>, last: nat)
    requires SpacedAfter(s, last)
    ensures forall i :: 0 <= i < |FireTimes(area, s, es)| ==> FireTimes(area, s, es)[i] >= last + TimeToWait
    decreases |es|
  {
    if |es| > 0 {
      var s1 := Step(area, s, es[0]);
      if s1.Some? {
        if es[0].NewFrame? && |es[0].hands| > 0 {
          FoldKeepsSpaced(area, s, es[0].hands, last);
        }
        assert SpacedAfter(s1.value, last);
        FiresAfter(area, s1.value, es[1..], last);
      }
    }
  }

  /** Consecutive times in `ts` are at least TimeToWait apart. */
  ghost predicate Spaced(ts: seq<nat>)
  {
    forall i, j :: 0 <= i && j == i + 1 && j < |ts| ==> ts[j] >= ts[i] + TimeToWait
  }

  /** Consecutive firings of a run from a state satisfying the invariant
      are at least TimeToWait apart. */
  lemma {:induction false} FiresSpaced(area: Region, s: State, es: seq<Event>)
    requires Inv(s)
    ensures Spaced(FireTimes(area, s, es))
    decreases |es|
  {
    if |es| > 0 {
      var s1 := Step(area, s, es[0]);
      if s1.Some? {
        var ts := FireTimes(area, s, es);
        var rest := FireTimes(area, s1.value, es[1..]);
        FiresSpaced(area, s1.value, es[1..]);
        if es[0].TimeoutFires? {
          assert ts == [s.now] + rest;
          assert s1.value.live == {} && s1.value.now == s.now;
          FiresAfter(area, s1.value, es[1..], s.now);
          forall i, j | 0 <= i && j == i + 1 && j < |ts| ensures ts[j] >= ts[i] + TimeToWait {
            if i > 0 {
              assert ts[i] == rest[i - 1] && ts[j] == rest[i];
            } else {
              assert ts[0] == s.now && ts[1] == rest[0];
            }
          }
        } else {
          assert ts == rest;
        }
      }
    }
  }

  /** The display toggles at most once per debounce interval: in any session
      consecutive firings are at least TimeToWait apart. */
  lemma AtMostOnePerInterval(area: Region, es: seq<Event>)
    ensures var ts := FireTimes(area, Init, es);
            forall i :: 0 <= i < |ts| - 1 ==> ts[i + 1] >= ts[i] + TimeToWait
  {
    InitInv();
    FiresSpaced(area, Init, es);
    var ts := FireTimes(area, Init, es);
    forall i | 0 <= i < |ts| - 1 ensures ts[i + 1] >= ts[i] + TimeToWait {
      assert Spaced(ts);
    }
  }

  /** No hand of any frame in the trace is close. */
  predicate NeverClose(es: seq<Event>)
  {
    forall i, j :: 0 <= i < |es| && es[i].NewFrame? && 0 <= j < |es[i].hands| ==> !IsClose(es[i].hands[j])
  }

  /** Looping over open hands while idle changes nothing. */
  lemma {:induction false} OpenHandsWhileIdle(area: Region, s: State, hands: seq<Hand>)
    requires !s.pinchStarted
    requires forall j :: 0 <= j < |hands| ==> !IsClose(hands[j])
    ensures FoldHands(area, s, hands) == s
    decreases |hands|
  {
    if |hands| > 0 {
      OpenHandsWhileIdle(area, s, hands[..|hands| - 1]);
    }
  }

  /** If the fingers never come close, the pinch never engages and no
      timeout is ever scheduled. */
  lemma {:induction false} NoPinchNoSchedule(area: Region, s: State, es: seq<Event>)
    requires !s.pinchStarted && NeverClose(es)
    ensures Run(area, s, es).Some? ==>
              var r := Run(area, s, es).value;
              !r.pinchStarted && r.nextHandle == s.nextHandle
    decreases |es|
  {
    if |es| > 0 {
      var s1 := Step(area, s, es[0]);
      if es[0].NewFrame? && |es[0].hands| > 0 {
        OpenHandsWhileIdle(area, s, es[0].hands);
      }
      if s1.Some? {
        assert NeverClose(es[1..]) by {
          forall i, j | 0 <= i < |es[1..]| && es[1..][i].NewFrame? && 0 <= j < |es[1..][i].hands|
            ensures !IsClose(es[1..][i].hands[j])
          {
            assert es[1..][i] == es[i + 1];
          }
        }
        NoPinchNoSchedule(area, s1.value, es[1..]);
      }
    }
  }

  /** A frame with one hand is one step of that hand. */
  lemma SingleHandFrame(area: Region, s: State, h: Hand)
    ensures Frame(area, s, [h]) == StepHand(area, s, h)
  {
    assert [h][..0] == [];
    assert FoldHands(area, s, []) == s;
    assert FoldHands(area, s, [h]) == StepHand(area, FoldHands(area, s, []), h);
  }

  /** A release inside the button, then a wait of `ms`: the new timeout can
      fire exactly when at least TimeToWait has passed, and firing it flips
      the display once and leaves nothing pending. */
  lemma ReleaseFiresAfterInterval(area: Region, s: State, h: Hand, ms: nat)
    requires Inv(s) && s.pinchStarted && !IsClose(h) && InRegion(area, h.thumb)
    ensures var t := Timer(s.nextHandle, s.now + TimeToWait);
            var r := Run(area, s, [NewFrame([h]), Wait(ms), TimeoutFires(t)]);
            && (r.Some? <==> ms >= TimeToWait)
            && (r.Some? ==> r.value.isLit == !s.isLit && r.value.live == {} && !r.value.pinchStarted)
  {
    var t := Timer(s.nextHandle, s.now + TimeToWait);
    var es := [NewFrame([h]), Wait(ms), TimeoutFires(t)];
    var s1 := Frame(area, s, [h]);
    SingleHandFrame(area, s, h);
    assert s1.live == {t};
    var s2 := Advance(s1, ms);
    assert es[1..] == [Wait(ms), TimeoutFires(t)];
    assert es[1..][1..] == [TimeoutFires(t)];
    assert Run(area, s, es) == Run(area, s1, es[1..]);
    assert Run(area, s1, es[1..]) == Run(area, s2, es[1..][1..]);
    assert Run(area, s2, [TimeoutFires(t)]) == (if CanFire(s2, t) then Run(area, FireTimer(s2, t), []) else None);
  }

  /** A release inside the button followed, before the timeout fires, by a
      re-engaging frame: the timeout is cancelled and can never fire, and
      the pinch is engaged again. */
  lemma ReengageCancels(area: Region, s: State, h: Hand, ms: nat, h2: Hand)
    requires Inv(s) && s.pinchStarted && !IsClose(h) && InRegion(area, h.thumb) && IsClose(h2)
    ensures var t := Timer(s.nextHandle, s.now + TimeToWait);
            var r := Run(area, s, [NewFrame([h]), Wait(ms), NewFrame([h2])]);
            && r.Some? && r.value.pinchStarted && r.value.live == {}
            && (forall es :: Run(area, r.value, es).Some? ==> t !in Run(area, r.value, es).value.live)
            && (forall es :: TimeoutFires(t) in es ==> Run(area, r.value, es) == None)
  {
    var t := Timer(s.nextHandle, s.now + TimeToWait);
    var es := [NewFrame([h]), Wait(ms), NewFrame([h2])];
    var s1 := Frame(area, s, [h]);
    SingleHandFrame(area, s, h);
    var s2 := Advance(s1, ms);
    var s3 := Frame(area, s2, [h2]);
    SingleHandFrame(area, s2, h2);
    assert es[1..] == [Wait(ms), NewFrame([h2])];
    assert es[1..][1..] == [NewFrame([h2])];
    assert Run(area, s, es) == Run(area, s1, es[1..]);
    assert Run(area, s1, es[1..]) == Run(area, s2, es[1..][1..]);
    assert Run(area, s2, [NewFrame([h2])]) == Run(area, s3, []);
    forall es {
      CancelledNeverFires(area, s3, t, es);
    }
  }

  /** A timeout that is not live but whose handle was already issued, that
      is one that fired or was cancelled, never becomes live again, and no
      session in which it fires is a run. */
  lemma {:induction false} CancelledNeverFires(area: Region, s: State, t: Timer, es: seq<Event>)
    requires t !in s.live && t.handle < s.nextHandle
    ensures Run(area, s, es).Some? ==> t !in Run(area, s, es).value.live
    ensures TimeoutFires(t) in es ==> Run(area, s, es) == None
    decreases |es|
  {
    if |es| > 0 {
      var s1 := Step(area, s, es[0]);
      if s1.Some? {
        assert es[0] != TimeoutFires(t);
        assert t !in s1.value.live;
        CancelledNeverFires(area, s1.value, t, es[1..]);
        if TimeoutFires(t) in es {
          var k :| 0 <= k < |es| && es[k] == TimeoutFires(t);
          assert es[1..][k - 1] == TimeoutFires(t);
        }
      }
    }
  }

  /** After tracking is lost, the next frame starts from Idle whatever
      happened before: apart from the stale handle variable, the empty
      frame's result depends only on the display, the clock and the handle
      counter. */
  lemma TrackingLossForgets(area: Region, s: State, s': State)
    requires Inv(s) && Inv(s')
    requires s.isLit == s'.isLit && s.now == s'.now && s.nextHandle == s'.nextHandle
    ensures var r, r' := Frame(area, s, []), Frame(area, s', []);
            r.pinchStarted == r'.pinchStarted == false && r.live == r'.live == {}
            && Pending(r) == Pending(r') == None
            && r.isLit == r'.isLit && r.now == r'.now && r.nextHandle == r'.nextHandle
  {
  }

  /** The engaged flag is shared by all hands: a frame holding a pinching
      hand followed by an open hand with its thumb in the button reads as a
      release by the second hand, so the frame ends with a timeout pending
      although a hand is still pinching. */
  lemma SharedFlagCrossTalk(area: Region, s: State, pinching: Hand, open: Hand)
    requires Inv(s) && IsClose(pinching) && !IsClose(open) && InRegion(area, open.thumb)
    ensures var r := Frame(area, s, [pinching, open]);
            !r.pinchStarted && r.live == {Timer(s.nextHandle, s.now + TimeToWait)}
  {
    var hands := [pinching, open];
    assert hands[..1] == [pinching];
    SingleHandFrame(area, s, pinching);
    assert Frame(area, s, hands) == StepHand(area, FoldHands(area, s, [pinching]), open);
  }

}
