/** Worked sessions of the debouncer on a button spanning (100, 100) to
    (300, 300), with the threshold values of the remap. */
module Scenarios {

  import opened Wrappers
  import opened Geometry
  import opened Debounce
  import opened Trace

  const Button: Region := Region(Vec2(100.0, 100.0), Vec2(200.0, 200.0))

  /** Thumb at depth 0: the threshold is 200/7 (about 28.6); a 2.2 gap pinches. */
  lemma PinchAtDepthZero()
    ensures var h := Hand(Point3(100.0, 100.0, 0.0), Point3(102.0, 101.0, 0.0));
            Threshold(0.0) == 200.0 / 7.0 && IsClose(h) && StepHand(Button, Init, h).pinchStarted
  {
  }

  /** Engaged, then the index moves 100 away with the thumb at (150, 150)
      and depth -10 (threshold 230/7, about 32.9): a release inside the
      button, due 200 ms after the release frame. */
  lemma ReleaseInsideSchedules(now: nat)
    ensures var s := Init.(pinchStarted := true, now := now);
            var h := Hand(Point3(150.0, 150.0, -10.0), Point3(250.0, 150.0, -10.0));
            var r := StepHand(Button, s, h);
            Threshold(-10.0) == 230.0 / 7.0 && !IsClose(h)
            && !r.pinchStarted && r.live == {Timer(1, now + 200)} && r.pinchTimeout == Some(Timer(1, now + 200))
  {
  }

  /** Release at (50, 50), outside the button: back to idle, nothing scheduled. */
  lemma ReleaseOutsideIsIdle()
    ensures var s := Init.(pinchStarted := true);
            var h := Hand(Point3(50.0, 50.0, 0.0), Point3(150.0, 50.0, 0.0));
            var r := StepHand(Button, s, h);
            !r.pinchStarted && r.live == {} && r.nextHandle == s.nextHandle
  {
  }

  const Engage: Hand := Hand(Point3(150.0, 150.0, -10.0), Point3(152.0, 151.0, -10.0))
  const Release: Hand := Hand(Point3(150.0, 150.0, -10.0), Point3(250.0, 150.0, -10.0))

  /** Pinch, release inside, wait 200 ms: the display goes gray. */
  lemma ClickToggles()
    ensures var es := [NewFrame([Engage]), Wait(16), NewFrame([Release]), Wait(200), TimeoutFires(Timer(1, 216))];
            Run(Button, Init, es).Some? && !Run(Button, Init, es).value.isLit
  {
    var es := [NewFrame([Engage]), Wait(16), NewFrame([Release]), Wait(200), TimeoutFires(Timer(1, 216))];
    SingleHandFrame(Button, Init, Engage);
    var s1 := StepHand(Button, Init, Engage);
    var s2 := Advance(s1, 16);
    SingleHandFrame(Button, s2, Release);
    var s3 := StepHand(Button, s2, Release);
    assert s3.live == {Timer(1, 216)};
    var s4 := Advance(s3, 200);
    assert Run(Button, Init, es) == Run(Button, s1, es[1..]);
    assert Run(Button, s1, es[1..]) == Run(Button, s2, es[2..]);
    assert Run(Button, s2, es[2..]) == Run(Button, s3, es[3..]);
    assert Run(Button, s3, es[3..]) == Run(Button, s4, es[4..]);
    assert Run(Button, s4, es[4..]) == Some(FireTimer(s4, Timer(1, 216)));
  }

  /** Pinch, release inside, pinch again 50 ms later: the timeout is
      cancelled and the display stays lit however long one waits. */
  lemma QuickRepinchCancels(later: nat)
    ensures var es := [NewFrame([Engage]), NewFrame([Release]), Wait(50), NewFrame([Engage]),
                       Wait(later), TimeoutFires(Timer(1, 200))];
            Run(Button, Init, es) == None
  {
    var es := [NewFrame([Engage]), NewFrame([Release]), Wait(50), NewFrame([Engage]),
               Wait(later), TimeoutFires(Timer(1, 200))];
    SingleHandFrame(Button, Init, Engage);
    var s1 := StepHand(Button, Init, Engage);
    SingleHandFrame(Button, s1, Release);
    var s2 := StepHand(Button, s1, Release);
    var s3 := Advance(s2, 50);
    SingleHandFrame(Button, s3, Engage);
    var s4 := StepHand(Button, s3, Engage);
    assert s4.live == {};
    var s5 := Advance(s4, later);
    assert Run(Button, Init, es) == Run(Button, s1, es[1..]);
    assert Run(Button, s1, es[1..]) == Run(Button, s2, es[2..]);
    assert Run(Button, s2, es[2..]) == Run(Button, s3, es[3..]);
    assert Run(Button, s3, es[3..]) == Run(Button, s4, es[4..]);
    assert Run(Button, s4, es[4..]) == Run(Button, s5, es[5..]);
  }

}
