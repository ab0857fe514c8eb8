/** What movements of the controllers do: the pointer and the gesture buttons (psmove_handler.cpp). */
module HandlerMovement {
  import opened Controllers
  import opened HandlerModel
  import opened HandlerProperties

  // ----- distances -----

  /** The least distance that counts as movement. */
  function Least(threshold: int): real {
    (if threshold > 1 then threshold else 1) as real
  }

  predicate Forward(x: real, threshold: int) {
    x >= Least(threshold)
  }

  predicate Backward(x: real, threshold: int) {
    x <= -Least(threshold)
  }

  /** `d` is `x` without its fraction. */
  predicate WholePart(d: int, x: real) {
    if x >= 0.0 then d as real <= x < d as real + 1.0 else d as real - 1.0 < x <= d as real
  }

  /** What a gyroscope value of one axis means: its whole part, or 0 if that is no movement. */
  predicate Moves(d: int, x: real, threshold: int) {
    if Forward(x, threshold) || Backward(x, threshold) then WholePart(d, x) else d == 0
  }

  lemma TruncateIsWholePart(x: real)
    ensures WholePart(Truncate(x), x)
  {
  }

  lemma WholePartReaches(d: int, x: real, n: int)
    requires WholePart(d, x) && n > 0
    ensures d >= n <==> x >= n as real
    ensures d <= -n <==> x <= -(n as real)
  {
  }

  /** How far a gyroscope value goes along its axis. */
  function Along(g: int, timeDelta: int, coeff: real): real {
    (g * timeDelta) as real * coeff
  }

  /** `d` is the distance for `x`, and has a sign exactly if `x` moves that way. */
  predicate IsMove(d: int, x: real, threshold: int) {
    Moves(d, x, threshold) && (d > 0 <==> Forward(x, threshold)) && (d < 0 <==> Backward(x, threshold))
  }

  lemma DistanceMoves(g: int, timeDelta: int, coeff: real, threshold: int)
    ensures IsMove(Distance(g, timeDelta, coeff, threshold), Along(g, timeDelta, coeff), threshold)
  {
    var x := Along(g, timeDelta, coeff);
    TruncateIsWholePart(x);
    WholePartReaches(Truncate(x), x, if threshold > 1 then threshold else 1);
    WholePartReaches(Truncate(x), x, 1);
  }

  /** The milliseconds between two readings: the difference of their nanoseconds in whole milliseconds, with a second
  added if that is negative. */
  lemma TimeDeltaExactly(now: TimeSpec, last: TimeSpec)
    requires ValidTime(now) && ValidTime(last)
    ensures var n, delta := now.nsec - last.nsec, TimeDelta(now, last);
      && (n >= 0 ==> delta * 1_000_000 <= n < (delta + 1) * 1_000_000)
      && (-1_000_000 < n < 0 ==> delta == 0)
      && (n <= -1_000_000 ==> (delta - 1001) * 1_000_000 < n <= (delta - 1000) * 1_000_000)
  {
  }

  // ----- the pointer -----

  /** Is `after` the signals `before` and, if `counts` holds and an axis moves, one movement with the axes' distances? */
  ghost predicate MoveAdded(before: seq<Event>, after: seq<Event>, counts: bool, x: real, y: real, threshold: int) {
    if counts && (Forward(x, threshold) || Backward(x, threshold) || Forward(y, threshold) || Backward(y, threshold))
    then exists dx, dy :: after == before + [Move(dx, dy)] && Moves(dx, x, threshold) && Moves(dy, y, threshold)
    else after == before
  }

  lemma AddsMove(before: seq<Event>, after: seq<Event>, counts: bool, dx: int, dy: int, x: real, y: real, threshold: int)
    requires IsMove(dx, x, threshold) && IsMove(dy, y, threshold)
    requires after == before + if counts && (dx != 0 || dy != 0) then [Move(dx, dy)] else []
    ensures MoveAdded(before, after, counts, x, y, threshold)
  {
  }

  /** A pointer movement is signalled exactly if there was a reading before, the move trigger is held or not used, and
  one axis moves; each axis is as its own gyroscope value says.  Nothing else changes but the clock and the time. */
  lemma MoveIff(cfg: Config, s: State, gx: int, gy: int)
    ensures var now, t := cfg.clock(s.ticks), OnGyroscope(cfg, s, gx, gy);
      var delta := TimeDelta(now, s.lastGyro);
      var counts := s.lastGyro.sec != 0 && s.lastGyro.nsec != 0 && (s.moveTrigger || !Maps(cfg.keymap1, KEY_PSMOVE_MOVE_TRIGGER));
      && t == s.(ticks := s.ticks + 1, lastGyro := now, events := t.events)
      && MoveAdded(s.events, t.events, counts, Along(gx, delta, cfg.cx), Along(gy, delta, cfg.cy), cfg.moveThreshold)
  {
    var delta := TimeDelta(cfg.clock(s.ticks), s.lastGyro);
    DistanceMoves(gx, delta, cfg.cx, cfg.moveThreshold);
    DistanceMoves(gy, delta, cfg.cy, cfg.moveThreshold);
    GyroscopeMoves(cfg, s, gx, gy, Distance(gx, delta, cfg.cx, cfg.moveThreshold), Distance(gy, delta, cfg.cy, cfg.moveThreshold),
                   Along(gx, delta, cfg.cx), Along(gy, delta, cfg.cy));
  }

  lemma GyroscopeMoves(cfg: Config, s: State, gx: int, gy: int, dx: int, dy: int, x: real, y: real)
    requires dx == Distance(gx, TimeDelta(cfg.clock(s.ticks), s.lastGyro), cfg.cx, cfg.moveThreshold)
    requires dy == Distance(gy, TimeDelta(cfg.clock(s.ticks), s.lastGyro), cfg.cy, cfg.moveThreshold)
    requires IsMove(dx, x, cfg.moveThreshold) && IsMove(dy, y, cfg.moveThreshold)
    ensures var t := OnGyroscope(cfg, s, gx, gy);
      var counts := s.lastGyro.sec != 0 && s.lastGyro.nsec != 0 && (s.moveTrigger || !Maps(cfg.keymap1, KEY_PSMOVE_MOVE_TRIGGER));
      && t == s.(ticks := s.ticks + 1, lastGyro := cfg.clock(s.ticks), events := t.events)
      && MoveAdded(s.events, t.events, counts, x, y, cfg.moveThreshold)
  {
    GyroscopeCases(cfg, s, gx, gy, dx, dy);
    AddsMove(s.events, OnGyroscope(cfg, s, gx, gy).events,
             s.lastGyro.sec != 0 && s.lastGyro.nsec != 0 && (s.moveTrigger || !cfg.UseMoveTrigger()), dx, dy, x, y, cfg.moveThreshold);
  }

  lemma GyroscopeCases(cfg: Config, s: State, gx: int, gy: int, dx: int, dy: int)
    requires dx == Distance(gx, TimeDelta(cfg.clock(s.ticks), s.lastGyro), cfg.cx, cfg.moveThreshold)
    requires dy == Distance(gy, TimeDelta(cfg.clock(s.ticks), s.lastGyro), cfg.cy, cfg.moveThreshold)
    ensures var t := OnGyroscope(cfg, s, gx, gy);
      && t == s.(ticks := s.ticks + 1, lastGyro := cfg.clock(s.ticks), events := t.events)
      && t.events == s.events +
         if s.lastGyro.sec != 0 && s.lastGyro.nsec != 0 && (s.moveTrigger || !cfg.UseMoveTrigger()) && (dx != 0 || dy != 0)
         then [Move(dx, dy)] else []
  {
  }

  /** A gyroscope value moves the pointer the way that its sign, and the coefficient's, say. */
  lemma MovesBySign(d: int, g: int, delta: nat, coeff: real, threshold: int)
    requires Moves(d, Along(g, delta, coeff), threshold)
    ensures d > 0 ==> g as real * coeff > 0.0
    ensures d < 0 ==> g as real * coeff < 0.0
  {
    var x, k := Along(g, delta, coeff), g as real * coeff;
    assert (g * delta) as real == g as real * delta as real;
    assert x == delta as real * k;
    if d > 0 && k <= 0.0 {
      SignOfProduct(delta as real, k);
      assert false;
    }
    if d < 0 && k >= 0.0 {
      SignOfProduct(delta as real, k);
      assert false;
    }
  }

  lemma SignOfProduct(a: real, b: real)
    requires a >= 0.0
    ensures b <= 0.0 ==> a * b <= 0.0
    ensures b >= 0.0 ==> a * b >= 0.0
  {
  }

  // ----- the last reading -----

  predicate SameTimes(s: State, t: State) {
    t.lastGyro == s.lastGyro && t.lastGesture == s.lastGesture && t.ticks == s.ticks
  }

  lemma {:induction false} EntriesKeepTimes(s: State, keymap: KeyMap, k: nat, button: Mask, pressed: bool, c: ControllerId)
    requires k <= |keymap|
    ensures SameTimes(s, ReportEntries(s, keymap, k, button, pressed, c))
  {
    if k > 0 {
      EntriesKeepTimes(s, keymap, k - 1, button, pressed, c);
    }
  }

  lemma {:induction false} BitsKeepTimes(cfg: Config, s: State, pressed: Mask, released: Mask, n: nat, c: ControllerId)
    ensures SameTimes(s, ReportBits(cfg, s, pressed, released, n, c))
  {
    if n > 0 {
      BitsKeepTimes(cfg, s, pressed, released, n - 1, c);
      var t := ReportBits(cfg, s, pressed, released, n - 1, c);
      var keymap, down := cfg.KeyMapOf(c), n - 1 in pressed;
      EntriesKeepTimes(t.(reports := t.reports + [Report(n - 1, down, c)]), keymap, |keymap|, {n - 1}, down, c);
    }
  }

  lemma {:induction false} ButtonsKeepGyro(cfg: Config, s: State, buttons: Mask, c: ControllerId)
    requires !s.releaseGestureKeys
    ensures OnButtons(cfg, s, buttons, c).lastGyro == s.lastGyro
    decreases if OnlyReleases(s, buttons, c) then 3 else 5
  {
    var t := ChangeButtons(cfg, s, buttons, c);
    BitsKeepTimes(cfg, s, buttons - s.Buttons(c), s.Buttons(c) - buttons, BUTTON_BITS, c);
    if t.releaseGestureKeys {
      if OnlyReleases(s, buttons, c) {
        ReleasesBlockGestures(cfg, s, buttons);
      }
      GestureKeepsGyro(cfg, t.(releaseGestureKeys := false), 0, 0);
    }
  }

  lemma {:induction false} GestureKeepsGyro(cfg: Config, s: State, gx: int, gy: int)
    requires !s.releaseGestureKeys
    ensures OnGesture(cfg, s, gx, gy).lastGyro == s.lastGyro
    decreases if GesturesBlocked(cfg, s) then 2 else if gx == 0 && gy == 0 then 4 else 6
  {
    if GestureCounts(cfg, s) {
      ButtonsKeepGyro(cfg, s.(ticks := s.ticks + 1), GestureMask(cfg, s, gx, gy), Second);
    }
  }

  /** When the last gyroscope value since the last reset came. */
  ghost function LastGyroTime(cfg: Config, calls: seq<Call>): TimeSpec {
    if calls == [] then NO_TIME
    else
      var before := calls[..|calls| - 1];
      match calls[|calls| - 1]
      case CallGyroscope(_, _) => cfg.clock(Run(cfg, before).ticks)
      case CallReset => NO_TIME
      case _ => LastGyroTime(cfg, before)
  }

  /** In every run, the time that a pointer movement is measured from is that of the last gyroscope value since the last
  reset, if there is one. */
  lemma {:induction false} RunsKeepGyroTime(cfg: Config, calls: seq<Call>)
    ensures Run(cfg, calls).lastGyro == LastGyroTime(cfg, calls)
  {
    if calls != [] {
      var before := calls[..|calls| - 1];
      var s := Run(cfg, before);
      RunsKeepGyroTime(cfg, before);
      match calls[|calls| - 1]
      case CallButtons(buttons, c) => ButtonsKeepGyro(cfg, s, buttons, c);
      case CallGesture(gx, gy) => GestureKeepsGyro(cfg, s, gx, gy);
      case CallGyroscope(gx, gy) => MoveIff(cfg, s, gx, gy);
      case CallReset =>
    }
  }

  /** Has there been a gyroscope value since the last reset? */
  predicate HasReading(calls: seq<Call>) {
    calls != [] &&
    match calls[|calls| - 1]
    case CallGyroscope(_, _) => true
    case CallReset => false
    case _ => HasReading(calls[..|calls| - 1])
  }

  predicate CountsAsReading(time: TimeSpec) {
    time.sec != 0 && time.nsec != 0
  }

  /** In every run, the next gyroscope value is taken for the first one exactly if it is, or if the last one came at a
  time with a field that is 0. */
  lemma ReadingCountsIff(cfg: Config, calls: seq<Call>)
    ensures CountsAsReading(Run(cfg, calls).lastGyro) <==> HasReading(calls) && CountsAsReading(LastGyroTime(cfg, calls))
  {
    RunsKeepGyroTime(cfg, calls);
    NoReadingNoTime(cfg, calls);
  }

  lemma {:induction false} NoReadingNoTime(cfg: Config, calls: seq<Call>)
    ensures !HasReading(calls) ==> LastGyroTime(cfg, calls) == NO_TIME
  {
    if calls != [] {
      NoReadingNoTime(cfg, calls[..|calls| - 1]);
    }
  }

  /** So a movement is lost when the reading before it comes at a whole second. */
  lemma WholeSecondIsIgnored(cfg: Config, gx: int, gy: int, hx: int, hy: int)
    requires cfg.clock(0).nsec == 0
    ensures Run(cfg, [CallGyroscope(gx, gy), CallGyroscope(hx, hy)]).events == []
  {
    var first, second := CallGyroscope(gx, gy), CallGyroscope(hx, hy);
    assert [first][..0] == [] && [first, second][..1] == [first];
    assert Run(cfg, [first]) == OnGyroscope(cfg, INITIAL, gx, gy);
    assert Run(cfg, [first, second]) == OnGyroscope(cfg, Run(cfg, [first]), hx, hy);
  }

  // ----- gestures -----

  /** The gesture buttons in `b` are those of the movements along the axes, the other ones those of `was`. */
  predicate GesturesSet(was: Mask, b: Mask, x: real, y: real, threshold: int) {
    && (RIGHT in b <==> Forward(x, threshold)) && (LEFT in b <==> Backward(x, threshold))
    && (UP in b <==> Forward(y, threshold)) && (DOWN in b <==> Backward(y, threshold))
    && (forall n :: 0 <= n < GESTURE_MASK_END ==> (n in b <==> n in was))
    && (forall n :: n in b ==> n <= RIGHT)
  }

  lemma MaskDirections(cfg: Config, s: State, gx: int, gy: int)
    ensures var delta := TimeDelta(cfg.clock(s.ticks), s.lastGesture);
      GesturesSet(s.buttons2, GestureMask(cfg, s, gx, gy), Along(gx, delta, cfg.cx), Along(gy, delta, cfg.cy), cfg.gestureThreshold)
  {
    var delta := TimeDelta(cfg.clock(s.ticks), s.lastGesture);
    DistanceMoves(gx, delta, cfg.cx, cfg.gestureThreshold);
    DistanceMoves(gy, delta, cfg.cy, cfg.gestureThreshold);
    MaskGestures(cfg, s, gx, gy, Distance(gx, delta, cfg.cx, cfg.gestureThreshold), Distance(gy, delta, cfg.cy, cfg.gestureThreshold),
                 Along(gx, delta, cfg.cx), Along(gy, delta, cfg.cy));
  }

  lemma MaskGestures(cfg: Config, s: State, gx: int, gy: int, dx: int, dy: int, x: real, y: real)
    requires dx == Distance(gx, TimeDelta(cfg.clock(s.ticks), s.lastGesture), cfg.cx, cfg.gestureThreshold)
    requires dy == Distance(gy, TimeDelta(cfg.clock(s.ticks), s.lastGesture), cfg.cy, cfg.gestureThreshold)
    requires IsMove(dx, x, cfg.gestureThreshold) && IsMove(dy, y, cfg.gestureThreshold)
    ensures GesturesSet(s.buttons2, GestureMask(cfg, s, gx, gy), x, y, cfg.gestureThreshold)
  {
    MaskButtons(cfg, s, gx, gy, dx, dy);
  }

  lemma MaskButtons(cfg: Config, s: State, gx: int, gy: int, dx: int, dy: int)
    requires dx == Distance(gx, TimeDelta(cfg.clock(s.ticks), s.lastGesture), cfg.cx, cfg.gestureThreshold)
    requires dy == Distance(gy, TimeDelta(cfg.clock(s.ticks), s.lastGesture), cfg.cy, cfg.gestureThreshold)
    ensures var b := GestureMask(cfg, s, gx, gy);
      && (RIGHT in b <==> dx > 0) && (LEFT in b <==> dx < 0) && (UP in b <==> dy > 0) && (DOWN in b <==> dy < 0)
      && (forall n :: 0 <= n < GESTURE_MASK_END ==> (n in b <==> n in s.buttons2))
      && (forall n :: n in b ==> n <= RIGHT)
  {
    assert GestureMask(cfg, s, gx, gy) == GestureButtons(dx, dy) + WithoutGestures(s.buttons2);
  }

  /** A gesture that counts sets the second controller's buttons to the mask. */
  lemma GestureSetsButtons(cfg: Config, s: State, gx: int, gy: int)
    requires !s.releaseGestureKeys && TriggerIsNoGesture(cfg.keymap2) && GestureCounts(cfg, s)
    ensures var t := OnGesture(cfg, s, gx, gy);
      && t.buttons1 == s.buttons1 && t.buttons2 == GestureMask(cfg, s, gx, gy)
      && t.lastGesture == cfg.clock(s.ticks) && t.ticks == s.ticks + 1
  {
    var buttons, t := GestureMask(cfg, s, gx, gy), s.(ticks := s.ticks + 1);
    GestureBitsKeepTrigger(cfg, t, buttons - s.buttons2, s.buttons2 - buttons, BUTTON_BITS);
    BitsKeepTimes(cfg, t, buttons - s.buttons2, s.buttons2 - buttons, BUTTON_BITS, Second);
    ScanAddsFlags(cfg, t, buttons - s.buttons2, s.buttons2 - buttons, BUTTON_BITS, Second, Second, 0);
  }

  /** After a gesture that counts, a gesture button is held exactly if the movement along its axis is that way; the
  other buttons of the second controller, and those of the first, are as before. */
  lemma GestureDirections(cfg: Config, s: State, gx: int, gy: int)
    requires !s.releaseGestureKeys && TriggerIsNoGesture(cfg.keymap2)
    requires s.lastGesture.sec != 0 && s.lastGesture.nsec != 0
    requires s.gestureTrigger || !Maps(cfg.keymap2, KEY_PSMOVE_GESTURE_TRIGGER)
    ensures var now, t := cfg.clock(s.ticks), OnGesture(cfg, s, gx, gy);
      var delta := TimeDelta(now, s.lastGesture);
      && GesturesSet(s.buttons2, t.buttons2, Along(gx, delta, cfg.cx), Along(gy, delta, cfg.cy), cfg.gestureThreshold)
      && t.buttons1 == s.buttons1 && t.lastGesture == now && t.ticks == s.ticks + 1
  {
    GestureSetsButtons(cfg, s, gx, gy);
    MaskDirections(cfg, s, gx, gy);
  }

  /** A gesture that does not count changes nothing but the clock and the time. */
  lemma GestureIgnored(cfg: Config, s: State, gx: int, gy: int)
    requires !s.releaseGestureKeys
    requires s.lastGesture.sec == 0 || s.lastGesture.nsec == 0 ||
      (!s.gestureTrigger && Maps(cfg.keymap2, KEY_PSMOVE_GESTURE_TRIGGER))
    ensures OnGesture(cfg, s, gx, gy) == s.(ticks := s.ticks + 1, lastGesture := cfg.clock(s.ticks))
  {
  }

  /** After a reset, the first reading of either kind only sets the time, and no button or trigger is held. */
  lemma ResetForgets(cfg: Config, s: State, gx: int, gy: int)
    requires !s.releaseGestureKeys
    ensures var r := Reset(s);
      && OnGyroscope(cfg, r, gx, gy) == r.(ticks := s.ticks + 1, lastGyro := cfg.clock(s.ticks))
      && OnGesture(cfg, r, gx, gy) == r.(ticks := s.ticks + 1, lastGesture := cfg.clock(s.ticks))
      && r.buttons1 == r.buttons2 == {} && !r.moveTrigger && !r.gestureTrigger && r.events == s.events
  {
    GestureIgnored(cfg, Reset(s), gx, gy);
  }
}
