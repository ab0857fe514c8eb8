/** What every run of the handler keeps: reports alternate, opposite gestures exclude each other, and the second
controller's reports release the gesture keys (psmove_handler.cpp). */
module HandlerProperties {
  import opened Controllers
  import opened HandlerModel

  // ----- the calls of reportKey, button by button -----

  /** Were the calls for button `n` of a controller presses or releases, in order? */
  function Flags(reports: seq<Report>, c: ControllerId, n: nat): seq<bool> {
    if reports == [] then []
    else
      var last := reports[|reports| - 1];
      Flags(reports[..|reports| - 1], c, n) + if last.n == n && last.controller == c then [last.pressed] else []
  }

  lemma FlagsAppend(reports: seq<Report>, r: Report, c: ControllerId, n: nat)
    ensures Flags(reports + [r], c, n) == Flags(reports, c, n) + if r.n == n && r.controller == c then [r.pressed] else []
  {
    assert (reports + [r])[..|reports|] == reports;
  }

  /** Press, release, press, ... */
  predicate Alternating(flags: seq<bool>) {
    forall i :: 0 <= i < |flags| ==> (flags[i] <==> i % 2 == 0)
  }

  /** A button's calls alternate, starting with a press, and its bit is set exactly if the last call was a press. */
  ghost predicate ButtonConsistent(s: State, c: ControllerId, n: nat)
    requires n < BUTTON_BITS
  {
    var flags := Flags(s.reports, c, n);
    Alternating(flags) && (n in s.Buttons(c) <==> flags != [] && flags[|flags| - 1])
  }

  ghost predicate Consistent(s: State) {
    forall c, n :: 0 <= n < BUTTON_BITS ==> ButtonConsistent(s, c, n)
  }

  // ----- the effect of one change of buttons -----

  /** Handling the key map changes no buttons and calls `reportKey` no more. */
  lemma {:induction false} EntriesKeepReports(s: State, keymap: KeyMap, n: nat, button: Mask, pressed: bool, c: ControllerId)
    requires n <= |keymap|
    ensures var t := ReportEntries(s, keymap, n, button, pressed, c);
      t.reports == s.reports && t.buttons1 == s.buttons1 && t.buttons2 == s.buttons2
  {
    if n > 0 {
      EntriesKeepReports(s, keymap, n - 1, button, pressed, c);
    }
  }

  lemma ReportKeyAddsFlag(cfg: Config, s: State, n: nat, pressed: bool, c: ControllerId, d: ControllerId, m: nat)
    requires n < BUTTON_BITS
    ensures var t := ReportKey(cfg, s, n, pressed, c);
      && t.buttons1 == s.buttons1 && t.buttons2 == s.buttons2
      && Flags(t.reports, d, m) == Flags(s.reports, d, m) + if n == m && c == d then [pressed] else []
  {
    var r := Report(n, pressed, c);
    FlagsAppend(s.reports, r, d, m);
    EntriesKeepReports(s.(reports := s.reports + [r]), cfg.KeyMapOf(c), |cfg.KeyMapOf(c)|, {n}, pressed, c);
  }

  /** The call, if any, that the masks ask for at bit `m`. */
  function BitFlags(pressed: Mask, released: Mask, m: nat): seq<bool>
    requires m < BUTTON_BITS
  {
    if m in pressed then [true] else if m in released then [false] else []
  }

  lemma ReportBitAddsFlags(cfg: Config, s: State, pressed: Mask, released: Mask, n: nat, c: ControllerId, d: ControllerId, m: nat)
    requires n < BUTTON_BITS && m < BUTTON_BITS
    ensures var t := ReportBit(cfg, s, pressed, released, n, c);
      && t.buttons1 == s.buttons1 && t.buttons2 == s.buttons2
      && Flags(t.reports, d, m) ==
         Flags(s.reports, d, m) + if d == c && m == n then BitFlags(pressed, released, m) else []
  {
    ReportKeyAddsFlag(cfg, s, n, n in pressed, c, d, m);
  }

  lemma {:induction false} ScanAddsFlags(cfg: Config, s: State, pressed: Mask, released: Mask, n: nat, c: ControllerId,
                                         d: ControllerId, m: nat)
    requires n <= BUTTON_BITS && m < BUTTON_BITS
    ensures var t := ReportBits(cfg, s, pressed, released, n, c);
      && t.buttons1 == s.buttons1 && t.buttons2 == s.buttons2
      && Flags(t.reports, d, m) ==
         Flags(s.reports, d, m) + if d == c && m < n then BitFlags(pressed, released, m) else []
  {
    if n > 0 {
      ScanAddsFlags(cfg, s, pressed, released, n - 1, c, d, m);
      ReportBitAddsFlags(cfg, ReportBits(cfg, s, pressed, released, n - 1, c), pressed, released, n - 1, c, d, m);
    }
  }

  /** One call for every bit of the reporting controller that changes, and no other call. */
  lemma ChangeAddsFlags(cfg: Config, s: State, buttons: Mask, c: ControllerId, d: ControllerId, m: nat)
    requires m < BUTTON_BITS
    ensures var t := ChangeButtons(cfg, s, buttons, c);
      && t.Buttons(d) == (if d == c then buttons else s.Buttons(d))
      && Flags(t.reports, d, m) == Flags(s.reports, d, m) +
         if (m in t.Buttons(d)) != (m in s.Buttons(d)) then [m in t.Buttons(d)] else []
  {
    var was := s.Buttons(c);
    ScanAddsFlags(cfg, s, buttons - was, was - buttons, BUTTON_BITS, c, d, m);
  }

  lemma ChangeKeepsButton(cfg: Config, s: State, buttons: Mask, c: ControllerId, d: ControllerId, m: nat)
    requires m < BUTTON_BITS && ButtonConsistent(s, d, m)
    ensures ButtonConsistent(ChangeButtons(cfg, s, buttons, c), d, m)
  {
    ChangeAddsFlags(cfg, s, buttons, c, d, m);
  }

  lemma ChangeKeepsConsistent(cfg: Config, s: State, buttons: Mask, c: ControllerId)
    requires Consistent(s)
    ensures Consistent(ChangeButtons(cfg, s, buttons, c))
  {
    forall d: ControllerId, m: nat | m < BUTTON_BITS
      ensures ButtonConsistent(ChangeButtons(cfg, s, buttons, c), d, m)
    {
      assert ButtonConsistent(s, d, m);
      ChangeKeepsButton(cfg, s, buttons, c, d, m);
    }
  }

  // ----- whole calls -----

  lemma {:induction false} ButtonsKeepConsistent(cfg: Config, s: State, buttons: Mask, c: ControllerId)
    requires !s.releaseGestureKeys && Consistent(s)
    ensures Consistent(OnButtons(cfg, s, buttons, c))
    decreases if OnlyReleases(s, buttons, c) then 3 else 5
  {
    var t := ChangeButtons(cfg, s, buttons, c);
    ChangeKeepsConsistent(cfg, s, buttons, c);
    if t.releaseGestureKeys {
      if OnlyReleases(s, buttons, c) {
        ReleasesBlockGestures(cfg, s, buttons);
      }
      var u := t.(releaseGestureKeys := false);
      SameReports(t, u);
      GestureKeepsConsistent(cfg, u, 0, 0);
    }
  }

  lemma {:induction false} GestureKeepsConsistent(cfg: Config, s: State, gx: int, gy: int)
    requires !s.releaseGestureKeys && Consistent(s)
    ensures Consistent(OnGesture(cfg, s, gx, gy))
    decreases if GesturesBlocked(cfg, s) then 2 else if gx == 0 && gy == 0 then 4 else 6
  {
    var t := s.(ticks := s.ticks + 1);
    SameReports(s, t);
    var u := t;
    if GestureCounts(cfg, s) {
      ButtonsKeepConsistent(cfg, t, GestureMask(cfg, s, gx, gy), Second);
      u := OnButtons(cfg, t, GestureMask(cfg, s, gx, gy), Second);
    }
    SameReports(u, u.(lastGesture := cfg.clock(s.ticks)));
  }

  lemma SameReports(s: State, t: State)
    requires Consistent(s) && t.reports == s.reports && t.buttons1 == s.buttons1 && t.buttons2 == s.buttons2
    ensures Consistent(t)
  {
    forall d: ControllerId, m: nat | m < BUTTON_BITS
      ensures ButtonConsistent(t, d, m)
    {
      assert ButtonConsistent(s, d, m);
    }
  }

  /** In every run, the calls for each button since the last reset alternate press and release, starting with a
  press, and the button's bit is set exactly if the last call was a press. */
  lemma {:induction false} RunsAlternate(cfg: Config, calls: seq<Call>)
    ensures Consistent(Run(cfg, calls))
  {
    if calls != [] {
      var s := Run(cfg, calls[..|calls| - 1]);
      RunsAlternate(cfg, calls[..|calls| - 1]);
      match calls[|calls| - 1]
      case CallButtons(buttons, c) => ButtonsKeepConsistent(cfg, s, buttons, c);
      case CallGesture(gx, gy) => GestureKeepsConsistent(cfg, s, gx, gy);
      case CallGyroscope(gx, gy) => SameReports(s, OnGyroscope(cfg, s, gx, gy));
      case CallReset =>
    }
  }

  // ----- gestures -----

  /** Opposite gestures are never held together. */
  predicate Exclusive(b: Mask) {
    !(LEFT in b && RIGHT in b) && !(UP in b && DOWN in b)
  }

  /** A report of the second controller has no gesture bits; they are the handler's own. */
  predicate FromController(buttons: Mask, c: ControllerId) {
    c.Second? ==> WithoutGestures(buttons) == buttons
  }

  lemma {:induction false} ButtonsKeepExclusive(cfg: Config, s: State, buttons: Mask, c: ControllerId)
    requires !s.releaseGestureKeys && Exclusive(s.buttons2) && (c.Second? ==> Exclusive(buttons))
    ensures Exclusive(OnButtons(cfg, s, buttons, c).buttons2)
    decreases if OnlyReleases(s, buttons, c) then 3 else 5
  {
    var t := ChangeButtons(cfg, s, buttons, c);
    ChangeAddsFlags(cfg, s, buttons, c, Second, 0);
    if t.releaseGestureKeys {
      if OnlyReleases(s, buttons, c) {
        ReleasesBlockGestures(cfg, s, buttons);
      }
      GestureKeepsExclusive(cfg, t.(releaseGestureKeys := false), 0, 0);
    }
  }

  lemma {:induction false} GestureKeepsExclusive(cfg: Config, s: State, gx: int, gy: int)
    requires !s.releaseGestureKeys && Exclusive(s.buttons2)
    ensures Exclusive(OnGesture(cfg, s, gx, gy).buttons2)
    decreases if GesturesBlocked(cfg, s) then 2 else if gx == 0 && gy == 0 then 4 else 6
  {
    if GestureCounts(cfg, s) {
      ButtonsKeepExclusive(cfg, s.(ticks := s.ticks + 1), GestureMask(cfg, s, gx, gy), Second);
    }
  }

  /** In every run in which the second controller reports no gesture bits, opposite gestures exclude each other. */
  lemma {:induction false} RunsKeepGesturesExclusive(cfg: Config, calls: seq<Call>)
    requires forall i :: 0 <= i < |calls| && calls[i].CallButtons? ==> FromController(calls[i].buttons, calls[i].c)
    ensures Exclusive(Run(cfg, calls).buttons2)
  {
    if calls != [] {
      var s := Run(cfg, calls[..|calls| - 1]);
      RunsKeepGesturesExclusive(cfg, calls[..|calls| - 1]);
      match calls[|calls| - 1]
      case CallButtons(buttons, c) =>
        assert c.Second? ==> forall n :: n in buttons ==> n in WithoutGestures(buttons);
        ButtonsKeepExclusive(cfg, s, buttons, c);
      case CallGesture(gx, gy) => GestureKeepsExclusive(cfg, s, gx, gy);
      case CallGyroscope(gx, gy) =>
      case CallReset =>
    }
  }

  /** A report that changes nothing calls nothing and sets off no gesture. */
  lemma UnchangedButtons(cfg: Config, s: State, c: ControllerId)
    requires !s.releaseGestureKeys
    ensures OnButtons(cfg, s, s.Buttons(c), c) == s
  {
  }

  /** The first controller does not touch the gesture trigger, nor ask for gesture keys to be released. */
  lemma {:induction false} FirstKeepsTrigger(cfg: Config, s: State, pressed: Mask, released: Mask, n: nat)
    requires !s.releaseGestureKeys
    ensures var t := ReportBits(cfg, s, pressed, released, n, First);
      !t.releaseGestureKeys && t.gestureTrigger == s.gestureTrigger
  {
    if n > 0 {
      FirstKeepsTrigger(cfg, s, pressed, released, n - 1);
      var t := ReportBits(cfg, s, pressed, released, n - 1, First);
      FirstEntriesKeepTrigger(t.(reports := t.reports + [Report(n - 1, true, First)]), cfg.keymap1, |cfg.keymap1|, {n - 1}, true);
      FirstEntriesKeepTrigger(t.(reports := t.reports + [Report(n - 1, false, First)]), cfg.keymap1, |cfg.keymap1|, {n - 1}, false);
    }
  }

  lemma {:induction false} FirstEntriesKeepTrigger(s: State, keymap: KeyMap, n: nat, button: Mask, pressed: bool)
    requires n <= |keymap|
    ensures var t := ReportEntries(s, keymap, n, button, pressed, First);
      t.releaseGestureKeys == s.releaseGestureKeys && t.gestureTrigger == s.gestureTrigger
  {
    if n > 0 {
      FirstEntriesKeepTrigger(s, keymap, n - 1, button, pressed);
    }
  }

  /** A controller's report sets that controller's buttons to what it says, with one call for each scanned bit that
  changes, and leaves the other controller's buttons and calls alone.  In particular, a report of the second
  controller releases every gesture button that is held, once. */
  lemma ControllerReport(cfg: Config, s: State, buttons: Mask, c: ControllerId, d: ControllerId, m: nat)
    requires !s.releaseGestureKeys && FromController(buttons, c) && m < BUTTON_BITS
    ensures var t := OnButtons(cfg, s, buttons, c);
      && t.Buttons(d) == (if d == c then buttons else s.Buttons(d))
      && Flags(t.reports, d, m) == Flags(s.reports, d, m) +
         if d == c && (m in buttons) != (m in s.Buttons(d)) then [m in buttons] else []
  {
    var t := ChangeButtons(cfg, s, buttons, c);
    ChangeAddsFlags(cfg, s, buttons, c, d, m);
    ChangeAddsFlags(cfg, s, buttons, c, c, m);
    if t.releaseGestureKeys {
      var was := s.Buttons(c);
      if c.First? {
        FirstKeepsTrigger(cfg, s, buttons - was, was - buttons, BUTTON_BITS);
        assert false;
      }
      if OnlyReleases(s, buttons, c) {
        ReleasesBlockGestures(cfg, s, buttons);
      }
      NoGestureNoChange(cfg, t.(releaseGestureKeys := false));
    }
  }

  /** A gesture of no distance leaves buttons without gesture bits, and the calls, as they are. */
  lemma NoGestureNoChange(cfg: Config, s: State)
    requires !s.releaseGestureKeys && WithoutGestures(s.buttons2) == s.buttons2
    ensures var t := OnGesture(cfg, s, 0, 0); t.buttons1 == s.buttons1 && t.buttons2 == s.buttons2 && t.reports == s.reports
  {
    assert GestureMask(cfg, s, 0, 0) == s.buttons2;
    UnchangedButtons(cfg, s.(ticks := s.ticks + 1), Second);
  }

  // ----- the gesture trigger -----

  /** No gesture is mapped to the trigger of gestures itself. */
  predicate TriggerIsNoGesture(keymap: KeyMap) {
    forall i, g :: 0 <= i < |keymap| && UP <= g <= RIGHT && keymap[i].pscode == {g} ==>
      keymap[i].lincode != KEY_PSMOVE_GESTURE_TRIGGER
  }

  /** Without their trigger, if there is one, no gestures are held. */
  predicate GesturesNeedTrigger(cfg: Config, s: State) {
    GesturesBlocked(cfg, s) ==> WithoutGestures(s.buttons2) == s.buttons2
  }

  lemma {:induction false} GestureEntriesKeepTrigger(s: State, keymap: KeyMap, n: nat, g: nat, pressed: bool)
    requires TriggerIsNoGesture(keymap) && n <= |keymap| && UP <= g <= RIGHT
    ensures var t := ReportEntries(s, keymap, n, {g}, pressed, Second);
      t.gestureTrigger == s.gestureTrigger && t.releaseGestureKeys == s.releaseGestureKeys
  {
    if n > 0 {
      GestureEntriesKeepTrigger(s, keymap, n - 1, g, pressed);
    }
  }

  lemma {:induction false} GestureBitsKeepTrigger(cfg: Config, s: State, pressed: Mask, released: Mask, n: nat)
    requires TriggerIsNoGesture(cfg.keymap2) && n <= BUTTON_BITS
    requires forall m :: m in pressed || m in released ==> m >= GESTURE_MASK_END
    ensures var t := ReportBits(cfg, s, pressed, released, n, Second);
      t.gestureTrigger == s.gestureTrigger && t.releaseGestureKeys == s.releaseGestureKeys
  {
    if n > 0 {
      GestureBitsKeepTrigger(cfg, s, pressed, released, n - 1);
      var t := ReportBits(cfg, s, pressed, released, n - 1, Second);
      if n - 1 in pressed || n - 1 in released {
        var flag := n - 1 in pressed;
        GestureEntriesKeepTrigger(t.(reports := t.reports + [Report(n - 1, flag, Second)]),
                                  cfg.keymap2, |cfg.keymap2|, n - 1, flag);
      }
    }
  }

  lemma GestureKeepsTrigger(cfg: Config, s: State, gx: int, gy: int)
    requires TriggerIsNoGesture(cfg.keymap2) && !s.releaseGestureKeys
    ensures OnGesture(cfg, s, gx, gy).gestureTrigger == s.gestureTrigger
    ensures GesturesBlocked(cfg, s) ==> OnGesture(cfg, s, gx, gy).buttons2 == s.buttons2
  {
    if GestureCounts(cfg, s) {
      var buttons, t := GestureMask(cfg, s, gx, gy), s.(ticks := s.ticks + 1);
      GestureBitsKeepTrigger(cfg, t, buttons - s.buttons2, s.buttons2 - buttons, BUTTON_BITS);
    }
  }

  lemma ControllerKeepsTriggerRule(cfg: Config, s: State, buttons: Mask, c: ControllerId)
    requires !s.releaseGestureKeys && FromController(buttons, c) && GesturesNeedTrigger(cfg, s)
    ensures GesturesNeedTrigger(cfg, OnButtons(cfg, s, buttons, c))
  {
    ControllerReport(cfg, s, buttons, c, Second, 0);
    if c.First? {
      FirstKeepsTrigger(cfg, s, buttons - s.buttons1, s.buttons1 - buttons, BUTTON_BITS);
    }
  }

  /** In every run with controllers that report no gesture bits, and with no gesture mapped to the gesture trigger,
  gesture buttons are held only while the trigger, if there is one, is. */
  lemma {:induction false} RunsHoldGesturesUnderTrigger(cfg: Config, calls: seq<Call>)
    requires TriggerIsNoGesture(cfg.keymap2)
    requires forall i :: 0 <= i < |calls| && calls[i].CallButtons? ==> FromController(calls[i].buttons, calls[i].c)
    ensures GesturesNeedTrigger(cfg, Run(cfg, calls))
  {
    if calls != [] {
      var s := Run(cfg, calls[..|calls| - 1]);
      RunsHoldGesturesUnderTrigger(cfg, calls[..|calls| - 1]);
      match calls[|calls| - 1]
      case CallButtons(buttons, c) => ControllerKeepsTriggerRule(cfg, s, buttons, c);
      case CallGesture(gx, gy) => GestureKeepsTrigger(cfg, s, gx, gy);
      case CallGyroscope(gx, gy) =>
      case CallReset =>
    }
  }

  // ----- time and distance -----

  predicate ValidTime(t: TimeSpec) {
    0 <= t.nsec < 1_000_000_000
  }

  function Nanoseconds(t: TimeSpec): int {
    t.sec * 1_000_000_000 + t.nsec
  }

  /** The time difference is a number of milliseconds below a second, and within a millisecond of the elapsed time,
  up to whole seconds. */
  lemma TimeDeltaModuloOneSecond(now: TimeSpec, last: TimeSpec) returns (seconds: int)
    requires ValidTime(now) && ValidTime(last)
    ensures 0 <= TimeDelta(now, last) <= 999
    ensures -1_000_000 <
      TimeDelta(now, last) * 1_000_000 + seconds * 1_000_000_000 - (Nanoseconds(now) - Nanoseconds(last)) < 1_000_000
  {
    var n := now.nsec - last.nsec;
    seconds := now.sec - last.sec - if QuotientTowardsZero(n, 1000000) < 0 then 1 else 0;
  }

  /** A movement one way is as far as the same movement the other way; and none is shorter than the threshold. */
  lemma DistanceIsOdd(g: int, timeDelta: int, coeff: real, threshold: int)
    ensures Distance(-g, timeDelta, coeff, threshold) == -Distance(g, timeDelta, coeff, threshold)
    ensures var d := Distance(g, timeDelta, coeff, threshold); d == 0 || d >= threshold || -d >= threshold
  {
    var x := (g * timeDelta) as real * coeff;
    assert -g * timeDelta == -(g * timeDelta);
    assert (-(g * timeDelta)) as real == -((g * timeDelta) as real);
    assert ((-g) * timeDelta) as real * coeff == -x;
    assert Truncate(-x) == -Truncate(x);
  }
}
