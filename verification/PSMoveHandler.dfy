/** The class PSMoveHandler, proved against `HandlerModel` (psmove_handler.cpp).  One call runs at a time. */
module PSMoveHandler {
  import opened Controllers
  import opened HandlerModel

  class PSMoveHandler {
    const keymap1: KeyMap
    const keymap2: KeyMap
    const cx: real
    const cy: real
    const moveThreshold: int
    const gestureThreshold: int
    const clock: nat -> TimeSpec
    var buttons1: Mask
    var buttons2: Mask
    var lastGyroTp: TimeSpec
    var lastGestureTp: TimeSpec
    var useMoveTrigger: bool
    var moveTrigger: bool
    var useGestureTrigger: bool
    var gestureTrigger: bool
    var releaseGestureKeys: bool
    var ticks: nat
    ghost var events: seq<Event>
    ghost var reports: seq<Report>

    ghost function Cfg(): Config {
      Config(keymap1, keymap2, cx, cy, moveThreshold, gestureThreshold, clock)
    }

    ghost function St(): State
      reads this
    {
      State(buttons1, buttons2, lastGyroTp, lastGestureTp, moveTrigger, gestureTrigger, releaseGestureKeys, ticks, events, reports)
    }

    ghost predicate Triggers()
      reads this
    {
      useMoveTrigger == Cfg().UseMoveTrigger() && useGestureTrigger == Cfg().UseGestureTrigger()
    }

    /** Between calls, no gesture keys wait to be released. */
    ghost predicate Valid()
      reads this
    {
      Triggers() && !releaseGestureKeys
    }

    constructor (keymap1: KeyMap, keymap2: KeyMap, cx: real, cy: real, moveThreshold: int, gestureThreshold: int,
                 clock: nat -> TimeSpec)
      ensures Valid() && St() == INITIAL
      ensures Cfg() == Config(keymap1, keymap2, cx, cy, moveThreshold, gestureThreshold, clock)
    {
      this.keymap1, this.keymap2, this.cx, this.cy := keymap1, keymap2, cx, cy;
      this.moveThreshold, this.gestureThreshold, this.clock := moveThreshold, gestureThreshold, clock;
      useMoveTrigger, moveTrigger, useGestureTrigger, gestureTrigger := false, false, false, false;
      releaseGestureKeys := false;
      lastGyroTp, lastGestureTp := NO_TIME, NO_TIME;
      buttons1, buttons2 := {}, {};
      ticks, events, reports := 0, [], [];
      new;
      CheckTriggers();
    }

    method CheckTriggers()
      requires !useMoveTrigger && !useGestureTrigger
      modifies `useMoveTrigger, `useGestureTrigger
      ensures Triggers()
    {
      var i := 0;
      while i < |keymap1|
        invariant 0 <= i <= |keymap1| && !useMoveTrigger && !useGestureTrigger
        invariant forall k :: 0 <= k < i ==> keymap1[k].lincode != KEY_PSMOVE_MOVE_TRIGGER
      {
        if keymap1[i].lincode == KEY_PSMOVE_MOVE_TRIGGER {
          useMoveTrigger := true;
          break;
        }
        i := i + 1;
      }
      i := 0;
      while i < |keymap2|
        invariant 0 <= i <= |keymap2| && !useGestureTrigger && useMoveTrigger == Cfg().UseMoveTrigger()
        invariant forall k :: 0 <= k < i ==> keymap2[k].lincode != KEY_PSMOVE_GESTURE_TRIGGER
      {
        if keymap2[i].lincode == KEY_PSMOVE_GESTURE_TRIGGER {
          useGestureTrigger := true;
          break;
        }
        i := i + 1;
      }
    }

    method ClockGettime() returns (tp: TimeSpec)
      modifies `ticks
      ensures tp == clock(old(ticks)) && ticks == old(ticks) + 1
    {
      tp := clock(ticks);
      ticks := ticks + 1;
    }

    method HandleSpecialKeys(lincode: int, controller: ControllerId, pressed: bool) returns (ret: bool)
      modifies this
      ensures (St(), ret) == HandlerModel.HandleSpecialKeys(old(St()), lincode, controller, pressed)
      ensures useMoveTrigger == old(useMoveTrigger) && useGestureTrigger == old(useGestureTrigger)
    {
      ret := false;
      if lincode == KEY_PSMOVE_DISCONNECT {
        events := events + [Disconnect(controller)];
        ret := true;
      } else if controller == First && lincode == KEY_PSMOVE_MOVE_TRIGGER {
        moveTrigger := pressed;
        ret := true;
      } else if controller == Second && lincode == KEY_PSMOVE_GESTURE_TRIGGER {
        if gestureTrigger && !pressed {
          releaseGestureKeys := true;
        }
        gestureTrigger := pressed;
        ret := true;
      } else if lincode == KEY_PSMOVE_MWHEEL_UP && pressed {
        events := events + [MWheel(1)];
        ret := true;
      } else if lincode == KEY_PSMOVE_MWHEEL_DOWN && pressed {
        events := events + [MWheel(-1)];
        ret := true;
      }
    }

    /** `n` is the position of the button's bit. */
    method ReportKey(button: Mask, ghost n: nat, pressed: bool, controller: ControllerId)
      requires button == {n}
      modifies this
      ensures St() == HandlerModel.ReportKey(Cfg(), old(St()), n, pressed, controller)
      ensures useMoveTrigger == old(useMoveTrigger) && useGestureTrigger == old(useGestureTrigger)
    {
      reports := reports + [Report(n, pressed, controller)];
      ghost var s := St();
      var keymap := if controller == First then keymap1 else keymap2;
      var i := 0;
      while i < |keymap|
        invariant 0 <= i <= |keymap|
        invariant St() == ReportEntries(s, keymap, i, button, pressed, controller)
        invariant useMoveTrigger == old(useMoveTrigger) && useGestureTrigger == old(useGestureTrigger)
      {
        var entry := keymap[i];
        if entry.pscode == button {
          var special := HandleSpecialKeys(entry.lincode, controller, pressed);
          if !special {
            events := events + [Key(entry.lincode, pressed)];
          }
        }
        i := i + 1;
      }
    }

    /** The loop over the bits 1, 2, 4, ..., BTN_GESTURE_RIGHT. */
    method ScanButtons(pressed: Mask, released: Mask, controller: ControllerId)
      modifies this
      ensures St() == ReportBits(Cfg(), old(St()), pressed, released, BUTTON_BITS, controller)
      ensures useMoveTrigger == old(useMoveTrigger) && useGestureTrigger == old(useGestureTrigger)
    {
      var n := 0;
      while n <= RIGHT
        invariant 0 <= n <= BUTTON_BITS
        invariant St() == ReportBits(Cfg(), old(St()), pressed, released, n, controller)
        invariant useMoveTrigger == old(useMoveTrigger) && useGestureTrigger == old(useGestureTrigger)
      {
        var bit: Mask := {n};
        if n in pressed {
          ReportKey(bit, n, true, controller);
        } else if n in released {
          ReportKey(bit, n, false, controller);
        }
        n := n + 1;
      }
    }

    method OnButtons(buttons: Mask, controller: ControllerId)
      requires Valid()
      modifies this
      ensures Valid() && St() == HandlerModel.OnButtons(Cfg(), old(St()), buttons, controller)
      decreases if OnlyReleases(St(), buttons, controller) then 3 else 5
    {
      ghost var s := St();
      var was := if controller == First then buttons1 else buttons2;
      if was != buttons {
        ScanButtons(buttons - was, was - buttons, controller);
        if controller == First {
          buttons1 := buttons;
        } else {
          buttons2 := buttons;
        }
      }
      assert St() == ChangeButtons(Cfg(), s, buttons, controller);
      if releaseGestureKeys {
        if OnlyReleases(s, buttons, controller) {
          ReleasesBlockGestures(Cfg(), s, buttons);
        }
        releaseGestureKeys := false;
        OnGesture(0, 0);
      }
    }

    /** The calculation for one axis, which gestures and the pointer share. */
    static method Movement(g: int, timeDelta: int, coeff: real, threshold: int) returns (d: int)
      ensures d == Distance(g, timeDelta, coeff, threshold)
    {
      d := Truncate((g * timeDelta) as real * coeff);
      if (d > 0 && d < threshold) || (d < 0 && d > -threshold) {
        d := 0;
      }
    }

    /** The buttons of a gesture at time `gestureTp`; `s` is the state before the clock was read. */
    method GestureReport(ghost s: State, gestureTp: TimeSpec, gx: int, gy: int) returns (gestureButtons: Mask)
      requires s.lastGesture == lastGestureTp && s.buttons2 == buttons2 && clock(s.ticks) == gestureTp
      ensures gestureButtons == GestureMask(Cfg(), s, gx, gy)
    {
      var timeDelta := QuotientTowardsZero(gestureTp.nsec - lastGestureTp.nsec, 1000000);
      if timeDelta < 0 {
        timeDelta := timeDelta + 1000;
      }
      var dx := Movement(gx, timeDelta, cx, gestureThreshold);
      var dy := Movement(gy, timeDelta, cy, gestureThreshold);
      gestureButtons := {};
      if dx > 0 {
        gestureButtons := gestureButtons + {RIGHT};
      } else if dx < 0 {
        gestureButtons := gestureButtons + {LEFT};
      }
      if dy > 0 {
        gestureButtons := gestureButtons + {UP};
      } else if dy < 0 {
        gestureButtons := gestureButtons + {DOWN};
      }
      assert gestureButtons == GestureButtons(dx, dy);
      gestureButtons := gestureButtons + WithoutGestures(buttons2);
    }

    method OnGesture(gx: int, gy: int)
      requires Valid()
      modifies this
      ensures Valid() && St() == HandlerModel.OnGesture(Cfg(), old(St()), gx, gy)
      decreases if GesturesBlocked(Cfg(), St()) then 2 else if gx == 0 && gy == 0 then 4 else 6
    {
      ghost var s := St();
      var gestureTp := ClockGettime();
      if lastGestureTp.sec != 0 && lastGestureTp.nsec != 0 {
        if (useGestureTrigger && gestureTrigger) || !useGestureTrigger {
          var gestureButtons := GestureReport(s, gestureTp, gx, gy);
          assert GestureCounts(Cfg(), s) && St() == s.(ticks := s.ticks + 1);
          OnButtons(gestureButtons, Second);
        }
      }
      lastGestureTp := gestureTp;
    }

    method OnGyroscope(gx: int, gy: int)
      requires Valid()
      modifies this
      ensures Valid() && St() == HandlerModel.OnGyroscope(Cfg(), old(St()), gx, gy)
    {
      var gyroTp := ClockGettime();
      if lastGyroTp.sec != 0 && lastGyroTp.nsec != 0 {
        if (useMoveTrigger && moveTrigger) || !useMoveTrigger {
          var timeDelta := QuotientTowardsZero(gyroTp.nsec - lastGyroTp.nsec, 1000000);
          if timeDelta < 0 {
            timeDelta := timeDelta + 1000;
          }
          var dx := Movement(gx, timeDelta, cx, moveThreshold);
          var dy := Movement(gy, timeDelta, cy, moveThreshold);
          if dx != 0 || dy != 0 {
            events := events + [Move(dx, dy)];
          }
        }
      }
      lastGyroTp := gyroTp;
    }

    /** Starts a new log of `reportKey` calls. */
    method Reset()
      requires Valid()
      modifies this
      ensures Valid() && St() == HandlerModel.Reset(old(St()))
    {
      buttons1, buttons2 := {}, {};
      lastGyroTp, lastGestureTp := NO_TIME, NO_TIME;
      moveTrigger, gestureTrigger := false, false;
      reports := [];
    }
  }
}
