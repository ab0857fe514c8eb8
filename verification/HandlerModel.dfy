/** What PSMoveHandler computes (psmove_handler.cpp), as functions from one state to the next. */
module HandlerModel {
  import opened Controllers

  // ----- buttons -----

  /** An `int` used as a bit mask, as the set of positions of its bits: bit `n` is the mask 1 << n, and the
  operators ~, & and | become difference, intersection and union. */
  type Mask = set<nat>

  /** The positions of BTN_GESTURE_UP (0x01000000), ..., BTN_GESTURE_RIGHT (0x08000000). */
  const UP: nat := 24
  const DOWN: nat := 25
  const LEFT: nat := 26
  const RIGHT: nat := 27

  /** BTN_GESTURE_MASK (0x00FFFFFF) has the bits below this one. */
  const GESTURE_MASK_END: nat := 24

  /** The bits 1, 2, 4, ..., BTN_GESTURE_RIGHT are scanned. */
  const BUTTON_BITS: nat := RIGHT + 1

  /** `b & BTN_GESTURE_MASK`. */
  function WithoutGestures(b: Mask): Mask {
    set n | n in b && n < GESTURE_MASK_END
  }

  // ----- keys -----

  const KEY_MAX: int := 0x2ff
  const KEY_PSMOVE_DISCONNECT: int := KEY_MAX + 1
  const KEY_PSMOVE_MOVE_TRIGGER: int := KEY_MAX + 2
  const KEY_PSMOVE_GESTURE_TRIGGER: int := KEY_MAX + 3
  const KEY_PSMOVE_MWHEEL_UP: int := KEY_MAX + 4
  const KEY_PSMOVE_MWHEEL_DOWN: int := KEY_MAX + 5

  datatype KeyMapEntry = KeyMapEntry(pscode: Mask, lincode: int)

  type KeyMap = seq<KeyMapEntry>

  predicate Maps(keymap: KeyMap, lincode: int) {
    exists i :: 0 <= i < |keymap| && keymap[i].lincode == lincode
  }

  /** The signals that the handler raises. */
  datatype Event = Move(dx: int, dy: int) | Key(code: int, pressed: bool) | Disconnect(id: ControllerId) | MWheel(value: int)

  /** A call of `reportKey`, for the button of bit `n`. */
  datatype Report = Report(n: nat, pressed: bool, controller: ControllerId)

  datatype TimeSpec = TimeSpec(sec: int, nsec: int)

  /** What does not change after construction; `clock(n)` is the n-th reading of the clock. */
  datatype Config = Config(keymap1: KeyMap, keymap2: KeyMap, cx: real, cy: real, moveThreshold: int, gestureThreshold: int,
                           clock: nat -> TimeSpec)
  {
    predicate UseMoveTrigger() {
      Maps(keymap1, KEY_PSMOVE_MOVE_TRIGGER)
    }

    predicate UseGestureTrigger() {
      Maps(keymap2, KEY_PSMOVE_GESTURE_TRIGGER)
    }

    function KeyMapOf(c: ControllerId): KeyMap {
      if c.First? then keymap1 else keymap2
    }
  }

  /** The fields that change, the number of clock readings, the signals raised and the `reportKey` calls since the
  last reset. */
  datatype State = State(buttons1: Mask, buttons2: Mask, lastGyro: TimeSpec, lastGesture: TimeSpec,
                         moveTrigger: bool, gestureTrigger: bool, releaseGestureKeys: bool,
                         ticks: nat, events: seq<Event>, reports: seq<Report>)
  {
    function Buttons(c: ControllerId): Mask {
      if c.First? then buttons1 else buttons2
    }

    function WithButtons(c: ControllerId, b: Mask): State {
      if c.First? then this.(buttons1 := b) else this.(buttons2 := b)
    }
  }

  const NO_TIME := TimeSpec(0, 0)
  const INITIAL := State({}, {}, NO_TIME, NO_TIME, false, false, false, 0, [], [])

  // ----- pointer arithmetic -----

  /** C's division of a signed integer: towards zero. */
  function QuotientTowardsZero(n: int, d: int): int
    requires d > 0
  {
    if n >= 0 then n / d else -((-n) / d)
  }

  /** C's conversion of a floating-point number to an integer: towards zero. */
  function Truncate(x: real): int {
    if x >= 0.0 then x.Floor else -((-x).Floor)
  }

  /** Milliseconds between two readings, from their nanoseconds alone. */
  function TimeDelta(now: TimeSpec, last: TimeSpec): int {
    var delta := QuotientTowardsZero(now.nsec - last.nsec, 1000000);
    if delta < 0 then delta + 1000 else delta
  }

  /** A gyroscope value as a distance; distances below the threshold are no movement. */
  function Distance(g: int, timeDelta: int, coeff: real, threshold: int): int {
    var d := Truncate((g * timeDelta) as real * coeff);
    if 0 < d < threshold || -threshold < d < 0 then 0 else d
  }

  // ----- keys -----

  function HandleSpecialKeys(s: State, lincode: int, c: ControllerId, pressed: bool): (State, bool) {
    if lincode == KEY_PSMOVE_DISCONNECT then (s.(events := s.events + [Disconnect(c)]), true)
    else if c.First? && lincode == KEY_PSMOVE_MOVE_TRIGGER then (s.(moveTrigger := pressed), true)
    else if c.Second? && lincode == KEY_PSMOVE_GESTURE_TRIGGER then
      (s.(releaseGestureKeys := s.releaseGestureKeys || (s.gestureTrigger && !pressed), gestureTrigger := pressed), true)
    else if lincode == KEY_PSMOVE_MWHEEL_UP && pressed then (s.(events := s.events + [MWheel(1)]), true)
    else if lincode == KEY_PSMOVE_MWHEEL_DOWN && pressed then (s.(events := s.events + [MWheel(-1)]), true)
    else (s, false)
  }

  /** One entry of the key map, for a button that is pressed or released. */
  function ReportEntry(s: State, entry: KeyMapEntry, button: Mask, pressed: bool, c: ControllerId): State {
    if entry.pscode != button then s
    else
      var (t, special) := HandleSpecialKeys(s, entry.lincode, c, pressed);
      if special then t else t.(events := t.events + [Key(entry.lincode, pressed)])
  }

  /** The first `n` entries of the key map, in order. */
  function ReportEntries(s: State, keymap: KeyMap, n: nat, button: Mask, pressed: bool, c: ControllerId): State
    requires n <= |keymap|
  {
    if n == 0 then s
    else ReportEntry(ReportEntries(s, keymap, n - 1, button, pressed, c), keymap[n - 1], button, pressed, c)
  }

  /** The call for bit `n`. */
  function ReportKey(cfg: Config, s: State, n: nat, pressed: bool, c: ControllerId): State
  {
    var keymap := cfg.KeyMapOf(c);
    ReportEntries(s.(reports := s.reports + [Report(n, pressed, c)]), keymap, |keymap|, {n}, pressed, c)
  }

  /** The reports for bit `n`. */
  function ReportBit(cfg: Config, s: State, pressed: Mask, released: Mask, n: nat, c: ControllerId): State {
    if n in pressed then ReportKey(cfg, s, n, true, c)
    else if n in released then ReportKey(cfg, s, n, false, c)
    else s
  }

  /** The reports for the first `n` bits, in order. */
  function ReportBits(cfg: Config, s: State, pressed: Mask, released: Mask, n: nat, c: ControllerId): State {
    if n == 0 then s else ReportBit(cfg, ReportBits(cfg, s, pressed, released, n - 1, c), pressed, released, n - 1, c)
  }

  /** The reports of a change of buttons, and the new buttons; without what follows when gesture keys are to be
  released. */
  function ChangeButtons(cfg: Config, s: State, buttons: Mask, c: ControllerId): State {
    var was := s.Buttons(c);
    if was == buttons then s
    else ReportBits(cfg, s, buttons - was, was - buttons, BUTTON_BITS, c).WithButtons(c, buttons)
  }

  // ----- the mutually recursive entry points -----

  /** Are no buttons of the second controller pressed by this report? */
  predicate OnlyReleases(s: State, buttons: Mask, c: ControllerId) {
    c.Second? && buttons <= s.buttons2
  }

  /** Gestures are ignored unless their trigger, if there is one, is pressed. */
  predicate GesturesBlocked(cfg: Config, s: State) {
    cfg.UseGestureTrigger() && !s.gestureTrigger
  }

  function OnButtons(cfg: Config, s: State, buttons: Mask, c: ControllerId): (t: State)
    requires !s.releaseGestureKeys
    ensures !t.releaseGestureKeys
    decreases if OnlyReleases(s, buttons, c) then 3 else 5
  {
    var t := ChangeButtons(cfg, s, buttons, c);
    if t.releaseGestureKeys then
      assert OnlyReleases(s, buttons, c) ==> GesturesBlocked(cfg, t) by {
        if OnlyReleases(s, buttons, c) {
          ReleasesBlockGestures(cfg, s, buttons);
        }
      }
      OnGesture(cfg, t.(releaseGestureKeys := false), 0, 0)
    else t
  }

  /** The gesture buttons of a pair of distances. */
  function GestureButtons(dx: int, dy: int): Mask {
    (if dx > 0 then {RIGHT} else if dx < 0 then {LEFT} else {}) + (if dy > 0 then {UP} else if dy < 0 then {DOWN} else {})
  }

  /** Is a gesture looked at: is it not the first one, and is its trigger pressed, if there is one? */
  predicate GestureCounts(cfg: Config, s: State) {
    s.lastGesture.sec != 0 && s.lastGesture.nsec != 0 && !GesturesBlocked(cfg, s)
  }

  /** The buttons that a gesture reports. */
  function GestureMask(cfg: Config, s: State, gx: int, gy: int): (b: Mask)
    ensures gx == 0 && gy == 0 ==> b == WithoutGestures(s.buttons2)
  {
    var delta := TimeDelta(cfg.clock(s.ticks), s.lastGesture);
    var dx := Distance(gx, delta, cfg.cx, cfg.gestureThreshold);
    var dy := Distance(gy, delta, cfg.cy, cfg.gestureThreshold);
    assert gx == 0 && gy == 0 ==> dx == 0 && dy == 0;
    GestureButtons(dx, dy) + WithoutGestures(s.buttons2)
  }

  function OnGesture(cfg: Config, s: State, gx: int, gy: int): (t: State)
    requires !s.releaseGestureKeys
    ensures !t.releaseGestureKeys
    decreases if GesturesBlocked(cfg, s) then 2 else if gx == 0 && gy == 0 then 4 else 6
  {
    var t := s.(ticks := s.ticks + 1);
    var u := if GestureCounts(cfg, s) then OnButtons(cfg, t, GestureMask(cfg, s, gx, gy), Second) else t;
    u.(lastGesture := cfg.clock(s.ticks))
  }

  function OnGyroscope(cfg: Config, s: State, gx: int, gy: int): State {
    var now := cfg.clock(s.ticks);
    var t := s.(ticks := s.ticks + 1, lastGyro := now);
    if s.lastGyro.sec != 0 && s.lastGyro.nsec != 0 && (!cfg.UseMoveTrigger() || s.moveTrigger) then
      var delta := TimeDelta(now, s.lastGyro);
      var dx := Distance(gx, delta, cfg.cx, cfg.moveThreshold);
      var dy := Distance(gy, delta, cfg.cy, cfg.moveThreshold);
      if dx != 0 || dy != 0 then t.(events := t.events + [Move(dx, dy)]) else t
    else t
  }

  /** Forgets the buttons without reporting their release. */
  function Reset(s: State): State {
    s.(buttons1 := {}, buttons2 := {}, lastGyro := NO_TIME, lastGesture := NO_TIME,
       moveTrigger := false, gestureTrigger := false, reports := [])
  }

  // ----- runs -----

  datatype Call = CallButtons(buttons: Mask, c: ControllerId) | CallGesture(gx: int, gy: int) | CallGyroscope(gx: int, gy: int) |
                  CallReset

  function Step(cfg: Config, s: State, call: Call): (t: State)
    requires !s.releaseGestureKeys
    ensures !t.releaseGestureKeys
  {
    match call
    case CallButtons(buttons, c) => OnButtons(cfg, s, buttons, c)
    case CallGesture(gx, gy) => OnGesture(cfg, s, gx, gy)
    case CallGyroscope(gx, gy) => OnGyroscope(cfg, s, gx, gy)
    case CallReset => Reset(s)
  }

  /** The state after a sequence of calls on a new handler. */
  function Run(cfg: Config, calls: seq<Call>): (t: State)
    ensures !t.releaseGestureKeys
  {
    if calls == [] then INITIAL else Step(cfg, Run(cfg, calls[..|calls| - 1]), calls[|calls| - 1])
  }

  // ----- why the recursion ends -----

  /** Releasing a key of the second controller can turn the gesture trigger off, but not on. */
  lemma {:induction false} ReleasedEntries(s: State, keymap: KeyMap, n: nat, button: Mask)
    requires n <= |keymap|
    ensures var t := ReportEntries(s, keymap, n, button, false, Second);
      && (t.gestureTrigger ==> s.gestureTrigger)
      && (t.releaseGestureKeys && !s.releaseGestureKeys ==> !t.gestureTrigger && Maps(keymap, KEY_PSMOVE_GESTURE_TRIGGER))
      && (t.releaseGestureKeys == s.releaseGestureKeys || t.releaseGestureKeys)
  {
    if n > 0 {
      ReleasedEntries(s, keymap, n - 1, button);
    }
  }

  lemma {:induction false} ReleasedBits(cfg: Config, s: State, pressed: Mask, released: Mask, n: nat)
    requires !s.releaseGestureKeys && pressed == {}
    ensures var t := ReportBits(cfg, s, pressed, released, n, Second);
      t.releaseGestureKeys ==> GesturesBlocked(cfg, t)
  {
    if n > 0 {
      ReleasedBits(cfg, s, pressed, released, n - 1);
      var t := ReportBits(cfg, s, pressed, released, n - 1, Second);
      ReleasedEntries(t.(reports := t.reports + [Report(n - 1, false, Second)]), cfg.keymap2, |cfg.keymap2|, {n - 1});
    }
  }

  lemma ReleasesBlockGestures(cfg: Config, s: State, buttons: Mask)
    requires !s.releaseGestureKeys && OnlyReleases(s, buttons, Second)
    ensures var t := ChangeButtons(cfg, s, buttons, Second); t.releaseGestureKeys ==> GesturesBlocked(cfg, t)
  {
    ReleasedBits(cfg, s, buttons - s.buttons2, s.buttons2 - buttons, BUTTON_BITS);
  }
}
