/** The special keys: mouse wheel, disconnection and the triggers follow the buttons (psmove_handler.cpp). */
module HandlerSignals {
  import opened Controllers
  import opened HandlerModel
  import opened HandlerProperties
  import opened HandlerKeys

  // ----- what one entry does -----

  /** What an entry for the button sends. */
  lemma EntrySignals(s: State, entry: KeyMapEntry, button: Mask, pressed: bool, c: ControllerId) returns (sent: seq<Event>)
    requires entry.pscode == button
    ensures var key, t := entry.lincode, ReportEntry(s, entry, button, pressed, c);
      && t.events == s.events + sent
      && (key == KEY_PSMOVE_DISCONNECT ==> sent == [Disconnect(c)])
      && (key == KEY_PSMOVE_MWHEEL_UP ==> sent == [if pressed then MWheel(1) else Key(key, false)])
      && (key == KEY_PSMOVE_MWHEEL_DOWN ==> sent == [if pressed then MWheel(-1) else Key(key, false)])
      && (key == KEY_PSMOVE_MOVE_TRIGGER ==> sent == if c.First? then [] else [Key(key, pressed)])
      && (key == KEY_PSMOVE_GESTURE_TRIGGER ==> sent == if c.Second? then [] else [Key(key, pressed)])
      && (Ordinary(key) ==> sent == [Key(key, pressed)])
  {
    var key := entry.lincode;
    sent :=
      if key == KEY_PSMOVE_DISCONNECT then [Disconnect(c)]
      else if (c.First? && key == KEY_PSMOVE_MOVE_TRIGGER) || (c.Second? && key == KEY_PSMOVE_GESTURE_TRIGGER) then []
      else if key == KEY_PSMOVE_MWHEEL_UP && pressed then [MWheel(1)]
      else if key == KEY_PSMOVE_MWHEEL_DOWN && pressed then [MWheel(-1)]
      else [Key(key, pressed)];
  }

  /** Only an entry of the right controller changes a trigger. */
  lemma EntryTriggers(s: State, entry: KeyMapEntry, button: Mask, pressed: bool, c: ControllerId)
    ensures var t := ReportEntry(s, entry, button, pressed, c);
      && t.moveTrigger == (if c.First? && entry == KeyMapEntry(button, KEY_PSMOVE_MOVE_TRIGGER) then pressed else s.moveTrigger)
      && t.gestureTrigger == (if c.Second? && entry == KeyMapEntry(button, KEY_PSMOVE_GESTURE_TRIGGER) then pressed else s.gestureTrigger)
  {
  }

  // ----- the order of the reports -----

  /** The reports of the changed bits below `k`. */
  ghost function Changes(pressed: Mask, released: Mask, k: nat, c: ControllerId): seq<Report> {
    if k == 0 then []
    else Changes(pressed, released, k - 1, c) + if k - 1 in pressed + released then [Report(k - 1, k - 1 in pressed, c)] else []
  }

  /** They are all of them, each once, in ascending order. */
  lemma {:induction false} ChangesAscend(pressed: Mask, released: Mask, k: nat, c: ControllerId)
    ensures var all := Changes(pressed, released, k, c);
      && (forall i, j :: 0 <= i < j < |all| ==> all[i].n < all[j].n)
      && (forall r: Report :: r in all <==> r.n < k && r.n in pressed + released && r.pressed == (r.n in pressed) && r.controller == c)
  {
    if k > 0 {
      ChangesAscend(pressed, released, k - 1, c);
      var before := Changes(pressed, released, k - 1, c);
      assert forall i :: 0 <= i < |before| ==> before[i] in before;
    }
  }

  lemma ReportIsAdded(cfg: Config, s: State, n: nat, pressed: bool, c: ControllerId)
    ensures ReportKey(cfg, s, n, pressed, c).reports == s.reports + [Report(n, pressed, c)]
  {
    var keymap := cfg.KeyMapOf(c);
    EntriesKeepReports(s.(reports := s.reports + [Report(n, pressed, c)]), keymap, |keymap|, {n}, pressed, c);
  }

  /** A change of buttons reports the bits that changed, in ascending order. */
  lemma {:induction false} ReportsAscend(cfg: Config, s: State, pressed: Mask, released: Mask, k: nat, c: ControllerId)
    ensures ReportBits(cfg, s, pressed, released, k, c).reports == s.reports + Changes(pressed, released, k, c)
  {
    if k > 0 {
      ReportsAscend(cfg, s, pressed, released, k - 1, c);
      ReportIsAdded(cfg, ReportBits(cfg, s, pressed, released, k - 1, c), k - 1, k - 1 in pressed, c);
    }
  }

  // ----- laws -----

  /** What the special keys stand for. */
  datatype Law = WheelUp | WheelDown | Cut(id: ControllerId) | MoveTrigger | GestureTrigger
  {
    function Code(): int {
      match this
      case WheelUp => KEY_PSMOVE_MWHEEL_UP
      case WheelDown => KEY_PSMOVE_MWHEEL_DOWN
      case Cut(_) => KEY_PSMOVE_DISCONNECT
      case MoveTrigger => KEY_PSMOVE_MOVE_TRIGGER
      case GestureTrigger => KEY_PSMOVE_GESTURE_TRIGGER
    }

    /** A trigger belongs to one controller. */
    predicate AppliesTo(c: ControllerId) {
      (MoveTrigger? ==> c.First?) && (GestureTrigger? ==> c.Second?)
    }

    predicate IsTrigger() {
      MoveTrigger? || GestureTrigger?
    }

    /** The signals that count. */
    predicate Counts(e: Event) {
      match this
      case WheelUp => e == MWheel(1)
      case WheelDown => e == MWheel(-1)
      case Cut(id) => e == Disconnect(id)
      case _ => false
    }

    /** How many signals there were, or whether the trigger is held. */
    function Observed(s: State): int {
      match this
      case MoveTrigger => if s.moveTrigger then 1 else 0
      case GestureTrigger => if s.gestureTrigger then 1 else 0
      case _ => CountOf(this, s.events)
    }

    /** What a press or release of the button of controller `c` makes of it. */
    function Next(x: int, pressed: bool, c: ControllerId): int {
      match this
      case Cut(id) => if id == c then x + 1 else x
      case MoveTrigger => if pressed then 1 else 0
      case GestureTrigger => if pressed then 1 else 0
      case _ => if pressed then x + 1 else x
    }
  }

  function CountOf(law: Law, events: seq<Event>): nat {
    if events == [] then 0
    else CountOf(law, events[..|events| - 1]) + if law.Counts(events[|events| - 1]) then 1 else 0
  }

  lemma CountOfAppend(law: Law, events: seq<Event>, e: Event)
    ensures CountOf(law, events + [e]) == CountOf(law, events) + if law.Counts(e) then 1 else 0
  {
    assert (events + [e])[..|events|] == events;
  }

  function Presses(flags: seq<bool>): nat {
    if flags == [] then 0 else Presses(flags[..|flags| - 1]) + if flags[|flags| - 1] then 1 else 0
  }

  /** What the reports of the button, pressed or released in order, ask for: a wheel key turns the wheel at each press, a
  disconnect key disconnects its controller at each report, and a trigger is held after a press. */
  function Asked(law: Law, c: ControllerId, flags: seq<bool>): int {
    match law
    case Cut(id) => if id == c then |flags| else 0
    case MoveTrigger => if EndsDown(flags) then 1 else 0
    case GestureTrigger => if EndsDown(flags) then 1 else 0
    case _ => Presses(flags)
  }

  lemma AskedNext(law: Law, c: ControllerId, flags: seq<bool>, pressed: bool, base: int)
    requires law.IsTrigger() ==> base == 0
    ensures base + Asked(law, c, flags + [pressed]) == law.Next(base + Asked(law, c, flags), pressed, c)
  {
    assert (flags + [pressed])[..|flags|] == flags;
  }

  // ----- one report -----

  lemma EntryCounted(law: Law, s: State, entry: KeyMapEntry, button: Mask, pressed: bool, d: ControllerId)
    requires entry.pscode == button
    ensures CountOf(law, ReportEntry(s, entry, button, pressed, d).events) == CountOf(law, s.events) +
      match law
      case WheelUp => if pressed && entry.lincode == KEY_PSMOVE_MWHEEL_UP then 1 else 0
      case WheelDown => if pressed && entry.lincode == KEY_PSMOVE_MWHEEL_DOWN then 1 else 0
      case Cut(id) => if id == d && entry.lincode == KEY_PSMOVE_DISCONNECT then 1 else 0
      case _ => 0
  {
    var sent := EntrySignals(s, entry, button, pressed, d);
    if sent == [] {
      assert s.events + sent == s.events;
    } else {
      SentOne(s, entry, button, pressed, d, sent);
      CountOfAppend(law, s.events, sent[0]);
    }
  }

  lemma SentOne(s: State, entry: KeyMapEntry, button: Mask, pressed: bool, c: ControllerId, sent: seq<Event>)
    requires entry.pscode == button && sent != [] && ReportEntry(s, entry, button, pressed, c).events == s.events + sent
    ensures sent == [sent[0]]
  {
    var events := ReportEntry(s, entry, button, pressed, c).events;
    assert |events| <= |s.events| + 1;
  }

  lemma EntryObserved(law: Law, s: State, entry: KeyMapEntry, m: nat, pressed: bool, d: ControllerId)
    ensures law.Observed(ReportEntry(s, entry, {m}, pressed, d)) ==
      if entry == KeyMapEntry({m}, law.Code()) && law.AppliesTo(d) then law.Next(law.Observed(s), pressed, d) else law.Observed(s)
  {
    if law.IsTrigger() {
      EntryTriggers(s, entry, {m}, pressed, d);
    } else if entry.pscode == {m} {
      EntryCounted(law, s, entry, {m}, pressed, d);
    }
  }

  lemma {:induction false} EntriesObserved(law: Law, s: State, keymap: KeyMap, k: nat, m: nat, pressed: bool, d: ControllerId)
    requires k <= |keymap| && law.AppliesTo(d) && Mappings(keymap, k, m, law.Code()) <= 1
    ensures law.Observed(ReportEntries(s, keymap, k, {m}, pressed, d)) ==
      if Mappings(keymap, k, m, law.Code()) == 1 then law.Next(law.Observed(s), pressed, d) else law.Observed(s)
  {
    if k > 0 {
      EntriesObserved(law, s, keymap, k - 1, m, pressed, d);
      EntryObserved(law, ReportEntries(s, keymap, k - 1, {m}, pressed, d), keymap[k - 1], m, pressed, d);
    }
  }

  /** No entry of the other controller changes a trigger. */
  lemma {:induction false} OtherEntriesObserved(law: Law, s: State, keymap: KeyMap, k: nat, m: nat, pressed: bool, d: ControllerId)
    requires k <= |keymap| && !law.AppliesTo(d)
    ensures law.Observed(ReportEntries(s, keymap, k, {m}, pressed, d)) == law.Observed(s)
  {
    if k > 0 {
      OtherEntriesObserved(law, s, keymap, k - 1, m, pressed, d);
      EntryObserved(law, ReportEntries(s, keymap, k - 1, {m}, pressed, d), keymap[k - 1], m, pressed, d);
    }
  }

  // ----- signals and reports agree -----

  /** Button `n` of controller `c`, and no other, has the special key. */
  ghost predicate Governs(cfg: Config, law: Law, c: ControllerId, n: nat) {
    n < BUTTON_BITS && law.AppliesTo(c) && MappedOnce(cfg, law.Code(), c, n)
  }

  /** Since there were `base` signals, they have been what the button's reports ask for. */
  ghost predicate Obeys(law: Law, s: State, base: int, c: ControllerId, n: nat) {
    (law.IsTrigger() ==> base == 0) && law.Observed(s) == base + Asked(law, c, Flags(s.reports, c, n))
  }

  lemma ReportKeepsLaw(cfg: Config, law: Law, s: State, m: nat, pressed: bool, d: ControllerId, base: int, c: ControllerId, n: nat)
    requires Governs(cfg, law, c, n) && Obeys(law, s, base, c, n) && m < BUTTON_BITS
    ensures Obeys(law, ReportKey(cfg, s, m, pressed, d), base, c, n)
  {
    var keymap, t := cfg.KeyMapOf(d), s.(reports := s.reports + [Report(m, pressed, d)]);
    ReportKeyAddsFlag(cfg, s, m, pressed, d, c, n);
    assert Mappings(keymap, |keymap|, m, law.Code()) == if d == c && m == n then 1 else 0;
    if law.AppliesTo(d) {
      EntriesObserved(law, t, keymap, |keymap|, m, pressed, d);
    } else {
      OtherEntriesObserved(law, t, keymap, |keymap|, m, pressed, d);
    }
    LawStep(law, s, t, ReportKey(cfg, s, m, pressed, d), pressed, base, c, n, d == c && m == n);
  }

  lemma LawStep(law: Law, s: State, t: State, u: State, pressed: bool, base: int, c: ControllerId, n: nat, reported: bool)
    requires Obeys(law, s, base, c, n) && law.Observed(t) == law.Observed(s)
    requires law.Observed(u) == if reported then law.Next(law.Observed(t), pressed, c) else law.Observed(t)
    requires Flags(u.reports, c, n) == Flags(s.reports, c, n) + if reported then [pressed] else []
    ensures Obeys(law, u, base, c, n)
  {
    var flags := Flags(s.reports, c, n);
    if reported {
      AskedNext(law, c, flags, pressed, base);
    } else {
      assert flags + [] == flags;
    }
  }

  lemma {:induction false} ScanKeepsLaw(cfg: Config, law: Law, s: State, pressed: Mask, released: Mask, m: nat, d: ControllerId,
                                        base: int, c: ControllerId, n: nat)
    requires Governs(cfg, law, c, n) && Obeys(law, s, base, c, n) && m <= BUTTON_BITS
    ensures Obeys(law, ReportBits(cfg, s, pressed, released, m, d), base, c, n)
  {
    if m > 0 {
      ScanKeepsLaw(cfg, law, s, pressed, released, m - 1, d, base, c, n);
      ReportKeepsLaw(cfg, law, ReportBits(cfg, s, pressed, released, m - 1, d), m - 1, m - 1 in pressed, d, base, c, n);
    }
  }

  lemma {:induction false} ButtonsKeepLaw(cfg: Config, law: Law, s: State, buttons: Mask, d: ControllerId, base: int,
                                          c: ControllerId, n: nat)
    requires !s.releaseGestureKeys && Governs(cfg, law, c, n) && Obeys(law, s, base, c, n)
    ensures Obeys(law, OnButtons(cfg, s, buttons, d), base, c, n)
    decreases if OnlyReleases(s, buttons, d) then 3 else 5
  {
    var t := ChangeButtons(cfg, s, buttons, d);
    ScanKeepsLaw(cfg, law, s, buttons - s.Buttons(d), s.Buttons(d) - buttons, BUTTON_BITS, d, base, c, n);
    assert Obeys(law, t, base, c, n);
    if t.releaseGestureKeys {
      if OnlyReleases(s, buttons, d) {
        ReleasesBlockGestures(cfg, s, buttons);
      }
      GestureKeepsLaw(cfg, law, t.(releaseGestureKeys := false), 0, 0, base, c, n);
    }
  }

  lemma {:induction false} GestureKeepsLaw(cfg: Config, law: Law, s: State, gx: int, gy: int, base: int, c: ControllerId, n: nat)
    requires !s.releaseGestureKeys && Governs(cfg, law, c, n) && Obeys(law, s, base, c, n)
    ensures Obeys(law, OnGesture(cfg, s, gx, gy), base, c, n)
    decreases if GesturesBlocked(cfg, s) then 2 else if gx == 0 && gy == 0 then 4 else 6
  {
    if GestureCounts(cfg, s) {
      ButtonsKeepLaw(cfg, law, s.(ticks := s.ticks + 1), GestureMask(cfg, s, gx, gy), Second, base, c, n);
    }
  }

  lemma MovesKeepLaw(cfg: Config, law: Law, s: State, gx: int, gy: int)
    ensures law.Observed(OnGyroscope(cfg, s, gx, gy)) == law.Observed(s)
    ensures OnGyroscope(cfg, s, gx, gy).reports == s.reports
  {
    var t := OnGyroscope(cfg, s, gx, gy);
    if t.events != s.events {
      CountOfAppend(law, s.events, t.events[|s.events|]);
    }
  }

  lemma StepKeepsLaw(cfg: Config, law: Law, s: State, call: Call, base: int, c: ControllerId, n: nat)
    requires !s.releaseGestureKeys && Governs(cfg, law, c, n) && Obeys(law, s, base, c, n) && !call.CallReset?
    ensures Obeys(law, Step(cfg, s, call), base, c, n)
  {
    match call
    case CallButtons(buttons, d) => ButtonsKeepLaw(cfg, law, s, buttons, d, base, c, n);
    case CallGesture(gx, gy) => GestureKeepsLaw(cfg, law, s, gx, gy, base, c, n);
    case CallGyroscope(gx, gy) => MovesKeepLaw(cfg, law, s, gx, gy);
  }

  /** In every run, between two resets, the wheel turns up or down at each press of its button, and a controller is
  disconnected at each report of the button for that, as its own controller. */
  lemma {:induction false} SignalsFollowReports(cfg: Config, before: seq<Call>, calls: seq<Call>, law: Law, c: ControllerId, n: nat)
    requires Governs(cfg, law, c, n) && !law.IsTrigger()
    requires Run(cfg, before).reports == [] && forall i :: 0 <= i < |calls| ==> !calls[i].CallReset?
    ensures Obeys(law, Run(cfg, before + calls), law.Observed(Run(cfg, before)), c, n)
  {
    if calls == [] {
      assert before + calls == before;
    } else {
      var k := |calls| - 1;
      var all := before + calls;
      assert all[..|all| - 1] == before + calls[..k];
      SignalsFollowReports(cfg, before, calls[..k], law, c, n);
      StepKeepsLaw(cfg, law, Run(cfg, before + calls[..k]), calls[k], law.Observed(Run(cfg, before)), c, n);
    }
  }

  lemma {:induction false} TriggersFollowReports(cfg: Config, calls: seq<Call>, law: Law, c: ControllerId, n: nat)
    requires Governs(cfg, law, c, n) && law.IsTrigger()
    ensures Obeys(law, Run(cfg, calls), 0, c, n)
  {
    if calls != [] {
      var k := |calls| - 1;
      TriggersFollowReports(cfg, calls[..k], law, c, n);
      if !calls[k].CallReset? {
        StepKeepsLaw(cfg, law, Run(cfg, calls[..k]), calls[k], 0, c, n);
      }
    }
  }

  /** In every run, resets included, the trigger that one button is mapped to is held exactly while that button is. */
  lemma TriggersFollowButtons(cfg: Config, calls: seq<Call>, n: nat)
    ensures Governs(cfg, MoveTrigger, First, n) ==> (Run(cfg, calls).moveTrigger <==> n in Run(cfg, calls).buttons1)
    ensures Governs(cfg, GestureTrigger, Second, n) ==> (Run(cfg, calls).gestureTrigger <==> n in Run(cfg, calls).buttons2)
  {
    RunsAlternate(cfg, calls);
    if Governs(cfg, MoveTrigger, First, n) {
      TriggersFollowReports(cfg, calls, MoveTrigger, First, n);
      assert ButtonConsistent(Run(cfg, calls), First, n);
    }
    if Governs(cfg, GestureTrigger, Second, n) {
      TriggersFollowReports(cfg, calls, GestureTrigger, Second, n);
      assert ButtonConsistent(Run(cfg, calls), Second, n);
    }
  }
}
