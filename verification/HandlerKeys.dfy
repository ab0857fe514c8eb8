/** The key signals that the handler raises follow the buttons (psmove_handler.cpp). */
module HandlerKeys {
  import opened Controllers
  import opened HandlerModel
  import opened HandlerProperties

  /** A key code that the handler passes on in all cases. */
  predicate Ordinary(code: int) {
    code < KEY_PSMOVE_DISCONNECT || code > KEY_PSMOVE_MWHEEL_DOWN
  }

  /** Were the signals for a key presses or releases, in order? */
  function KeyFlags(events: seq<Event>, code: int): seq<bool> {
    if events == [] then []
    else
      var last := events[|events| - 1];
      KeyFlags(events[..|events| - 1], code) + if last.Key? && last.code == code then [last.pressed] else []
  }

  /** How many of the first `k` entries map button `n` to the key. */
  function Mappings(keymap: KeyMap, k: nat, n: nat, code: int): nat
    requires k <= |keymap|
  {
    if k == 0 then 0
    else Mappings(keymap, k - 1, n, code) + if keymap[k - 1] == KeyMapEntry({n}, code) then 1 else 0
  }

  /** One entry, of controller `c` for button `n`, maps to the key, and no entry for another scanned button does. */
  ghost predicate MappedOnce(cfg: Config, code: int, c: ControllerId, n: nat) {
    forall d: ControllerId, m: nat | m < BUTTON_BITS ::
      Mappings(cfg.KeyMapOf(d), |cfg.KeyMapOf(d)|, m, code) == if d == c && m == n then 1 else 0
  }

  function Repeated(b: bool, k: nat): seq<bool> {
    if k == 0 then [] else Repeated(b, k - 1) + [b]
  }

  lemma KeyFlagsAppend(events: seq<Event>, e: Event, code: int)
    ensures KeyFlags(events + [e], code) == KeyFlags(events, code) + if e.Key? && e.code == code then [e.pressed] else []
  {
    assert (events + [e])[..|events|] == events;
  }

  /** An entry for the button sends an ordinary key; other entries send at most one signal, which is no ordinary key. */
  lemma EntrySends(s: State, entry: KeyMapEntry, button: Mask, pressed: bool, c: ControllerId) returns (sent: seq<Event>)
    ensures ReportEntry(s, entry, button, pressed, c).events == s.events + sent
    ensures entry.pscode == button && Ordinary(entry.lincode) ==> sent == [Key(entry.lincode, pressed)]
    ensures entry.pscode != button || !Ordinary(entry.lincode) ==>
      |sent| <= 1 && (sent != [] && sent[0].Key? ==> !Ordinary(sent[0].code))
  {
    var key := entry.lincode;
    if entry.pscode != button {
      sent := [];
    } else if key == KEY_PSMOVE_DISCONNECT {
      sent := [Disconnect(c)];
    } else if (c.First? && key == KEY_PSMOVE_MOVE_TRIGGER) || (c.Second? && key == KEY_PSMOVE_GESTURE_TRIGGER) {
      sent := [];
    } else if key == KEY_PSMOVE_MWHEEL_UP && pressed {
      sent := [MWheel(1)];
    } else if key == KEY_PSMOVE_MWHEEL_DOWN && pressed {
      sent := [MWheel(-1)];
    } else {
      sent := [Key(key, pressed)];
    }
  }

  lemma EntryKeys(s: State, entry: KeyMapEntry, n: nat, pressed: bool, c: ControllerId, code: int)
    requires Ordinary(code)
    ensures KeyFlags(ReportEntry(s, entry, {n}, pressed, c).events, code) ==
      KeyFlags(s.events, code) + if entry == KeyMapEntry({n}, code) then [pressed] else []
  {
    var sent := EntrySends(s, entry, {n}, pressed, c);
    if sent == [] {
      assert s.events + sent == s.events;
    } else {
      assert sent == [sent[0]];
      KeyFlagsAppend(s.events, sent[0], code);
    }
  }

  lemma MoreFlags(flags: seq<bool>, b: bool, k: nat, more: bool)
    ensures flags + Repeated(b, k) + (if more then [b] else []) == flags + Repeated(b, k + if more then 1 else 0)
  {
  }

  /** A button sends each of its keys as often as it is mapped to it. */
  lemma {:induction false} EntriesKeys(s: State, keymap: KeyMap, k: nat, n: nat, pressed: bool, c: ControllerId, code: int)
    requires k <= |keymap| && Ordinary(code)
    ensures KeyFlags(ReportEntries(s, keymap, k, {n}, pressed, c).events, code) ==
      KeyFlags(s.events, code) + Repeated(pressed, Mappings(keymap, k, n, code))
  {
    if k > 0 {
      EntriesKeys(s, keymap, k - 1, n, pressed, c, code);
      EntryKeys(ReportEntries(s, keymap, k - 1, {n}, pressed, c), keymap[k - 1], n, pressed, c, code);
      MoreFlags(KeyFlags(s.events, code), pressed, Mappings(keymap, k - 1, n, code), keymap[k - 1] == KeyMapEntry({n}, code));
    }
  }

  // ----- signals and calls agree -----

  /** Since the signals `base`, the key was sent as button `n` was reported. */
  ghost predicate Agree(s: State, base: seq<bool>, code: int, c: ControllerId, n: nat) {
    KeyFlags(s.events, code) == base + Flags(s.reports, c, n)
  }

  ghost predicate Mapped(cfg: Config, code: int, c: ControllerId, n: nat) {
    Ordinary(code) && n < BUTTON_BITS && MappedOnce(cfg, code, c, n)
  }

  lemma ReportKeepsAgreement(cfg: Config, s: State, m: nat, pressed: bool, d: ControllerId, base: seq<bool>, code: int,
                             c: ControllerId, n: nat)
    requires Mapped(cfg, code, c, n) && Agree(s, base, code, c, n) && m < BUTTON_BITS
    ensures Agree(ReportKey(cfg, s, m, pressed, d), base, code, c, n)
  {
    var keymap := cfg.KeyMapOf(d);
    var k := Mappings(keymap, |keymap|, m, code);
    ReportKeyAddsFlag(cfg, s, m, pressed, d, c, n);
    EntriesKeys(s.(reports := s.reports + [Report(m, pressed, d)]), keymap, |keymap|, m, pressed, d, code);
    assert k == if d == c && m == n then 1 else 0;
    assert Repeated(pressed, 0) == [] && Repeated(pressed, 1) == [] + [pressed];
  }

  lemma {:induction false} ScanKeepsAgreement(cfg: Config, s: State, pressed: Mask, released: Mask, m: nat, d: ControllerId,
                                              base: seq<bool>, code: int, c: ControllerId, n: nat)
    requires Mapped(cfg, code, c, n) && Agree(s, base, code, c, n) && m <= BUTTON_BITS
    ensures Agree(ReportBits(cfg, s, pressed, released, m, d), base, code, c, n)
  {
    if m > 0 {
      ScanKeepsAgreement(cfg, s, pressed, released, m - 1, d, base, code, c, n);
      ReportKeepsAgreement(cfg, ReportBits(cfg, s, pressed, released, m - 1, d), m - 1, m - 1 in pressed, d, base, code, c, n);
    }
  }

  lemma {:induction false} ButtonsKeepAgreement(cfg: Config, s: State, buttons: Mask, d: ControllerId,
                                                base: seq<bool>, code: int, c: ControllerId, n: nat)
    requires !s.releaseGestureKeys && Mapped(cfg, code, c, n) && Agree(s, base, code, c, n)
    ensures Agree(OnButtons(cfg, s, buttons, d), base, code, c, n)
    decreases if OnlyReleases(s, buttons, d) then 3 else 5
  {
    var t := ChangeButtons(cfg, s, buttons, d);
    ScanKeepsAgreement(cfg, s, buttons - s.Buttons(d), s.Buttons(d) - buttons, BUTTON_BITS, d, base, code, c, n);
    assert Agree(t, base, code, c, n);
    if t.releaseGestureKeys {
      if OnlyReleases(s, buttons, d) {
        ReleasesBlockGestures(cfg, s, buttons);
      }
      GestureKeepsAgreement(cfg, t.(releaseGestureKeys := false), 0, 0, base, code, c, n);
    }
  }

  lemma {:induction false} GestureKeepsAgreement(cfg: Config, s: State, gx: int, gy: int,
                                                 base: seq<bool>, code: int, c: ControllerId, n: nat)
    requires !s.releaseGestureKeys && Mapped(cfg, code, c, n) && Agree(s, base, code, c, n)
    ensures Agree(OnGesture(cfg, s, gx, gy), base, code, c, n)
    decreases if GesturesBlocked(cfg, s) then 2 else if gx == 0 && gy == 0 then 4 else 6
  {
    if GestureCounts(cfg, s) {
      ButtonsKeepAgreement(cfg, s.(ticks := s.ticks + 1), GestureMask(cfg, s, gx, gy), Second, base, code, c, n);
    }
  }

  lemma StepKeepsAgreement(cfg: Config, s: State, call: Call, base: seq<bool>, code: int, c: ControllerId, n: nat)
    requires !s.releaseGestureKeys && Mapped(cfg, code, c, n) && Agree(s, base, code, c, n) && !call.CallReset?
    ensures Agree(Step(cfg, s, call), base, code, c, n)
  {
    match call
    case CallButtons(buttons, d) => ButtonsKeepAgreement(cfg, s, buttons, d, base, code, c, n);
    case CallGesture(gx, gy) => GestureKeepsAgreement(cfg, s, gx, gy, base, code, c, n);
    case CallGyroscope(gx, gy) => MovesAreNoKeys(cfg, s, gx, gy, code);
  }

  lemma MovesAreNoKeys(cfg: Config, s: State, gx: int, gy: int, code: int)
    ensures KeyFlags(OnGyroscope(cfg, s, gx, gy).events, code) == KeyFlags(s.events, code)
    ensures OnGyroscope(cfg, s, gx, gy).reports == s.reports
  {
    var t := OnGyroscope(cfg, s, gx, gy);
    if t.events != s.events {
      KeyFlagsAppend(s.events, t.events[|s.events|], code);
    }
  }

  /** In every run, between two resets, an ordinary key that one button is mapped to is sent exactly as that button is
  reported. */
  lemma {:induction false} KeysFollowReports(cfg: Config, before: seq<Call>, calls: seq<Call>, code: int, c: ControllerId, n: nat)
    requires Mapped(cfg, code, c, n)
    requires Run(cfg, before).reports == [] && forall i :: 0 <= i < |calls| ==> !calls[i].CallReset?
    ensures Agree(Run(cfg, before + calls), KeyFlags(Run(cfg, before).events, code), code, c, n)
  {
    if calls == [] {
      assert before + calls == before;
    } else {
      var k := |calls| - 1;
      var all := before + calls;
      assert all[..|all| - 1] == before + calls[..k];
      KeysFollowReports(cfg, before, calls[..k], code, c, n);
      StepKeepsAgreement(cfg, Run(cfg, before + calls[..k]), calls[k], KeyFlags(Run(cfg, before).events, code), code, c, n);
    }
  }

  /** So since the last reset the key was sent press, release, press, ..., and it is down exactly while its button is. */
  lemma KeyIsDownWithButton(cfg: Config, before: seq<Call>, calls: seq<Call>, code: int, c: ControllerId, n: nat)
    returns (sent: seq<bool>)
    requires Mapped(cfg, code, c, n)
    requires Run(cfg, before).reports == [] && forall i :: 0 <= i < |calls| ==> !calls[i].CallReset?
    ensures KeyFlags(Run(cfg, before + calls).events, code) == KeyFlags(Run(cfg, before).events, code) + sent
    ensures Alternating(sent) && (n in Run(cfg, before + calls).Buttons(c) <==> sent != [] && sent[|sent| - 1])
  {
    KeysFollowReports(cfg, before, calls, code, c, n);
    RunsAlternate(cfg, before + calls);
    sent := Flags(Run(cfg, before + calls).reports, c, n);
    assert ButtonConsistent(Run(cfg, before + calls), c, n);
  }

  // ----- across resets -----

  predicate EndsDown(flags: seq<bool>) {
    flags != [] && flags[|flags| - 1]
  }

  /** Was the last signal for the key a press? */
  predicate KeyDown(events: seq<Event>, code: int) {
    EndsDown(KeyFlags(events, code))
  }

  /** The number of calls up to the last reset, that one included. */
  function LastReset(calls: seq<Call>): (k: nat)
    ensures k <= |calls|
  {
    if calls == [] then 0 else if calls[|calls| - 1].CallReset? then |calls| else LastReset(calls[..|calls| - 1])
  }

  lemma {:induction false} AtLastReset(cfg: Config, calls: seq<Call>)
    ensures var k := LastReset(calls);
      && Run(cfg, calls[..k]).reports == []
      && (k > 0 ==> calls[k - 1].CallReset?)
      && forall i :: k <= i < |calls| ==> !calls[i].CallReset?
  {
    var k := LastReset(calls);
    if calls != [] && !calls[|calls| - 1].CallReset? {
      var before := calls[..|calls| - 1];
      AtLastReset(cfg, before);
      assert calls[..k] == before[..k];
      assert k > 0 ==> calls[k - 1] == before[k - 1];
      assert forall i :: k <= i < |before| ==> calls[i] == before[i];
    } else if calls != [] {
      assert calls[..k] == calls;
    }
  }

  /** Over all runs, resets included: the last signal of the key disagrees with its button exactly if the key was down
  at the last reset and its button has not been reported since; and then the key is down. */
  lemma KeyDisagreesIff(cfg: Config, calls: seq<Call>, code: int, c: ControllerId, n: nat)
    requires Mapped(cfg, code, c, n)
    ensures var s, atReset := Run(cfg, calls), Run(cfg, calls[..LastReset(calls)]);
      KeyDown(s.events, code) != (n in s.Buttons(c)) <==> KeyDown(atReset.events, code) && Flags(s.reports, c, n) == []
    ensures var s := Run(cfg, calls); n in s.Buttons(c) ==> KeyDown(s.events, code)
  {
    var k := LastReset(calls);
    AtLastReset(cfg, calls);
    assert calls == calls[..k] + calls[k..];
    KeysFollowReports(cfg, calls[..k], calls[k..], code, c, n);
    RunsAlternate(cfg, calls);
    DisagreeIff(Run(cfg, calls), KeyFlags(Run(cfg, calls[..k]).events, code), code, c, n);
  }

  lemma DisagreeIff(s: State, base: seq<bool>, code: int, c: ControllerId, n: nat)
    requires n < BUTTON_BITS && Agree(s, base, code, c, n) && ButtonConsistent(s, c, n)
    ensures KeyDown(s.events, code) != (n in s.Buttons(c)) <==> EndsDown(base) && Flags(s.reports, c, n) == []
    ensures n in s.Buttons(c) ==> KeyDown(s.events, code)
  {
    LastOfJoined(base, Flags(s.reports, c, n));
  }

  lemma LastOfJoined(a: seq<bool>, b: seq<bool>)
    ensures b != [] ==> (a + b)[|a + b| - 1] == b[|b| - 1]
    ensures b == [] ==> a + b == a
  {
  }

  /** So a key whose button is held when the handler is reset stays down: the button counts as released, but no release
  is sent. */
  lemma HeldKeyStaysDown(cfg: Config, calls: seq<Call>, code: int, c: ControllerId, n: nat)
    requires Mapped(cfg, code, c, n) && n in Run(cfg, calls).Buttons(c)
    ensures var t := Run(cfg, calls + [CallReset]); KeyDown(t.events, code) && n !in t.Buttons(c)
  {
    KeyDisagreesIff(cfg, calls, code, c, n);
    assert (calls + [CallReset])[..|calls|] == calls;
  }
}
