/** Where the main loop of the listener gets when the other threads let it be (psmove_listener.cpp). */
module ListenerProgress {
  import opened CStrings
  import opened Controllers
  import opened ListenerModel
  import opened ListenerProperties

  /** `n` steps of the main loop; `ok(id)` says if a connection to the controller with that psmoveapi id comes about. */
  function Steps(s: State, ok: nat -> bool, n: nat): State
    decreases n
  {
    if n == 0 then s else Steps(MainStep(s, s.pc.Connect? && ok(s.pc.id)), ok, n - 1)
  }

  lemma {:induction false} StepsTogether(s: State, ok: nat -> bool, n: nat, m: nat)
    ensures Steps(s, ok, n + m) == Steps(Steps(s, ok, n), ok, m)
    decreases n
  {
    if n > 0 {
      StepsTogether(MainStep(s, s.pc.Connect? && ok(s.pc.id)), ok, n - 1, m);
    }
  }

  /** One stretch of steps after another. */
  lemma Then(s: State, t: State, u: State, ok: nat -> bool, n: nat, m: nat)
    requires Steps(s, ok, n) == t && Steps(t, ok, m) == u
    ensures Steps(s, ok, n + m) == u
  {
    StepsTogether(s, ok, n, m);
  }

  lemma OneMoreFirst(actions: seq<Action>, a: Action, rest: seq<Action>)
    ensures actions + ([a] + rest) == actions + [a] + rest
  {
  }

  /** The first of `n` steps, as an action. */
  lemma FirstStep(actions: seq<Action>, s: State, ok: nat -> bool, n: nat) returns (a: Action, t: State)
    requires s == After(actions) && n > 0
    ensures a.Main? && After(actions + [a]) == t && Steps(s, ok, n) == Steps(t, ok, n - 1)
  {
    a := Main(s.pc.Connect? && ok(s.pc.id));
    t := Step(s, a);
    RunOnceMore(actions, a);
  }

  /** The steps are part of an interleaving. */
  lemma {:induction false} StepsAreActions(actions: seq<Action>, s: State, ok: nat -> bool, n: nat) returns (more: seq<Action>)
    requires s == After(actions)
    ensures |more| == n && forall i :: 0 <= i < n ==> more[i].Main?
    ensures After(actions + more) == Steps(s, ok, n)
    decreases n
  {
    if n == 0 {
      more := [];
      assert actions + more == actions;
    } else {
      var a, t := FirstStep(actions, s, ok, n);
      var rest := StepsAreActions(actions + [a], t, ok, n - 1);
      more := [a] + rest;
      OneMoreFirst(actions, a, rest);
    }
  }

  // ----- looking for a controller -----

  /** Does a running thread serve this psmoveapi id? */
  predicate Served(s: State, id: nat) {
    Has(s.slot0, id) || Has(s.slot1, id)
  }

  /** The least id from `id` on that no thread serves and that can be connected to, or MAX_CONTROLLERS. */
  function Candidate(s: State, ok: nat -> bool, id: nat): nat
    decreases MAX_CONTROLLERS - id
  {
    if id >= MAX_CONTROLLERS then MAX_CONTROLLERS
    else if !Served(s, id) && ok(id) then id
    else Candidate(s, ok, id + 1)
  }

  function FirstIdle(s: State): nat {
    if !s.slot0.running then 0 else 1
  }

  /** The state in which the first idle slot has taken the controller over. */
  function Adopted(s: State, id: nat): State {
    var i := FirstIdle(s);
    s.WithSlot(i, Slot(true, IdOf(i), id, Some(s.accepted), s.SlotAt(i).buttons))
     .(accepted := s.accepted + 1, adopted := s.adopted + [Adoption(s.accepted, i, IdOf(i), id)], pc := Sleep)
  }

  lemma FullPhase(s: State, ok: nat -> bool) returns (n: nat)
    requires s.pc == Full(0)
    ensures Steps(s, ok, n) == s.(pc := if s.SomeIdle() then Scan(0, 0) else Sleep)
  {
    var t := MainStep(s, false);
    if s.slot0.running {
      n := 2;
      assert t == s.(pc := Full(1));
      assert Steps(s, ok, 2) == Steps(t, ok, 1) == MainStep(t, false);
    } else {
      n := 1;
      assert Steps(s, ok, 1) == Steps(t, ok, 0) == t;
    }
  }

  lemma ScanPhase(s: State, ok: nat -> bool, id: nat) returns (n: nat)
    requires s.pc == Scan(id, 0)
    ensures Steps(s, ok, n) == s.(pc := if Served(s, id) then AfterId(id) else Connect(id))
  {
    var t := MainStep(s, false);
    if Has(s.slot0, id) {
      n := 1;
      assert Steps(s, ok, 1) == Steps(t, ok, 0) == t;
    } else {
      n := 2;
      assert t == s.(pc := Scan(id, 1));
      assert Steps(s, ok, 2) == Steps(t, ok, 1) == MainStep(t, false);
    }
  }

  lemma OfferPhase(s: State, ok: nat -> bool, id: nat, move: Handle) returns (n: nat)
    requires s.pc == Offer(0, id, move) && s.SomeIdle() && move + 1 == s.accepted
    ensures Steps(s, ok, n) == Adopted(s.(accepted := move), id)
  {
    var t := MainStep(s, false);
    if s.slot0.running {
      n := 3;
      var u := MainStep(t, false);
      assert t == s.(pc := Offer(1, id, move)) && u == s.(pc := Start(1, id, move));
      assert Steps(s, ok, 3) == Steps(t, ok, 2) == Steps(u, ok, 1) == MainStep(u, false);
    } else {
      n := 2;
      assert t == s.(pc := Start(0, id, move));
      assert Steps(s, ok, 2) == Steps(t, ok, 1) == MainStep(t, false);
    }
  }

  lemma ConnectPhase(s: State, ok: nat -> bool, id: nat) returns (n: nat)
    requires s.pc == Connect(id) && s.SomeIdle()
    ensures Steps(s, ok, n) == if ok(id) then Adopted(s, id) else s.(pc := AfterId(id))
  {
    var u := MainStep(s, ok(id));
    assert Steps(s, ok, 1) == Steps(u, ok, 0) == u;
    n := 1;
    if ok(id) {
      var m := OfferPhase(u, ok, id, s.accepted);
      assert Adopted(u.(accepted := s.accepted), id) == Adopted(s, id);
      Then(s, u, Adopted(s, id), ok, 1, m);
      n := 1 + m;
    }
  }

  lemma {:induction false} FromId(s: State, ok: nat -> bool, id: nat) returns (n: nat)
    requires s.SomeIdle() && id <= MAX_CONTROLLERS && s.pc == if id < MAX_CONTROLLERS then Scan(id, 0) else Sleep
    ensures var c := Candidate(s, ok, id);
      Steps(s, ok, n) == if c < MAX_CONTROLLERS then Adopted(s, c) else s.(pc := Sleep)
    decreases MAX_CONTROLLERS - id
  {
    n := 0;
    if id < MAX_CONTROLLERS {
      n := ScanPhase(s, ok, id);
      var t := s.(pc := AfterId(id));
      if !Served(s, id) {
        var u := s.(pc := Connect(id));
        var k := ConnectPhase(u, ok, id);
        assert Adopted(u, id) == Adopted(s, id);
        Then(s, u, if ok(id) then Adopted(s, id) else t, ok, n, k);
        n := n + k;
      }
      if Served(s, id) || !ok(id) {
        var m := FromId(t, ok, id + 1);
        SameCandidate(s, t, ok, id + 1);
        var c := Candidate(s, ok, id);
        FromNext(s, t, c);
        Then(s, t, if c < MAX_CONTROLLERS then Adopted(s, c) else s.(pc := Sleep), ok, n, m);
        n := n + m;
      }
    }
  }

  lemma FromNext(s: State, t: State, c: nat)
    requires t == s.(pc := t.pc)
    ensures Adopted(t, c) == Adopted(s, c) && t.(pc := Sleep) == s.(pc := Sleep)
  {
  }

  lemma {:induction false} SameCandidate(s: State, t: State, ok: nat -> bool, id: nat)
    requires t.slot0 == s.slot0 && t.slot1 == s.slot1
    ensures Candidate(t, ok, id) == Candidate(s, ok, id)
    decreases MAX_CONTROLLERS - id
  {
    if id < MAX_CONTROLLERS {
      SameCandidate(s, t, ok, id + 1);
    }
  }

  /** Left alone, the main loop takes over the controller with the least id that no thread serves and that can be
  connected to, with the first idle slot, also while the other slot runs; without an idle slot, or without such a
  controller, it changes nothing. */
  lemma LooksForControllers(s: State, ok: nat -> bool) returns (n: nat)
    requires s.pc == Full(0)
    ensures var c := Candidate(s, ok, 0);
      Steps(s, ok, n) == if s.SomeIdle() && c < MAX_CONTROLLERS then Adopted(s, c) else s.(pc := Sleep)
  {
    n := FullPhase(s, ok);
    if s.SomeIdle() {
      var t, c := s.(pc := Scan(0, 0)), Candidate(s, ok, 0);
      var m := FromId(t, ok, 0);
      SameCandidate(s, t, ok, 0);
      FromNext(s, t, c);
      Then(s, t, if c < MAX_CONTROLLERS then Adopted(s, c) else s.(pc := Sleep), ok, n, m);
      n := n + m;
    }
  }

  lemma {:induction false} CandidateIsLeast(s: State, ok: nat -> bool, id: nat)
    requires id <= MAX_CONTROLLERS
    ensures var c := Candidate(s, ok, id);
      && id <= c <= MAX_CONTROLLERS
      && (c < MAX_CONTROLLERS ==> !Served(s, c) && ok(c))
      && forall k :: id <= k < c ==> Served(s, k) || !ok(k)
    decreases MAX_CONTROLLERS - id
  {
    if id < MAX_CONTROLLERS {
      CandidateIsLeast(s, ok, id + 1);
    }
  }

  // ----- stopping -----

  lemma OneStep(s: State, ok: nat -> bool)
    requires !s.pc.Connect?
    ensures Steps(s, ok, 1) == MainStep(s, false)
  {
    assert Steps(MainStep(s, false), ok, 0) == MainStep(s, false);
  }

  /** The main loop joins idle threads at once. */
  lemma JoinPhase(s: State, ok: nat -> bool)
    requires s.pc == Join(0) && s.AllIdle()
    ensures Steps(s, ok, 2) == s.(pc := ReadStopAgain)
  {
    var t := MainStep(s, false);
    OneStep(s, ok);
    OneStep(t, ok);
    StepsTogether(s, ok, 1, 1);
  }

  /** After `stop` was called, and when the threads have ended, the main loop returns. */
  lemma StopIsObeyed(s: State, ok: nat -> bool)
    requires s.pc == ReadStop && s.stop && s.AllIdle()
    ensures Steps(s, ok, 4) == s.(pc := Stopped)
  {
    var t := s.(pc := Join(0));
    OneStep(s, ok);
    JoinPhase(t, ok);
    OneStep(s.(pc := ReadStopAgain), ok);
    StepsTogether(s, ok, 1, 2);
    StepsTogether(s, ok, 3, 1);
  }

  /** When the other threads were asked to stop and have ended, DisconnectComplete is raised once and the main loop goes
  on. */
  lemma DisconnectIsObeyed(s: State, ok: nat -> bool)
    requires s.pc == ReadStop && !s.stop && s.threadStop && s.AllIdle()
    ensures Steps(s, ok, 7) ==
      s.(pc := Full(0), threadStop := false, signals := s.signals + [DisconnectComplete], session := |s.adopted|)
  {
    var joining, again, clearing := s.(pc := Join(0)), s.(pc := ReadStopAgain), s.(pc := ClearThreadStop);
    OneStep(s, ok);
    OneStep(s.(pc := ReadThreadStop), ok);
    Then(s, s.(pc := ReadThreadStop), joining, ok, 1, 1);
    JoinPhase(joining, ok);
    Then(s, joining, again, ok, 2, 2);
    OneStep(again, ok);
    Then(s, again, clearing, ok, 4, 1);
    var t := SignalPhase(clearing, ok);
    Then(s, clearing, t, ok, 5, 2);
  }

  lemma SignalPhase(s: State, ok: nat -> bool) returns (t: State)
    requires s.pc == ClearThreadStop
    ensures t == s.(pc := Full(0), threadStop := false, signals := s.signals + [DisconnectComplete], session := |s.adopted|)
    ensures Steps(s, ok, 2) == t
  {
    var u := s.(pc := SignalComplete, threadStop := false);
    t := MainStep(u, false);
    OneStep(s, ok);
    OneStep(u, ok);
    Then(s, u, t, ok, 1, 1);
  }

  /** Otherwise it goes on without a signal. */
  lemma GoesOn(s: State, ok: nat -> bool)
    requires s.pc == ReadStop && !s.stop && !s.threadStop
    ensures Steps(s, ok, 2) == s.(pc := Full(0))
  {
    OneStep(s, ok);
    OneStep(s.(pc := ReadThreadStop), ok);
    StepsTogether(s, ok, 1, 1);
  }
}
