/** What every interleaving of the listener's steps keeps (psmove_listener.cpp). */
module ListenerProperties {
  import opened CStrings
  import opened Controllers
  import opened ListenerModel

  // ----- what every step keeps -----

  /** The last buttons that a controller reported. */
  function LastButtons(signals: seq<Signal>, id: ControllerId): int {
    if signals == [] then 0
    else
      var last := signals[|signals| - 1];
      if last.Buttons? && last.id == id then last.buttons else LastButtons(signals[..|signals| - 1], id)
  }

  /** No controller reports the same buttons twice in a row. */
  predicate OnlyChanges(signals: seq<Signal>) {
    forall k :: 0 <= k < |signals| && signals[k].Buttons? ==> signals[k].buttons != LastButtons(signals[..k], signals[k].id)
  }

  /** Is the main loop between its checks for a stop and the next sleep? */
  predicate Connecting(pc: Pc) {
    pc.Full? || pc.Scan? || pc.Connect? || pc.Offer? || pc.Start?
  }

  predicate SlotOk(slot: Slot, id: ControllerId) {
    slot.running ==> slot.id == id && slot.move.Some? && 0 <= slot.psmoveId < MAX_CONTROLLERS
  }

  predicate Has(slot: Slot, id: nat) {
    slot.running && slot.psmoveId == id
  }

  /** Do none of the first `n` slots run with this psmoveapi id? */
  predicate NoneHas(s: State, id: nat, n: nat) {
    (n > 0 ==> !Has(s.slot0, id)) && (n > 1 ==> !Has(s.slot1, id))
  }

  predicate PcOk(s: State) {
    match s.pc
    case Join(i) => i < MAX_CONTROLLERS && (i == 1 ==> !s.slot0.running)
    case ReadStopAgain => s.AllIdle()
    case ClearThreadStop => s.AllIdle()
    case SignalComplete => s.AllIdle()
    case Stopped => s.AllIdle()
    case Full(i) => i < MAX_CONTROLLERS
    case Scan(id, i) => s.SomeIdle() && id < MAX_CONTROLLERS && i < MAX_CONTROLLERS && NoneHas(s, id, i)
    case Connect(id) => s.SomeIdle() && id < MAX_CONTROLLERS && NoneHas(s, id, MAX_CONTROLLERS)
    case Offer(i, id, move) =>
      i < MAX_CONTROLLERS && id < MAX_CONTROLLERS && NoneHas(s, id, MAX_CONTROLLERS) && (if i == 0 then s.SomeIdle() else !s.slot1.running)
    case Start(i, id, move) => i < MAX_CONTROLLERS && id < MAX_CONTROLLERS && NoneHas(s, id, MAX_CONTROLLERS) && !s.SlotAt(i).running
    case _ => true
  }

  predicate SlotsOk(s: State) {
    SlotOk(s.slot0, First) && SlotOk(s.slot1, Second) && (s.slot0.running && s.slot1.running ==> s.slot0.psmoveId != s.slot1.psmoveId)
  }

  /** The handle that was accepted but not yet taken over. */
  function Pending(pc: Pc): nat {
    if pc.Offer? || pc.Start? then 1 else 0
  }

  predicate HandlesOk(s: State) {
    && |s.adopted| + Pending(s.pc) == s.accepted
    && (s.pc.Offer? || s.pc.Start? ==> s.pc.move == |s.adopted|)
    && forall k :: 0 <= k < |s.adopted| ==>
      s.adopted[k].move == k && s.adopted[k].slot < MAX_CONTROLLERS && s.adopted[k].id == IdOf(s.adopted[k].slot)
  }

  /** A handle that was taken over is held or closed, once. */
  ghost predicate HoldersOk(s: State) {
    && |s.closed| + s.RunningCount() == |s.adopted|
    && forall h: Handle :: multiset(s.closed)[h] + s.Holders(h) == if h < |s.adopted| then 1 else 0
  }

  predicate SessionOk(s: State) {
    && s.session <= |s.closed|
    && (s.session < |s.closed| ==> s.threadStop || s.pc.SignalComplete?)
    && |s.adopted| - s.session <= if Connecting(s.pc) then 2 else 3
  }

  predicate SignalsOk(s: State) {
    OnlyChanges(s.signals) && s.slot0.buttons == LastButtons(s.signals, First) && s.slot1.buttons == LastButtons(s.signals, Second)
  }

  ghost predicate Inv(s: State) {
    PcOk(s) && SlotsOk(s) && HandlesOk(s) && HoldersOk(s) && SessionOk(s) && SignalsOk(s)
  }

  lemma InitialInv()
    ensures Inv(INITIAL)
  {
  }

  lemma SignalsGrow(signals: seq<Signal>, s: Signal)
    requires OnlyChanges(signals) && (s.Buttons? ==> s.buttons != LastButtons(signals, s.id))
    ensures OnlyChanges(signals + [s])
    ensures forall id :: LastButtons(signals + [s], id) == if s.Buttons? && s.id == id then s.buttons else LastButtons(signals, id)
  {
    var more := signals + [s];
    assert more[..|signals|] == signals;
    forall k | 0 <= k < |signals| ensures more[..k] == signals[..k] {
    }
  }

  lemma StartKeepsInv(s: State)
    requires Inv(s) && s.pc.Start?
    ensures Inv(MainStep(s, false))
  {
    StartKeepsSlots(s);
    StartKeepsHandles(s);
  }

  lemma StartKeepsSlots(s: State)
    requires PcOk(s) && SlotsOk(s) && SignalsOk(s) && s.pc.Start?
    ensures var t := MainStep(s, false); PcOk(t) && SlotsOk(t) && SignalsOk(t)
  {
  }

  lemma StartKeepsHandles(s: State)
    requires PcOk(s) && HandlesOk(s) && HoldersOk(s) && SessionOk(s) && s.pc.Start?
    ensures var t := MainStep(s, false); HandlesOk(t) && HoldersOk(t) && SessionOk(t)
  {
    var t := MainStep(s, false);
    var h := |s.adopted|;
    assert HandlesOk(t) && multiset(s.closed)[h] + s.Holders(h) == 0;
  }

  lemma LookingKeepsPlace(s: State, accept: bool)
    requires PcOk(s) && (s.pc.Full? || s.pc.Scan? || s.pc.Connect? || s.pc.Offer?)
    ensures PcOk(MainStep(s, accept))
  {
  }

  lemma WaitingKeepsPlace(s: State, accept: bool)
    requires PcOk(s) && !Connecting(s.pc)
    ensures PcOk(MainStep(s, accept))
  {
  }

  lemma MainKeepsSlots(s: State, accept: bool)
    requires !s.pc.Start?
    ensures var t := MainStep(s, accept);
      t.slot0 == s.slot0 && t.slot1 == s.slot1 && t.adopted == s.adopted && t.closed == s.closed
  {
  }

  lemma MainKeepsHandles(s: State, accept: bool)
    requires PcOk(s) && HandlesOk(s) && HoldersOk(s) && !s.pc.Start?
    ensures var t := MainStep(s, accept); HandlesOk(t) && HoldersOk(t) && t.slot0 == s.slot0 && t.slot1 == s.slot1
  {
    MainKeepsSlots(s, accept);
    SameHolders(s, MainStep(s, accept));
  }

  lemma SameHolders(s: State, t: State)
    requires HoldersOk(s) && t.slot0 == s.slot0 && t.slot1 == s.slot1 && t.adopted == s.adopted && t.closed == s.closed
    ensures HoldersOk(t)
  {
    forall h: Handle ensures t.Holders(h) == s.Holders(h) {
    }
  }

  lemma MainKeepsSession(s: State, accept: bool)
    requires PcOk(s) && HoldersOk(s) && SessionOk(s) && !s.pc.Start?
    ensures SessionOk(MainStep(s, accept))
  {
  }

  lemma MainKeepsSignals(s: State, accept: bool)
    requires SignalsOk(s) && !s.pc.Start?
    ensures SignalsOk(MainStep(s, accept))
  {
    if s.pc.SignalComplete? {
      SignalsGrow(s.signals, DisconnectComplete);
    }
  }

  /** Only threads that end, and reports, intervene: slots do not start or change ids under the main loop. */
  lemma OthersKeepPlace(s: State, t: State)
    requires PcOk(s) && t.pc == s.pc
    requires t.slot0.running ==> s.slot0.running && t.slot0.psmoveId == s.slot0.psmoveId
    requires t.slot1.running ==> s.slot1.running && t.slot1.psmoveId == s.slot1.psmoveId
    ensures PcOk(t)
  {
  }

  lemma ExitKeepsInv(s: State, i: nat)
    requires Inv(s) && i < MAX_CONTROLLERS && s.SlotAt(i).running
    ensures Inv(ExitStep(s, i))
  {
    var h := s.SlotAt(i).move.value;
    var t := ExitStep(s, i);
    OthersKeepPlace(s, t);
    assert t.closed == s.closed + [h];
    assert multiset(t.closed) == multiset(s.closed) + multiset{h};
  }

  lemma PollKeepsInv(s: State, i: nat, buttons: int)
    requires Inv(s) && i < MAX_CONTROLLERS && s.SlotAt(i).running
    ensures Inv(PollStep(s, i, buttons))
  {
    var t := PollStep(s, i, buttons);
    PollKeepsSlots(s, i, buttons);
    OthersKeepPlace(s, t);
    PollKeepsHolders(s, t);
    PollKeepsSession(s, t);
    PollKeepsSignals(s, i, buttons);
  }

  /** A poll changes the buttons of a slot only. */
  predicate SameSlot(a: Slot, b: Slot) {
    b == a.(buttons := b.buttons)
  }

  predicate OnlyPolled(s: State, t: State) {
    && SameSlot(s.slot0, t.slot0) && SameSlot(s.slot1, t.slot1)
    && t == s.(slot0 := t.slot0, slot1 := t.slot1, signals := t.signals)
  }

  lemma PollKeepsSlots(s: State, i: nat, buttons: int)
    requires SlotsOk(s) && i < MAX_CONTROLLERS
    ensures var t := PollStep(s, i, buttons); OnlyPolled(s, t) && SlotsOk(t)
  {
  }

  lemma PollKeepsHolders(s: State, t: State)
    requires OnlyPolled(s, t) && HandlesOk(s) && HoldersOk(s)
    ensures HandlesOk(t) && HoldersOk(t)
  {
    forall h: Handle ensures t.Holders(h) == s.Holders(h) {
    }
  }

  lemma PollKeepsSession(s: State, t: State)
    requires OnlyPolled(s, t) && SessionOk(s)
    ensures SessionOk(t)
  {
  }

  lemma PollKeepsSignals(s: State, i: nat, buttons: int)
    requires SlotsOk(s) && SignalsOk(s) && i < MAX_CONTROLLERS && s.SlotAt(i).running
    ensures SignalsOk(PollStep(s, i, buttons))
  {
    if s.SlotAt(i).buttons != buttons {
      SignalsGrow(s.signals, Buttons(buttons, s.SlotAt(i).id));
    }
  }

  lemma StepKeepsInv(s: State, a: Action)
    requires Inv(s)
    ensures Inv(Step(s, a))
  {
    match a
    case Main(accept) =>
      if s.pc.Start? {
        StartKeepsInv(s);
      } else {
        if Connecting(s.pc) {
          LookingKeepsPlace(s, accept);
        } else {
          WaitingKeepsPlace(s, accept);
        }
        MainKeepsHandles(s, accept);
        MainKeepsSession(s, accept);
        MainKeepsSignals(s, accept);
      }
    case Exit(i) => if i < MAX_CONTROLLERS && s.SlotAt(i).running { ExitKeepsInv(s, i); }
    case Poll(i, buttons) => if i < MAX_CONTROLLERS && s.SlotAt(i).running { PollKeepsInv(s, i, buttons); }
    case _ =>
  }

  lemma {:induction false} RunsKeepInv(actions: seq<Action>)
    ensures Inv(After(actions))
  {
    if actions == [] {
      InitialInv();
    } else {
      RunsKeepInv(actions[..|actions| - 1]);
      StepKeepsInv(After(actions[..|actions| - 1]), actions[|actions| - 1]);
    }
  }

  // ----- what holds of every interleaving -----

  lemma RunOnceMore(actions: seq<Action>, a: Action)
    ensures After(actions + [a]) == Step(After(actions), a)
  {
    assert (actions + [a])[..|actions|] == actions;
  }

  /** Two threads never serve the same psmoveapi id, and each slot serves its own controller id. */
  lemma DistinctControllers(actions: seq<Action>)
    ensures var s := After(actions);
      && (s.slot0.running && s.slot1.running ==> {s.slot0.psmoveId, s.slot1.psmoveId} == {0, 1})
      && (s.slot0.running ==> s.slot0.id == First && s.slot0.psmoveId in {0, 1} && s.slot0.move.Some?)
      && (s.slot1.running ==> s.slot1.id == Second && s.slot1.psmoveId in {0, 1} && s.slot1.move.Some?)
  {
    RunsKeepInv(actions);
    DistinctIds(After(actions));
  }

  lemma DistinctIds(s: State)
    requires SlotsOk(s)
    ensures s.slot0.running && s.slot1.running ==> {s.slot0.psmoveId, s.slot1.psmoveId} == {0, 1}
  {
  }

  /** Each accepted handle is taken over by one slot, in order; at most the last one is still on its way there, and
  then a slot is free for it. */
  lemma EveryHandleAdopted(actions: seq<Action>)
    ensures var s := After(actions);
      && (forall k :: 0 <= k < |s.adopted| ==>
        s.adopted[k].move == k && s.adopted[k].slot < MAX_CONTROLLERS && s.adopted[k].id == IdOf(s.adopted[k].slot))
      && (|s.adopted| == s.accepted || (|s.adopted| + 1 == s.accepted && s.SomeIdle() && (s.pc.Offer? || s.pc.Start?)))
  {
    RunsKeepInv(actions);
  }

  /** The handle on its way to a slot is the next one. */
  lemma HandlesInOrder(actions: seq<Action>)
    ensures var s := After(actions); s.pc.Offer? || s.pc.Start? ==> s.pc.move == |s.adopted| && s.accepted == |s.adopted| + 1
  {
    RunsKeepInv(actions);
  }

  /** A handle that was taken over is held by one running slot or has been closed, once; when `run` has returned, all
  accepted handles have been closed. */
  lemma HandlesHeldOrClosed(actions: seq<Action>, h: Handle)
    ensures var s := After(actions);
      && multiset(s.closed)[h] + s.Holders(h) == (if h < |s.adopted| then 1 else 0)
      && (s.pc.Stopped? ==> multiset(s.closed)[h] == if h < s.accepted then 1 else 0)
  {
    RunsKeepInv(actions);
  }

  lemma StoppedClosesAll(actions: seq<Action>)
    ensures var s := After(actions); s.pc.Stopped? ==> s.AllIdle() && |s.closed| == s.accepted
  {
    RunsKeepInv(actions);
  }

  /** When DisconnectComplete is raised, and when `run` returns, no controller thread is running. */
  lemma CompleteOnlyWhenIdle(actions: seq<Action>, a: Action)
    ensures var s := After(actions);
      var t := After(actions + [a]);
      t.signals == s.signals + [DisconnectComplete] || t.pc.Stopped? ==> s.AllIdle() && t.AllIdle()
  {
    RunOnceMore(actions, a);
    RunsKeepInv(actions);
    StepsAwayFromIdle(After(actions), a);
  }

  lemma StepsAwayFromIdle(s: State, a: Action)
    requires PcOk(s)
    ensures var t := Step(s, a);
      t.signals == s.signals + [DisconnectComplete] || t.pc.Stopped? ==> s.AllIdle() && t.AllIdle()
  {
    var t := Step(s, a);
    if t.signals == s.signals + [DisconnectComplete] {
      assert t.signals[|s.signals|] == DisconnectComplete;
    }
  }

  /** After `run` has returned nothing starts, ends or is signalled any more. */
  lemma {:induction false} StopIsFinal(actions: seq<Action>, more: seq<Action>)
    requires After(actions).pc.Stopped?
    ensures OnlyFlagsDiffer(After(actions), After(actions + more))
  {
    RunsKeepInv(actions);
    if more == [] {
      assert actions + more == actions;
    } else {
      var n := |more| - 1;
      StopIsFinal(actions, more[..n]);
      assert actions + more == (actions + more[..n]) + [more[n]];
      RunOnceMore(actions + more[..n], more[n]);
      StoppedStep(After(actions), After(actions + more[..n]), more[n]);
    }
  }

  predicate OnlyFlagsDiffer(s: State, t: State) {
    t == s.(stop := t.stop, threadStop := t.threadStop)
  }

  lemma StoppedStep(s: State, t: State, a: Action)
    requires PcOk(s) && s.pc.Stopped? && OnlyFlagsDiffer(s, t)
    ensures OnlyFlagsDiffer(s, Step(t, a))
  {
  }

  /** A thread that has ended since the last DisconnectComplete leaves a request to stop the others, and until that is
  done at most one more controller is taken over: three between two DisconnectCompletes. */
  lemma SessionsEnd(actions: seq<Action>)
    ensures var s := After(actions);
      && (s.session < |s.closed| ==> s.threadStop || s.pc.SignalComplete?)
      && |s.adopted| <= s.session + 3
      && (s.session == |s.closed| ==> |s.adopted| <= s.session + 2)
  {
    RunsKeepInv(actions);
  }

  /** A controller's button signals differ from one to the next, across reconnections too, because `buttons_` outlives
  the thread. */
  lemma OnlyChangesAreSignalled(actions: seq<Action>)
    ensures OnlyChanges(After(actions).signals)
  {
    RunsKeepInv(actions);
  }

  /** In every interleaving, a report that a running thread fetches is signalled, under its controller's id, exactly if it
  differs from the last one that was; after that, the last buttons signalled are those of the report.  The other
  controller's are as before. */
  lemma PollIsSignalled(actions: seq<Action>, i: nat, buttons: int)
    requires i < MAX_CONTROLLERS && After(actions).SlotAt(i).running
    ensures var s, t := After(actions), After(actions + [Poll(i, buttons)]);
      && t.signals == s.signals + (if LastButtons(s.signals, IdOf(i)) != buttons then [Buttons(buttons, IdOf(i))] else [])
      && LastButtons(t.signals, IdOf(i)) == buttons
      && LastButtons(t.signals, IdOf(1 - i)) == LastButtons(s.signals, IdOf(1 - i))
  {
    RunsKeepInv(actions);
    RunOnceMore(actions, Poll(i, buttons));
    PolledSignals(After(actions), i, buttons);
  }

  lemma PolledSignals(s: State, i: nat, buttons: int)
    requires SlotsOk(s) && SignalsOk(s) && i < MAX_CONTROLLERS && s.SlotAt(i).running
    ensures var t := PollStep(s, i, buttons);
      && t.signals == s.signals + (if LastButtons(s.signals, IdOf(i)) != buttons then [Buttons(buttons, IdOf(i))] else [])
      && LastButtons(t.signals, IdOf(i)) == buttons
      && LastButtons(t.signals, IdOf(1 - i)) == LastButtons(s.signals, IdOf(1 - i))
  {
    if s.SlotAt(i).buttons != buttons {
      SignalsGrow(s.signals, Buttons(buttons, IdOf(i)));
    }
  }

  /** Nothing but a poll signals buttons. */
  lemma OnlyPollsSignalButtons(actions: seq<Action>, a: Action)
    requires !a.Poll?
    ensures var s, t := After(actions), After(actions + [a]);
      t.signals == s.signals || t.signals == s.signals + [DisconnectComplete]
  {
    RunOnceMore(actions, a);
  }

  /** A request to stop stands from the first call of `stop` on. */
  lemma {:induction false} StopIsRequested(actions: seq<Action>)
    ensures After(actions).stop <==> CallStop in actions
  {
    if actions != [] {
      var before, a := actions[..|actions| - 1], actions[|actions| - 1];
      StopIsRequested(before);
      assert actions == before + [a];
      StopAfterStep(After(before), a);
    }
  }

  lemma StopAfterStep(s: State, a: Action)
    ensures Step(s, a).stop <==> s.stop || a == CallStop
  {
  }

  /** A thread's end and the disconnect key request the others to stop. */
  lemma DisconnectIsRequested(actions: seq<Action>, a: Action)
    requires a.CallDisconnectKey? || (a.Exit? && a.i < MAX_CONTROLLERS && After(actions).SlotAt(a.i).running)
    ensures After(actions + [a]).threadStop
    ensures a.Exit? ==> !After(actions + [a]).SlotAt(a.i).running
  {
    RunOnceMore(actions, a);
  }
}
