/** The classes PSMoveListener and ControllerThread (psmove_listener.cpp), proved to take only the steps of
`ListenerModel`.  Before each step of the main loop the other threads take steps of their own, as `schedule` says. */
module PSMoveListener {
  import opened CStrings
  import opened Controllers
  import opened ListenerModel
  import opened ListenerProperties

  class ControllerThread {
    var thread: bool
    var id: ControllerId
    var psmoveId: int
    var move: Option<Handle>
    var buttons: int

    constructor ()
      ensures AsSlot() == IDLE
    {
      thread, id, psmoveId, move, buttons := false, First, 0, None, 0;
    }

    function AsSlot(): Slot
      reads this
    {
      Slot(thread, id, psmoveId, move, buttons)
    }

    predicate Running()
      reads this
    {
      thread
    }

    method Start(id: ControllerId, psmoveId: int, move: Handle)
      modifies this
      ensures AsSlot() == if old(thread) then old(AsSlot()) else Slot(true, id, psmoveId, Some(move), old(buttons))
    {
      if !thread {
        this.id, this.psmoveId, this.move := id, psmoveId, Some(move);
        thread := true;
      }
    }

    method CleanUp()
      modifies this
      ensures AsSlot() == old(AsSlot()).(running := false, move := None)
    {
      thread := false;
      move := None;
    }
  }

  class PSMoveListener {
    const controllerThreads: seq<ControllerThread>
    const schedule: nat -> seq<Action>
    const accepts: nat -> bool
    var stop: bool
    var threadStop: bool
    var time: nat
    ghost var pc: Pc
    var accepted: nat
    ghost var adopted: seq<Adoption>
    ghost var closed: seq<Handle>
    ghost var signals: seq<Signal>
    ghost var session: nat
    ghost var actions: seq<Action>

    ghost predicate Shape() {
      |controllerThreads| == MAX_CONTROLLERS && controllerThreads[0] != controllerThreads[1]
    }

    ghost function St(): State
      requires Shape()
      reads this, controllerThreads
    {
      State(pc, stop, threadStop, controllerThreads[0].AsSlot(), controllerThreads[1].AsSlot(),
            accepted, adopted, closed, signals, session)
    }

    ghost predicate Valid()
      reads this, controllerThreads
    {
      Shape() && St() == After(actions)
    }

    constructor (schedule: nat -> seq<Action>, accepts: nat -> bool)
      ensures Valid() && actions == [] && fresh(controllerThreads)
      ensures this.schedule == schedule && this.accepts == accepts
    {
      var first := new ControllerThread();
      var second := new ControllerThread();
      controllerThreads := [first, second];
      this.schedule, this.accepts := schedule, accepts;
      stop, threadStop, time := false, false, 0;
      pc, accepted, adopted, closed, signals, session, actions := Pc.ReadStop, 0, [], [], [], 0, [];
    }

    // ----- steps of the other threads -----

    method Stop()
      requires Valid()
      modifies `stop, `actions
      ensures Valid() && actions == old(actions) + [CallStop]
    {
      stop := true;
      actions := actions + [CallStop];
      RunOnceMore(old(actions), CallStop);
    }

    method OnDisconnect()
      requires Shape()
      modifies `threadStop
      ensures threadStop
    {
      threadStop := true;
    }

    method OnDisconnectKey()
      requires Valid()
      modifies `threadStop, `actions
      ensures Valid() && actions == old(actions) + [CallDisconnectKey]
    {
      OnDisconnect();
      actions := actions + [CallDisconnectKey];
      RunOnceMore(old(actions), CallDisconnectKey);
    }

    /** A controller thread fetches a button report. */
    method PollButtons(i: nat, buttons: int)
      requires Valid() && i < MAX_CONTROLLERS && controllerThreads[i].thread
      modifies `signals, `actions, controllerThreads
      ensures Valid() && actions == old(actions) + [Poll(i, buttons)]
    {
      var self := controllerThreads[i];
      if self.buttons != buttons {
        self.buttons := buttons;
        signals := signals + [Buttons(buttons, self.id)];
      }
      actions := actions + [Poll(i, buttons)];
      RunOnceMore(old(actions), Poll(i, buttons));
    }

    /** A controller thread leaves its loop and cleans up. */
    method ExitThread(i: nat)
      requires Valid() && i < MAX_CONTROLLERS && controllerThreads[i].thread
      modifies `threadStop, `closed, `actions, controllerThreads
      ensures Valid() && actions == old(actions) + [Exit(i)] && !controllerThreads[i].thread
    {
      ghost var s := St();
      var move := controllerThreads[i].move;
      controllerThreads[i].CleanUp();
      assert controllerThreads[1 - i].AsSlot() == s.SlotAt(1 - i);
      if move.Some? {
        closed := closed + [move.value];
      }
      OnDisconnect();
      assert St() == ExitStep(s, i);
      actions := actions + [Exit(i)];
      RunOnceMore(old(actions), Exit(i));
    }

    method Others()
      requires Valid()
      modifies this, controllerThreads
      ensures Valid() && old(actions) <= actions && pc == old(pc) && accepted == old(accepted)
    {
      var steps := schedule(time);
      time := time + 1;
      for k := 0 to |steps|
        invariant Valid() && old(actions) <= actions && pc == old(pc) && accepted == old(accepted)
      {
        match steps[k] {
          case CallStop => Stop();
          case CallDisconnectKey => OnDisconnectKey();
          case Exit(i) => if i < MAX_CONTROLLERS && controllerThreads[i].thread { ExitThread(i); }
          case Poll(i, buttons) => if i < MAX_CONTROLLERS && controllerThreads[i].thread { PollButtons(i, buttons); }
          case Main(_) =>
        }
      }
    }

    // ----- steps of the main loop -----

    /** Is the next step one that only reads? */
    ghost predicate OnlyReads(pc: Pc, answer: bool) {
      match pc
      case ClearThreadStop => false
      case SignalComplete => false
      case Connect(id) => !answer
      case Start(i, id, move) => answer
      case _ => true
    }

    /** The main loop has read `answer`. */
    ghost method Advance(answer: bool)
      requires Valid() && answer == Answer(St(), answer) && OnlyReads(pc, answer)
      modifies `pc, `actions
      ensures Valid() && actions == old(actions) + [Main(answer)] && pc == NextPc(old(pc), answer, accepted)
    {
      pc := NextPc(pc, answer, accepted);
      actions := actions + [Main(answer)];
      RunOnceMore(old(actions), Main(answer));
    }

    method ReadStop() returns (b: bool)
      requires Valid() && (pc.ReadStop? || pc.ReadStopAgain?)
      modifies this, controllerThreads
      ensures Valid() && old(actions) <= actions && pc == NextPc(old(pc), b, accepted)
    {
      Others();
      b := stop;
      Advance(b);
    }

    method ReadThreadStop() returns (b: bool)
      requires Valid() && pc.ReadThreadStop?
      modifies this, controllerThreads
      ensures Valid() && old(actions) <= actions && pc == NextPc(old(pc), b, accepted)
    {
      Others();
      b := threadStop;
      Advance(b);
    }

    method ReadRunning(i: nat) returns (b: bool)
      requires Valid() && (pc.Full? || pc.Offer?) && pc.i == i < MAX_CONTROLLERS
      modifies this, controllerThreads
      ensures Valid() && old(actions) <= actions && pc == NextPc(old(pc), b, accepted) && accepted == old(accepted)
    {
      Others();
      b := controllerThreads[i].Running();
      Advance(b);
    }

    method Serves(i: nat, psmoveId: nat) returns (b: bool)
      requires Valid() && pc == Scan(psmoveId, i) && i < MAX_CONTROLLERS
      modifies this, controllerThreads
      ensures Valid() && old(actions) <= actions && pc == NextPc(old(pc), b, accepted)
    {
      Others();
      b := controllerThreads[i].Running() && controllerThreads[i].psmoveId == psmoveId;
      Advance(b);
    }

    /** Waits until the thread has ended. */
    method Join(i: nat)
      requires Valid() && pc == Pc.Join(i) && i < MAX_CONTROLLERS
      modifies this, controllerThreads
      ensures Valid() && old(actions) <= actions && pc == NextPc(old(pc), false, accepted)
    {
      Others();
      if controllerThreads[i].thread {
        ExitThread(i);
      }
      Advance(false);
    }

    method ClearThreadStop()
      requires Valid() && pc.ClearThreadStop?
      modifies this, controllerThreads
      ensures Valid() && old(actions) <= actions && pc == Pc.SignalComplete
    {
      Others();
      ghost var before := actions;
      threadStop := false;
      pc := SignalComplete;
      actions := actions + [Main(false)];
      RunOnceMore(before, Main(false));
    }

    method SignalDisconnectComplete()
      requires Valid() && pc.SignalComplete?
      modifies this, controllerThreads
      ensures Valid() && old(actions) <= actions && pc == Full(0)
    {
      Others();
      ghost var before := actions;
      signals := signals + [DisconnectComplete];
      session, pc := |adopted|, Full(0);
      actions := actions + [Main(false)];
      RunOnceMore(before, Main(false));
    }

    method IsFullCapacity() returns (isFull: bool)
      requires Valid() && pc == Full(0)
      modifies this, controllerThreads
      ensures Valid() && old(actions) <= actions && pc == if isFull then Sleep else Scan(0, 0)
    {
      isFull := true;
      for i := 0 to MAX_CONTROLLERS
        invariant Valid() && old(actions) <= actions && isFull && pc == if i < MAX_CONTROLLERS then Full(i) else Sleep
      {
        var running := ReadRunning(i);
        if !running {
          isFull := false;
          break;
        }
      }
    }

    method ConnectById(psmoveId: nat) returns (move: Option<Handle>)
      requires Valid() && pc == Pc.Connect(psmoveId)
      modifies this, controllerThreads
      ensures Valid() && old(actions) <= actions
      ensures pc == if move.Some? then Offer(0, psmoveId, move.value) else AfterId(psmoveId)
    {
      Others();
      if accepts(time) {
        ghost var before := actions;
        move := Some(accepted);
        pc, accepted := Offer(0, psmoveId, accepted), accepted + 1;
        actions := actions + [Main(true)];
        RunOnceMore(before, Main(true));
      } else {
        move := None;
        Advance(false);
      }
    }

    method Connect() returns (psmoveId: nat, move: Option<Handle>)
      requires Valid() && pc == Scan(0, 0)
      modifies this, controllerThreads
      ensures Valid() && old(actions) <= actions && pc == if move.Some? then Offer(0, psmoveId, move.value) else Sleep
    {
      move, psmoveId := None, 0;
      while psmoveId < MAX_CONTROLLERS
        invariant Valid() && old(actions) <= actions && move == None
        invariant pc == if psmoveId < MAX_CONTROLLERS then Scan(psmoveId, 0) else Sleep
      {
        var taken := false;
        for i := 0 to MAX_CONTROLLERS
          invariant Valid() && old(actions) <= actions && !taken
          invariant pc == if i < MAX_CONTROLLERS then Scan(psmoveId, i) else Pc.Connect(psmoveId)
        {
          taken := Serves(i, psmoveId);
          if taken {
            break;
          }
        }
        if !taken {
          move := ConnectById(psmoveId);
          if move.Some? {
            break;
          }
        }
        psmoveId := psmoveId + 1;
      }
    }

    method StartThread(i: nat, psmoveId: nat, move: Handle)
      requires Valid() && pc == Pc.Start(i, psmoveId, move) && i < MAX_CONTROLLERS
      modifies this, controllerThreads
      ensures Valid() && old(actions) <= actions && pc == Sleep && accepted == old(accepted)
    {
      Others();
      ghost var before, s := actions, St();
      ghost var running := controllerThreads[i].thread;
      controllerThreads[i].Start(IdOf(i), psmoveId, move);
      assert controllerThreads[1 - i].AsSlot() == s.SlotAt(1 - i);
      if running {
        Advance(true);
      } else {
        adopted := adopted + [Adoption(move, i, IdOf(i), psmoveId)];
        pc := Sleep;
        actions := actions + [Main(false)];
        RunOnceMore(before, Main(false));
        assert St() == MainStep(s, false);
      }
    }

    /** The first free slot takes the handle over; there always is one. */
    method HandleNewDevice(psmoveId: nat, move: Handle)
      requires Valid() && pc == Offer(0, psmoveId, move)
      modifies this, controllerThreads
      ensures Valid() && old(actions) <= actions && pc == Sleep
      ensures |adopted| == move + 1 && adopted[move].move == move && adopted[move].slot < MAX_CONTROLLERS
    {
      EveryHandleAdopted(actions);
      HandlesInOrder(actions);
      var running := ReadRunning(0);
      if !running {
        StartThread(0, psmoveId, move);
      } else {
        running := ReadRunning(1);
        if !running {
          StartThread(1, psmoveId, move);
        }
      }
      EveryHandleAdopted(actions);
    }

    /** Waits for the controller threads, and says if the listener stops. */
    method StopThreads() returns (stopped: bool)
      requires Valid() && pc == Pc.Join(0)
      modifies this, controllerThreads
      ensures Valid() && old(actions) <= actions && pc == if stopped then Stopped else Full(0)
    {
      for i := 0 to MAX_CONTROLLERS
        invariant Valid() && old(actions) <= actions && pc == if i < MAX_CONTROLLERS then Pc.Join(i) else ReadStopAgain
      {
        Join(i);
      }
      stopped := ReadStop();
      if !stopped {
        ClearThreadStop();
        SignalDisconnectComplete();
      }
    }

    method ConnectNewDevice()
      requires Valid() && pc == Full(0)
      modifies this, controllerThreads
      ensures Valid() && old(actions) <= actions && pc == Sleep
    {
      var isFull := IsFullCapacity();
      if !isFull {
        var psmoveId, move := Connect();
        if move.Some? {
          HandleNewDevice(psmoveId, move.value);
        }
      }
    }

    /** The main loop, for at most `laps` laps. */
    method Run(laps: nat) returns (stopped: bool)
      requires Valid() && pc == Pc.ReadStop
      modifies this, controllerThreads
      ensures Valid() && old(actions) <= actions && pc == if stopped then Stopped else Pc.ReadStop
      ensures stopped ==> St().AllIdle() && |St().closed| == accepted
    {
      for lap := 0 to laps
        invariant Valid() && old(actions) <= actions && pc == Pc.ReadStop
      {
        var stopping := ReadStop();
        if !stopping {
          stopping := ReadThreadStop();
        }
        if stopping {
          stopped := StopThreads();
          if stopped {
            StoppedClosesAll(actions);
            return;
          }
        }
        ConnectNewDevice();
        Advance(false);
      }
      stopped := false;
    }
  }
}
