/** PSMoveListener as a system of interleaved steps (psmove_listener.cpp): the main loop, two controller threads, and
calls of `stop` and `onDisconnectKey` from elsewhere.  Each step reads or writes one shared field, except that a
controller thread starts in one step, and cleans up in one step. */
module ListenerModel {
  import opened CStrings
  import opened Controllers

  const MAX_CONTROLLERS: nat := 2

  /** An accepted connection, named by its place in the order of acceptance. */
  type Handle = nat

  /** A controller thread object: is its `thread_` set, and its other fields, which outlive the thread. */
  datatype Slot = Slot(running: bool, id: ControllerId, psmoveId: int, move: Option<Handle>, buttons: int)

  /** Where the main loop stands; `i` counts slots and `id` psmoveapi ids. */
  datatype Pc =
    | ReadStop
    | ReadThreadStop
    | Join(i: nat)
    | ReadStopAgain
    | ClearThreadStop
    | SignalComplete
    | Full(i: nat)
    | Scan(id: nat, i: nat)
    | Connect(id: nat)
    | Offer(i: nat, id: nat, move: Handle)
    | Start(i: nat, id: nat, move: Handle)
    | Sleep
    | Stopped

  /** A handle that a slot took over. */
  datatype Adoption = Adoption(move: Handle, slot: nat, id: ControllerId, psmoveId: int)

  datatype Signal = DisconnectComplete | Buttons(buttons: int, id: ControllerId)

  /** The shared fields, and what has happened: how many handles `connect` has accepted, which were taken over and
  which were closed, the signals, and how many had been taken over when the last DisconnectComplete was raised. */
  datatype State = State(pc: Pc, stop: bool, threadStop: bool, slot0: Slot, slot1: Slot,
                         accepted: nat, adopted: seq<Adoption>, closed: seq<Handle>, signals: seq<Signal>, session: nat)
  {
    function SlotAt(i: nat): Slot {
      if i == 0 then slot0 else slot1
    }

    function WithSlot(i: nat, slot: Slot): State {
      if i == 0 then this.(slot0 := slot) else this.(slot1 := slot)
    }

    predicate AllIdle() {
      !slot0.running && !slot1.running
    }

    /** Is a slot free for the handle that `connect` is looking for? */
    predicate SomeIdle() {
      !slot0.running || !slot1.running
    }

    function RunningCount(): nat {
      (if slot0.running then 1 else 0) + (if slot1.running then 1 else 0)
    }

    /** How many running slots hold a handle. */
    function Holders(h: Handle): nat {
      (if slot0.running && slot0.move == Some(h) then 1 else 0) + (if slot1.running && slot1.move == Some(h) then 1 else 0)
    }
  }

  function IdOf(i: nat): ControllerId {
    if i == 0 then First else Second
  }

  const IDLE := Slot(false, First, 0, None, 0)
  const INITIAL := State(ReadStop, false, false, IDLE, IDLE, 0, [], [], [], 0)

  // ----- steps -----

  /** One step of the main loop (`accept` says if a connection comes about), a call of `stop` or of
  `onDisconnectKey`, the end of a controller thread, or a button report that a controller thread fetches. */
  datatype Action = Main(accept: bool) | CallStop | CallDisconnectKey | Exit(i: nat) | Poll(i: nat, buttons: int)

  function AfterId(id: nat): Pc {
    if id + 1 < MAX_CONTROLLERS then Scan(id + 1, 0) else Sleep
  }

  /** What the main loop reads in its next step: a flag, if a thread is running (with the id it looks for), or if a
  connection came about. */
  predicate Answer(s: State, accept: bool) {
    match s.pc
    case ReadStop => s.stop
    case ReadThreadStop => s.threadStop
    case Join(i) => s.SlotAt(i).running
    case ReadStopAgain => s.stop
    case Full(i) => s.SlotAt(i).running
    case Scan(id, i) => s.SlotAt(i).running && s.SlotAt(i).psmoveId == id
    case Connect(id) => accept
    case Offer(i, id, move) => s.SlotAt(i).running
    case Start(i, id, move) => s.SlotAt(i).running
    case _ => false
  }

  /** Where the main loop goes; `handle` is the next handle. */
  function NextPc(pc: Pc, answer: bool, handle: Handle): Pc {
    match pc
    case ReadStop => if answer then Join(0) else ReadThreadStop
    case ReadThreadStop => if answer then Join(0) else Full(0)
    case Join(i) => if answer then pc else if i + 1 < MAX_CONTROLLERS then Join(i + 1) else ReadStopAgain
    case ReadStopAgain => if answer then Stopped else ClearThreadStop
    case ClearThreadStop => SignalComplete
    case SignalComplete => Full(0)
    case Full(i) => if !answer then Scan(0, 0) else if i + 1 < MAX_CONTROLLERS then Full(i + 1) else Sleep
    case Scan(id, i) => if answer then AfterId(id) else if i + 1 < MAX_CONTROLLERS then Scan(id, i + 1) else Connect(id)
    case Connect(id) => if answer then Offer(0, id, handle) else AfterId(id)
    case Offer(i, id, move) =>
      if !answer then Start(i, id, move) else if i + 1 < MAX_CONTROLLERS then Offer(i + 1, id, move) else Sleep
    case Start(i, id, move) => Sleep
    case Sleep => ReadStop
    case Stopped => Stopped
  }

  function MainStep(s: State, accept: bool): State {
    var answer := Answer(s, accept);
    var t := s.(pc := NextPc(s.pc, answer, s.accepted));
    match s.pc
    case ClearThreadStop => t.(threadStop := false)
    case SignalComplete => t.(signals := s.signals + [DisconnectComplete], session := |s.adopted|)
    case Connect(id) => if accept then t.(accepted := s.accepted + 1) else t
    case Start(i, id, move) =>
      if answer then t
      else
        t.WithSlot(i, Slot(true, IdOf(i), id, Some(move), s.SlotAt(i).buttons))
         .(adopted := s.adopted + [Adoption(move, i, IdOf(i), id)])
    case _ => t
  }

  /** A thread ends: because it was asked to, or because its controller has sent nothing for too long. */
  function ExitStep(s: State, i: nat): State {
    var slot := s.SlotAt(i);
    s.WithSlot(i, slot.(running := false, move := None))
     .(closed := if slot.move.Some? then s.closed + [slot.move.value] else s.closed, threadStop := true)
  }

  function PollStep(s: State, i: nat, buttons: int): State {
    var slot := s.SlotAt(i);
    if slot.buttons == buttons then s
    else s.WithSlot(i, slot.(buttons := buttons)).(signals := s.signals + [Buttons(buttons, slot.id)])
  }

  /** A step that cannot be taken changes nothing. */
  function Step(s: State, a: Action): State {
    match a
    case Main(accept) => MainStep(s, accept)
    case CallStop => s.(stop := true)
    case CallDisconnectKey => s.(threadStop := true)
    case Exit(i) => if i < MAX_CONTROLLERS && s.SlotAt(i).running then ExitStep(s, i) else s
    case Poll(i, buttons) => if i < MAX_CONTROLLERS && s.SlotAt(i).running then PollStep(s, i, buttons) else s
  }

  /** The state after an interleaving. */
  function After(actions: seq<Action>): State {
    if actions == [] then INITIAL else Step(After(actions[..|actions| - 1]), actions[|actions| - 1])
  }
}
