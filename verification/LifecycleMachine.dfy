// Any number of threads over the coordinator, interleaved at every lock operation.
module LifecycleMachine {
  import opened Wrappers
  import opened Bytes
  import opened Lifecycle

  type Tid = nat

  // The operations that hold the delivery barrier exclusively.
  datatype Operation =
    | Register(identity: Identity)
    | InvalidateOne(id: RegId)
    | InvalidateProvider(provider: Pointer)
    | InvalidateContext(logicalContext: Pointer)
    | Teardown

  // An outstanding admission ticket: its request, how many deliveries the native call has
  // still to make, and its number in the order of admissions.
  datatype Ticket = Ticket(request: Request, calls: nat, serial: nat)

  // Where a thread is. `mark` is the number of admissions when a teardown drained.
  datatype Pc =
    | Idle
    // registerModule, invalidate*, processTeardown
    | WantBarrier(op: Operation)
    | WantState(op: Operation)
    | InState(op: Operation)
    | LeaveBarrier(op: Operation, drained: bool, mark: nat)
    // the rest of processTeardown
    | CloseWantExecution(mark: nat)
    | CloseWantState(mark: nat)
    | CloseInState(mark: nat)
    | CloseLeave(mark: nat)
    // registerProcessLifecycle
    | ProcessWantState
    | ProcessInState
    // AdmissionTicket constructor
    | WantExecution(id: RegId, runtime: Pointer, calls: nat)
    | BeginWantState(id: RegId, runtime: Pointer, calls: nat)
    | BeginInState(id: RegId, runtime: Pointer, calls: nat)
    // an outstanding ticket: the native call, deliver, and the destructor
    | Running(ticket: Ticket)
    | DeliverWantBarrier(ticket: Ticket)
    | DeliverWantState(ticket: Ticket)
    | DeliverInState(ticket: Ticket)
    | Delivering(ticket: Ticket)
    | DeliverLeave(ticket: Ticket)
    | FinishWantState(ticket: Ticket)
    | FinishInState(ticket: Ticket)
    // the execution lock is released last
    | LeaveExecution

  datatype Machine = Machine(
    c: Coordinator,
    threads: seq<Pc>,
    active: seq<bool>,
    execution: Option<Tid>,
    barrier: Option<Tid>,
    sharers: set<Tid>,
    state: Option<Tid>,
    admissions: nat,
    drained: nat)

  datatype Event =
    | Start(op: Operation)
    | StartProcess
    | Invoke(id: RegId, runtime: Pointer, calls: nat)
    | Deliver
    | Return
    | Advance

  // ----- which locks a thread holds

  predicate HasTicket(pc: Pc) {
    pc.Running? || pc.DeliverWantBarrier? || pc.DeliverWantState? || pc.DeliverInState? || pc.Delivering?
    || pc.DeliverLeave? || pc.FinishWantState? || pc.FinishInState?
  }

  predicate HoldsExecution(pc: Pc) {
    HasTicket(pc) || pc.BeginWantState? || pc.BeginInState? || pc.LeaveExecution?
    || pc.CloseWantState? || pc.CloseInState? || pc.CloseLeave?
  }

  predicate HoldsBarrier(pc: Pc) {
    pc.WantState? || pc.InState? || pc.LeaveBarrier?
  }

  predicate SharesBarrier(pc: Pc) {
    pc.DeliverWantState? || pc.DeliverInState? || pc.Delivering? || pc.DeliverLeave?
  }

  predicate HoldsState(pc: Pc) {
    pc.InState? || pc.CloseInState? || pc.ProcessInState? || pc.BeginInState? || pc.DeliverInState? || pc.FinishInState?
  }

  // ----- references that keep a registration alive

  predicate Refers(pc: Pc, id: RegId) {
    (HasTicket(pc) && pc.ticket.request.registration == id)
    || ((pc.WantExecution? || pc.BeginWantState? || pc.BeginInState?) && pc.id == id)
    || ((HoldsBarrier(pc) || pc.WantBarrier?) && pc.op == InvalidateOne(id))
  }

  predicate NullArgument(op: Operation) {
    match op
    case Register(identity) => !Complete(identity)
    case InvalidateProvider(provider) => provider == NULL
    case InvalidateContext(context) => context == NULL
    case _ => false
  }

  // ----- the critical sections

  // What an operation does while it holds barrier and state lock; true when it goes on to close.
  function Apply(c: Coordinator, op: Operation): (Coordinator, bool) {
    match op
    case Register(identity) => (RegisterModule(c, identity).0, false)
    case InvalidateOne(id) => (if id < |c.heap| then Invalidate(c, id) else c, false)
    case InvalidateProvider(provider) => (InvalidateSelected(c, OfProvider(provider)), false)
    case InvalidateContext(context) => (InvalidateSelected(c, OfContext(context)), false)
    case Teardown => Drain(c)
  }

  function At(m: Machine, t: Tid, pc: Pc): Machine
    requires t < |m.threads|
  {
    m.(threads := m.threads[t := pc])
  }

  function AdvanceOperation(m: Machine, t: Tid): Option<Machine>
    requires t < |m.threads|
  {
    match m.threads[t]
    case WantBarrier(op) =>
      if m.barrier.Some? || m.sharers != {} then None
      else Some(At(m, t, WantState(op)).(barrier := Some(t)))
    case WantState(op) =>
      if m.state.Some? then None else Some(At(m, t, InState(op)).(state := Some(t)))
    case InState(op) =>
      var (c, drains) := Apply(m.c, op);
      Some(At(m, t, LeaveBarrier(op, drains, m.admissions)).(c := c, state := None))
    case LeaveBarrier(op, drains, mark) =>
      Some(At(m, t, if drains then CloseWantExecution(mark) else Idle).(barrier := None))
    case CloseWantExecution(mark) =>
      if m.execution.Some? then None else Some(At(m, t, CloseWantState(mark)).(execution := Some(t)))
    case CloseWantState(mark) =>
      if m.state.Some? then None else Some(At(m, t, CloseInState(mark)).(state := Some(t)))
    case CloseInState(mark) =>
      Some(At(m, t, CloseLeave(mark)).(c := Close(m.c), state := None))
    case CloseLeave(mark) =>
      Some(At(m, t, Idle).(execution := None, drained := if mark > m.drained then mark else m.drained))
    case ProcessWantState =>
      if m.state.Some? then None else Some(At(m, t, ProcessInState).(state := Some(t)))
    case ProcessInState =>
      Some(At(m, t, Idle).(c := RegisterProcessLifecycle(m.c), state := None))
    case _ => None
  }

  function AdvanceTicket(m: Machine, t: Tid): Option<Machine>
    requires t < |m.threads| == |m.active|
  {
    match m.threads[t]
    case WantExecution(id, runtime, calls) =>
      if m.execution.Some? then None
      else if runtime == NULL then Some(At(m, t, LeaveExecution).(execution := Some(t)))
      else Some(At(m, t, BeginWantState(id, runtime, calls)).(execution := Some(t)))
    case BeginWantState(id, runtime, calls) =>
      if m.state.Some? then None else Some(At(m, t, BeginInState(id, runtime, calls)).(state := Some(t)))
    case BeginInState(id, runtime, calls) =>
      if id >= |m.c.heap| then None else
      var (c, request) := Begin(m.c, id, runtime);
      if request.None? then Some(At(m, t, LeaveExecution).(c := c, state := None))
      else Some(At(m, t, Running(Ticket(request.value, calls, m.admissions + 1)))
        .(c := c, state := None, active := m.active[t := true], admissions := m.admissions + 1))
    case DeliverWantBarrier(ticket) =>
      if m.barrier.Some? then None else Some(At(m, t, DeliverWantState(ticket)).(sharers := m.sharers + {t}))
    case DeliverWantState(ticket) =>
      if m.state.Some? then None else Some(At(m, t, DeliverInState(ticket)).(state := Some(t)))
    case DeliverInState(ticket) =>
      Some(At(m, t, if IsLive(m.c, ticket.request) then Delivering(ticket) else DeliverLeave(ticket)).(state := None))
    case Delivering(ticket) => Some(At(m, t, DeliverLeave(ticket)))
    case DeliverLeave(ticket) => Some(At(m, t, Running(ticket)).(sharers := m.sharers - {t}))
    case FinishWantState(ticket) =>
      if m.state.Some? then None else Some(At(m, t, FinishInState(ticket)).(state := Some(t)))
    case FinishInState(ticket) =>
      Some(At(m, t, LeaveExecution)
        .(c := Finish(m.c, ticket.request), state := None, active := m.active[t := false]))
    case LeaveExecution => Some(At(m, t, Idle).(execution := None))
    case _ => None
  }

  // ----- one step

  // A thread starts an operation from outside; a re-entrant call on a thread with an
  // outstanding ticket fails before it locks anything.
  function Begins(m: Machine, t: Tid, e: Event): Option<Machine>
    requires t < |m.threads| == |m.active|
  {
    match e
    case Start(op) =>
      if m.threads[t] != Idle || (op.InvalidateOne? && op.id !in m.c.alive) then None
      else if NullArgument(op) then Some(m)
      else Some(At(m, t, WantBarrier(op)))
    case StartProcess => if m.threads[t] != Idle then None else Some(At(m, t, ProcessWantState))
    case Invoke(id, runtime, calls) =>
      if m.active[t] then Some(m)
      else if m.threads[t] != Idle || id !in m.c.alive then None
      else Some(At(m, t, WantExecution(id, runtime, calls)))
    case _ => None
  }

  // A step a started thread takes on its own, `None` while it waits for a lock.
  function Proceeds(m: Machine, t: Tid, e: Event): Option<Machine>
    requires t < |m.threads| == |m.active|
  {
    match e
    case Advance =>
      var op := AdvanceOperation(m, t);
      if op.Some? then op else AdvanceTicket(m, t)
    case Deliver =>
      if m.threads[t].Running? && m.threads[t].ticket.calls > 0 then
        Some(At(m, t, DeliverWantBarrier(m.threads[t].ticket.(calls := m.threads[t].ticket.calls - 1))))
      else None
    case Return => if m.threads[t].Running? then Some(At(m, t, FinishWantState(m.threads[t].ticket))) else None
    case _ => None
  }

  // The last owner of a registration lets it go.
  ghost predicate Expires(m: Machine, id: RegId) {
    id in m.c.alive && forall t | 0 <= t < |m.threads| :: !Refers(m.threads[t], id)
  }

  ghost predicate Next(m: Machine, m': Machine) {
    |m.threads| == |m.active| &&
    ( (exists t, e | 0 <= t < |m.threads| :: Begins(m, t, e) == Some(m') || Proceeds(m, t, e) == Some(m'))
    || (exists id :: Expires(m, id) && m' == m.(c := m.c.(alive := m.c.alive - {id}))))
  }

  ghost predicate Initial(m: Machine) {
    && m.c == INITIAL
    && |m.active| == |m.threads|
    && (forall t | 0 <= t < |m.threads| :: m.threads[t] == Idle && !m.active[t])
    && m.execution == None && m.barrier == None && m.sharers == {} && m.state == None
    && m.admissions == 0 && m.drained == 0
  }

  ghost predicate IsRun(run: seq<Machine>) {
    run != [] && Initial(run[0]) && forall i | 0 <= i < |run| - 1 :: Next(run[i], run[i + 1])
  }
}
