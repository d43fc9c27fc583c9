// Properties of every interleaving.
module LifecycleTheory {
  import opened Wrappers
  import opened Bytes
  import opened Lifecycle
  import opened LifecycleMachine
  import opened LifecycleState

  // ----- locks

  ghost predicate LocksOf(m: Machine, t: Tid)
    requires t < |m.threads| == |m.active|
  {
    && (HoldsExecution(m.threads[t]) <==> m.execution == Some(t))
    && (HoldsBarrier(m.threads[t]) <==> m.barrier == Some(t))
    && (SharesBarrier(m.threads[t]) <==> t in m.sharers)
    && (HoldsState(m.threads[t]) <==> m.state == Some(t))
    && (HasTicket(m.threads[t]) <==> m.active[t])
  }

  ghost predicate Locks(m: Machine) {
    && |m.threads| == |m.active|
    && (forall t | 0 <= t < |m.threads| :: LocksOf(m, t))
    && (m.execution.Some? ==> m.execution.value < |m.threads|)
    && (m.barrier.Some? ==> m.barrier.value < |m.threads| && m.sharers == {})
    && (m.state.Some? ==> m.state.value < |m.threads|)
    && (forall t | t in m.sharers :: t < |m.threads|)
  }

  // A step of one thread: the others stay where they are.
  ghost predicate OnlyThread(m: Machine, m': Machine, t: Tid) {
    && t < |m.threads| == |m'.threads| && |m.active| == |m'.active| == |m.threads|
    && (forall u | 0 <= u < |m.threads| && u != t :: m'.threads[u] == m.threads[u] && m'.active[u] == m.active[u])
  }

  // No lock of another thread is touched.
  ghost predicate LocksFramed(m: Machine, m': Machine, t: Tid) {
    forall u: Tid | u != t ::
      && (m'.execution == Some(u) <==> m.execution == Some(u))
      && (m'.barrier == Some(u) <==> m.barrier == Some(u))
      && (u in m'.sharers <==> u in m.sharers)
      && (m'.state == Some(u) <==> m.state == Some(u))
  }

  lemma LocksKept(m: Machine, m': Machine, t: Tid)
    requires Locks(m) && OnlyThread(m, m', t) && LocksFramed(m, m', t) && LocksOf(m', t)
    requires m'.barrier.Some? ==> m'.sharers == {}
    ensures Locks(m')
  {
    hide HoldsExecution, HoldsBarrier, SharesBarrier, HoldsState, HasTicket;
    forall u | 0 <= u < |m.threads| ensures LocksOf(m', u) {
      assert LocksOf(m, u);
    }
  }

  lemma OwnLocks(m: Machine, t: Tid)
    requires Locks(m) && t < |m.threads|
    ensures |m.active| == |m.threads| && LocksOf(m, t) && (m.barrier.Some? ==> m.sharers == {})
  {
  }

  lemma BeginsLocks(m: Machine, t: Tid, e: Event, m': Machine)
    requires Locks(m) && t < |m.threads| && Begins(m, t, e) == Some(m')
    ensures Locks(m') && OnlyThread(m, m', t) && m'.c == m.c
  {
    hide Locks;
    OwnLocks(m, t);
    LocksKept(m, m', t);
  }

  lemma AdvanceOperationFrames(m: Machine, t: Tid, m': Machine)
    requires Locks(m) && t < |m.threads| && AdvanceOperation(m, t) == Some(m')
    ensures OnlyThread(m, m', t) && LocksFramed(m, m', t)
  {
    hide Apply, Close, RegisterProcessLifecycle, Locks, HasTicket;
    OwnLocks(m, t);
  }

  lemma AdvanceOperationLocks(m: Machine, t: Tid, m': Machine)
    requires Locks(m) && t < |m.threads| && AdvanceOperation(m, t) == Some(m')
    ensures Locks(m') && OnlyThread(m, m', t)
  {
    hide Apply, Close, RegisterProcessLifecycle, Locks, LocksFramed;
    AdvanceOperationFrames(m, t, m');
    OwnLocks(m, t);
    LocksKept(m, m', t);
  }

  lemma AdvanceTicketFrames(m: Machine, t: Tid, m': Machine)
    requires Locks(m) && t < |m.threads| && AdvanceTicket(m, t) == Some(m')
    ensures OnlyThread(m, m', t) && LocksFramed(m, m', t)
  {
    hide Begin, Finish, IsLive, Locks, HasTicket;
    OwnLocks(m, t);
  }

  lemma AdvanceTicketLocks(m: Machine, t: Tid, m': Machine)
    requires Locks(m) && t < |m.threads| && AdvanceTicket(m, t) == Some(m')
    ensures Locks(m') && OnlyThread(m, m', t)
  {
    hide Begin, Finish, IsLive, Locks, LocksFramed;
    AdvanceTicketFrames(m, t, m');
    OwnLocks(m, t);
    LocksKept(m, m', t);
  }

  lemma ProceedsLocks(m: Machine, t: Tid, e: Event, m': Machine)
    requires Locks(m) && t < |m.threads| && Proceeds(m, t, e) == Some(m')
    ensures Locks(m') && OnlyThread(m, m', t)
  {
    hide AdvanceOperation, AdvanceTicket;
    if e == Advance {
      if AdvanceOperation(m, t).Some? {
        AdvanceOperationLocks(m, t, m');
      } else {
        AdvanceTicketLocks(m, t, m');
      }
    } else {
      assert LocksOf(m, t);
      LocksKept(m, m', t);
    }
  }

  // ----- the invariant of one thread

  ghost predicate TicketOk(m: Machine, ticket: Ticket) {
    && ticket.request.registration in m.c.alive
    && Admitted(m.c, ticket.request)
    && m.drained < ticket.serial <= m.admissions
  }

  // What an operation has achieved by the time it is about to leave the barrier.
  ghost predicate Achieved(c: Coordinator, op: Operation, drained: bool) {
    match op
    case Register(_) => true
    case InvalidateOne(id) => id < |c.heap| && c.heap[id].retired
    case InvalidateProvider(p) => forall id | id in c.alive && id < |c.heap| :: RetiredIf(c.heap[id], OfProvider(p))
    case InvalidateContext(x) => forall id | id in c.alive && id < |c.heap| :: RetiredIf(c.heap[id], OfContext(x))
    case Teardown => drained ==> forall id | id in c.alive && id < |c.heap| :: RetiredIf(c.heap[id], Everything)
  }

  ghost predicate RetiredIf(r: Registration, sel: Selection) {
    Selected(sel, r.identity) ==> r.retired
  }

  ghost predicate ThreadOk(m: Machine, pc: Pc) {
    && (forall id | Refers(pc, id) :: id in m.c.alive)
    && (HasTicket(pc) ==> TicketOk(m, pc.ticket))
    && (pc.Delivering? ==> IsLive(m.c, pc.ticket.request))
    && (pc.LeaveBarrier? ==> Achieved(m.c, pc.op, pc.drained) && pc.mark <= m.admissions)
    && (pc.CloseWantExecution? || pc.CloseWantState? || pc.CloseInState? || pc.CloseLeave? ==> pc.mark <= m.admissions)
    && ((pc.WantBarrier? || HoldsBarrier(pc)) ==> !NullArgument(pc.op))
    && (pc.BeginWantState? || pc.BeginInState? ==> pc.runtime != NULL)
  }

  ghost predicate InFlightOk(m: Machine) {
    m.c.inFlight ==
      if m.execution.Some? && m.execution.value < |m.threads| && HasTicket(m.threads[m.execution.value]) then 1 else 0
  }

  ghost predicate Invariant(m: Machine) {
    && Locks(m)
    && WellFormed(m.c)
    && InFlightOk(m)
    && m.drained <= m.admissions
    && forall t | 0 <= t < |m.threads| :: ThreadOk(m, m.threads[t])
  }

  // ----- the coordinator's part of a step

  lemma ApplyKeeps(c: Coordinator, op: Operation)
    requires WellFormed(c) && !NullArgument(op) && (op.InvalidateOne? ==> op.id in c.alive)
    ensures var (d, drains) := Apply(c, op);
      WellFormed(d) && Kept(c, d) && c.alive <= d.alive && Achieved(d, op, drains) && d.inFlight == c.inFlight
  {
    hide WellFormed, RegisterModule, Invalidate, InvalidateSelected, Drain;
    match op
    case Register(identity) =>
      RegisterKeeps(c, identity);
      RegisterInFlight(c, identity);
    case InvalidateOne(id) =>
      AliveInHeap(c, id);
      InvalidateKeeps(c, id);
      InvalidateInFlight(c, id);
    case InvalidateProvider(p) => InvalidateSelectedAchieves(c, OfProvider(p));
    case InvalidateContext(x) => InvalidateSelectedAchieves(c, OfContext(x));
    case Teardown => DrainAchieves(c);
  }

  lemma AliveInHeap(c: Coordinator, id: RegId)
    requires WellFormed(c) && id in c.alive
    ensures id < |c.heap|
  {
  }

  lemma RegisterInFlight(c: Coordinator, identity: Identity)
    ensures RegisterModule(c, identity).0.inFlight == c.inFlight
  {
  }

  lemma InvalidateInFlight(c: Coordinator, id: RegId)
    requires id < |c.heap|
    ensures Invalidate(c, id).inFlight == c.inFlight
  {
  }

  lemma InvalidateSelectedAchieves(c: Coordinator, sel: Selection)
    requires WellFormed(c)
    ensures var d := InvalidateSelected(c, sel);
      && WellFormed(d) && Kept(c, d) && d.alive == c.alive && d.inFlight == c.inFlight
      && forall id | id in d.alive && id < |d.heap| :: RetiredIf(d.heap[id], sel)
  {
    InvalidateSelectedKeeps(c, sel);
    var d := InvalidateSelected(c, sel);
    forall id | id in d.alive && id < |d.heap| ensures RetiredIf(d.heap[id], sel) {
      assert EntryKept(c.heap[id], d.heap[id]);
      RetiredExactly(c.heap, c.registrations, c.alive, sel, id);
    }
  }

  lemma DrainAchieves(c: Coordinator)
    requires WellFormed(c)
    ensures var (d, drains) := Drain(c);
      && WellFormed(d) && Kept(c, d) && d.alive == c.alive && d.inFlight == c.inFlight
      && (drains ==> forall id | id in d.alive && id < |d.heap| :: RetiredIf(d.heap[id], Everything))
  {
    DrainKeeps(c);
  }

  // What a step may do to the coordinator, seen from another thread.
  ghost predicate Evolves(m: Machine, m': Machine, t: Tid)
    requires t < |m.threads|
  {
    && WellFormed(m'.c) && Kept(m.c, m'.c) && m.c.alive <= m'.c.alive
    && (m'.c.alive == m.c.alive || HoldsBarrier(m.threads[t]))
    && m.admissions <= m'.admissions && m.drained <= m'.drained <= m'.admissions
    && (m'.c == m.c || HoldsBarrier(m.threads[t]) || HoldsExecution(m.threads[t]) || m.c.processState != Ready)
    && (m'.drained == m.drained || HoldsExecution(m.threads[t]))
  }

  lemma AdvanceOperationEvolves(m: Machine, t: Tid, m': Machine)
    requires Invariant(m) && t < |m.threads| && AdvanceOperation(m, t) == Some(m')
    ensures Evolves(m, m', t)
  {
    hide Locks, Apply, WellFormed, InFlightOk, Achieved, TicketOk, Close, RegisterProcessLifecycle;
    assert ThreadOk(m, m.threads[t]);
    var pc := m.threads[t];
    KeptSame(m.c);
    if pc.InState? {
      assert pc.op.InvalidateOne? ==> Refers(pc, pc.op.id);
      ApplyKeeps(m.c, pc.op);
    } else if pc.CloseInState? {
      CloseKeeps(m.c);
    } else if pc.ProcessInState? {
      ProcessKeeps(m.c);
    }
  }

  lemma KeptSame(c: Coordinator)
    ensures Kept(c, c)
  {
  }

  lemma CloseKeeps(c: Coordinator)
    requires WellFormed(c)
    ensures WellFormed(Close(c)) && Kept(c, Close(c)) && Close(c).alive == c.alive && Close(c).inFlight == c.inFlight
  {
  }

  lemma FinishKeeps(c: Coordinator, q: Request)
    requires WellFormed(c)
    ensures WellFormed(Finish(c, q)) && Kept(c, Finish(c, q)) && Finish(c, q).alive == c.alive
  {
  }

  lemma ProcessKeeps(c: Coordinator)
    requires WellFormed(c)
    ensures var d := RegisterProcessLifecycle(c);
      WellFormed(d) && Kept(c, d) && d.alive == c.alive && d.inFlight == c.inFlight
    ensures c.processState == Ready ==> RegisterProcessLifecycle(c) == c
  {
  }

  lemma AdvanceTicketEvolves(m: Machine, t: Tid, m': Machine)
    requires Invariant(m) && t < |m.threads| && AdvanceTicket(m, t) == Some(m')
    ensures Evolves(m, m', t)
  {
    hide Locks, WellFormed, InFlightOk, Achieved, TicketOk, Begin, Finish, IsLive, Kept;
    assert ThreadOk(m, m.threads[t]);
    var pc := m.threads[t];
    KeptSame(m.c);
    if pc.BeginInState? {
      assert Refers(pc, pc.id);
      AliveInHeap(m.c, pc.id);
      BeginKeeps(m.c, pc.id, pc.runtime);
    } else if pc.FinishInState? {
      FinishKeeps(m.c, pc.ticket.request);
    }
  }

  lemma ProceedsEvolves(m: Machine, t: Tid, e: Event, m': Machine)
    requires Invariant(m) && t < |m.threads| && Proceeds(m, t, e) == Some(m')
    ensures Evolves(m, m', t)
  {
    hide AdvanceOperation, AdvanceTicket, Locks, WellFormed, InFlightOk, ThreadOk, Kept, Evolves;
    if e == Advance {
      if AdvanceOperation(m, t).Some? {
        AdvanceOperationEvolves(m, t, m');
      } else {
        AdvanceTicketEvolves(m, t, m');
      }
    } else {
      StillEvolves(m, t, m');
    }
  }

  lemma StillEvolves(m: Machine, t: Tid, m': Machine)
    requires Invariant(m) && t < |m.threads| && m'.c == m.c && m'.admissions == m.admissions && m'.drained == m.drained
    ensures Evolves(m, m', t)
  {
    hide Locks, WellFormed, InFlightOk, ThreadOk;
    KeptSame(m.c);
  }

  // ----- the other threads

  lemma AchievedKept(c: Coordinator, d: Coordinator, op: Operation, drained: bool)
    requires WellFormed(c) && Kept(c, d) && d.alive == c.alive && Achieved(c, op, drained)
    ensures Achieved(d, op, drained)
  {
    forall id | id in c.alive ensures id < |c.heap| && EntryKept(c.heap[id], d.heap[id]) {
      AliveInHeap(c, id);
    }
    if op.InvalidateOne? {
      assert EntryKept(c.heap[op.id], d.heap[op.id]);
    }
  }

  // The locks that keep a step of `t` away from what thread `u` relies on.
  lemma Excluded(m: Machine, t: Tid, u: Tid)
    requires Locks(m) && t < |m.threads| && u < |m.threads| && t != u
    ensures HasTicket(m.threads[u]) ==> !HoldsExecution(m.threads[t])
    ensures HoldsBarrier(m.threads[u]) ==> !HoldsBarrier(m.threads[t])
    ensures SharesBarrier(m.threads[u]) ==> !HoldsBarrier(m.threads[t])
  {
    assert LocksOf(m, t) && LocksOf(m, u);
  }

  lemma OtherOk(m: Machine, m': Machine, t: Tid, u: Tid)
    requires Invariant(m) && t < |m.threads| && u < |m.threads| && t != u && Evolves(m, m', t)
    ensures ThreadOk(m', m.threads[u])
  {
    hide Locks, WellFormed, InFlightOk, Achieved, Kept, IsLive, Admitted;
    var pc := m.threads[u];
    assert ThreadOk(m, pc);
    Excluded(m, t, u);
    if HasTicket(pc) {
      AdmittedKept(m.c, m'.c, pc.ticket.request);
    }
    if pc.Delivering? {
      LiveIsReady(m.c, pc.ticket.request);
    }
    if pc.LeaveBarrier? {
      AchievedKept(m.c, m'.c, pc.op, pc.drained);
    }
  }

  lemma LiveIsReady(c: Coordinator, q: Request)
    requires IsLive(c, q)
    ensures c.processState == Ready
  {
  }

  // ----- the thread that steps

  lemma OperationSelfOk(m: Machine, t: Tid, m': Machine)
    requires Invariant(m) && OnlyThread(m, m', t) && AdvanceOperation(m, t) == Some(m')
    ensures ThreadOk(m', m'.threads[t])
  {
    hide Locks, WellFormed, InFlightOk, Apply, Achieved, Kept, TicketOk, IsLive;
    var pc := m.threads[t];
    assert ThreadOk(m, pc);
    if pc.InState? {
      assert pc.op.InvalidateOne? ==> Refers(pc, pc.op.id);
      ApplyKeeps(m.c, pc.op);
    }
    forall id | Refers(m'.threads[t], id) ensures id in m'.c.alive {
      assert Refers(pc, id);
    }
  }

  // An admission: the thread holds a ticket for the registration it asked for, or it has failed.
  lemma BeginStep(m: Machine, t: Tid, m': Machine)
    requires Invariant(m) && t < |m.threads| && AdvanceTicket(m, t) == Some(m') && m.threads[t].BeginInState?
    ensures m'.threads == m.threads[t := m'.threads[t]] && m'.c.alive == m.c.alive && m'.drained == m.drained
    ensures m'.execution == m.execution
    ensures (m'.threads[t] == LeaveExecution && m'.c.inFlight == m.c.inFlight)
      || (m'.threads[t].Running? && m'.c.inFlight == m.c.inFlight + 1
          && m'.admissions == m.admissions + 1 == m'.threads[t].ticket.serial
          && m'.threads[t].ticket.request.registration == m.threads[t].id
          && Admitted(m'.c, m'.threads[t].ticket.request))
  {
    hide Locks, WellFormed, InFlightOk, Achieved, Kept, IsLive, Admitted, TicketOk;
    var pc := m.threads[t];
    assert ThreadOk(m, pc) && Refers(pc, pc.id);
    AliveInHeap(m.c, pc.id);
    BeginKeeps(m.c, pc.id, pc.runtime);
  }

  lemma TicketSelfOk(m: Machine, t: Tid, m': Machine)
    requires Invariant(m) && OnlyThread(m, m', t) && AdvanceTicket(m, t) == Some(m')
    ensures ThreadOk(m', m'.threads[t])
  {
    hide Locks, WellFormed, InFlightOk, Achieved, Kept, IsLive, Admitted, Begin, Finish;
    var pc := m.threads[t];
    assert ThreadOk(m, pc);
    if pc.BeginInState? {
      BeginStep(m, t, m');
    }
    forall id | Refers(m'.threads[t], id) ensures id in m'.c.alive {
      assert Refers(pc, id);
    }
  }

  lemma ProceedsSelfOk(m: Machine, t: Tid, e: Event, m': Machine)
    requires Invariant(m) && OnlyThread(m, m', t) && Proceeds(m, t, e) == Some(m')
    ensures ThreadOk(m', m'.threads[t])
  {
    hide Locks, WellFormed, InFlightOk, AdvanceOperation, AdvanceTicket, Admitted;
    if e == Advance {
      if AdvanceOperation(m, t).Some? {
        OperationSelfOk(m, t, m');
      } else {
        TicketSelfOk(m, t, m');
      }
    } else {
      assert ThreadOk(m, m.threads[t]);
      forall id | Refers(m'.threads[t], id) ensures id in m'.c.alive {
        assert Refers(m.threads[t], id);
      }
    }
  }

  // ----- the count of outstanding tickets

  lemma InFlightFramed(m: Machine, t: Tid, m': Machine)
    requires Locks(m) && InFlightOk(m) && OnlyThread(m, m', t) && Locks(m')
    requires HasTicket(m.threads[t]) == HasTicket(m'.threads[t]) && m'.c.inFlight == m.c.inFlight
    ensures InFlightOk(m')
  {
    if m.execution.Some? {
      assert LocksOf(m, m.execution.value) && LocksOf(m', m.execution.value);
    }
    if m'.execution.Some? {
      assert LocksOf(m, m'.execution.value) && LocksOf(m', m'.execution.value);
    }
  }

  lemma OperationInFlight(m: Machine, t: Tid, m': Machine)
    requires Invariant(m) && t < |m.threads| && AdvanceOperation(m, t) == Some(m') && Locks(m')
    ensures InFlightOk(m')
  {
    hide Locks, WellFormed, InFlightOk, Apply, Achieved, Kept, TicketOk, IsLive, Close, RegisterProcessLifecycle;
    var pc := m.threads[t];
    assert ThreadOk(m, pc);
    AdvanceOperationLocks(m, t, m');
    if pc.InState? {
      assert pc.op.InvalidateOne? ==> Refers(pc, pc.op.id);
      ApplyKeeps(m.c, pc.op);
    } else if pc.CloseInState? {
      CloseKeeps(m.c);
    } else if pc.ProcessInState? {
      ProcessKeeps(m.c);
    }
    InFlightFramed(m, t, m');
  }

  lemma TicketInFlight(m: Machine, t: Tid, m': Machine)
    requires Invariant(m) && t < |m.threads| && AdvanceTicket(m, t) == Some(m') && Locks(m')
    ensures InFlightOk(m')
  {
    hide Locks, WellFormed, Achieved, Kept, IsLive, Begin, Admitted;
    var pc := m.threads[t];
    assert ThreadOk(m, pc);
    AdvanceTicketLocks(m, t, m');
    OwnerOf(m, t);
    OwnerOf(m', t);
    if pc.BeginInState? {
      BeginStep(m, t, m');
    } else if pc.FinishInState? {
      AdmittedIdentity(m.c, pc.ticket.request);
    } else {
      InFlightFramed(m, t, m');
    }
  }

  lemma OwnerOf(m: Machine, t: Tid)
    requires Locks(m) && t < |m.threads|
    ensures HoldsExecution(m.threads[t]) <==> m.execution == Some(t)
  {
    assert LocksOf(m, t);
  }

  lemma AdmittedIdentity(c: Coordinator, q: Request)
    requires Admitted(c, q)
    ensures q.requestIdentity != 0
  {
  }

  lemma ProceedsInFlight(m: Machine, t: Tid, e: Event, m': Machine)
    requires Invariant(m) && t < |m.threads| && Proceeds(m, t, e) == Some(m') && Locks(m')
    ensures InFlightOk(m')
  {
    hide AdvanceOperation, AdvanceTicket, Locks, WellFormed, InFlightOk, ThreadOk;
    if e == Advance {
      if AdvanceOperation(m, t).Some? {
        OperationInFlight(m, t, m');
      } else {
        TicketInFlight(m, t, m');
      }
    } else {
      ProceedsLocks(m, t, e, m');
      InFlightFramed(m, t, m');
    }
  }

  // ----- every step keeps the invariant

  lemma ProceedsKeeps(m: Machine, t: Tid, e: Event, m': Machine)
    requires Invariant(m) && t < |m.threads| && Proceeds(m, t, e) == Some(m')
    ensures Invariant(m')
  {
    hide Proceeds, Locks, InFlightOk, ThreadOk, WellFormed, Kept;
    ProceedsLocks(m, t, e, m');
    ProceedsEvolves(m, t, e, m');
    ProceedsInFlight(m, t, e, m');
    forall u | 0 <= u < |m'.threads| ensures ThreadOk(m', m'.threads[u]) {
      if u == t {
        assert OnlyThread(m, m', t);
        ProceedsSelfOk(m, t, e, m');
      } else {
        OtherOk(m, m', t, u);
      }
    }
  }

  lemma BeginsKeeps(m: Machine, t: Tid, e: Event, m': Machine)
    requires Invariant(m) && t < |m.threads| && Begins(m, t, e) == Some(m')
    ensures Invariant(m')
  {
    hide Locks, InFlightOk, WellFormed, Admitted, NullArgument, IsLive;
    BeginsLocks(m, t, e, m');
    assert HasTicket(m.threads[t]) == HasTicket(m'.threads[t]);
    InFlightFramed(m, t, m');
    forall u | 0 <= u < |m'.threads| ensures ThreadOk(m', m'.threads[u]) {
      assert ThreadOk(m, m.threads[u]);
    }
  }

  lemma ExpiresKeeps(m: Machine, id: RegId, m': Machine)
    requires Invariant(m) && Expires(m, id) && m' == m.(c := m.c.(alive := m.c.alive - {id}))
    ensures Invariant(m')
  {
    hide InFlightOk;
    assert forall t | 0 <= t < |m.threads| :: LocksOf(m, t) ==> LocksOf(m', t);
    ExpiresInFlight(m, m');
    forall t | 0 <= t < |m.threads| ensures ThreadOk(m', m'.threads[t]) {
      assert ThreadOk(m, m.threads[t]);
      var pc := m.threads[t];
      if HasTicket(pc) {
        assert Refers(pc, pc.ticket.request.registration);
      }
    }
  }

  lemma ExpiresInFlight(m: Machine, m': Machine)
    requires InFlightOk(m) && m' == m.(c := m'.c) && m'.c.inFlight == m.c.inFlight
    ensures InFlightOk(m')
  {
  }

  // A step: who takes it, and that it is one.
  lemma NextKeeps(m: Machine, m': Machine)
    requires Invariant(m) && Next(m, m')
    ensures Invariant(m')
  {
    hide Invariant, Begins, Proceeds, Expires;
    if id :| Expires(m, id) && m' == m.(c := m.c.(alive := m.c.alive - {id})) {
      ExpiresKeeps(m, id, m');
    } else {
      var t, e :| 0 <= t < |m.threads| && (Begins(m, t, e) == Some(m') || Proceeds(m, t, e) == Some(m'));
      if Begins(m, t, e) == Some(m') {
        BeginsKeeps(m, t, e, m');
      } else {
        ProceedsKeeps(m, t, e, m');
      }
    }
  }

  lemma InitialInvariant(m: Machine)
    requires Initial(m)
    ensures Invariant(m)
  {
  }

  lemma {:induction false} RunInvariant(run: seq<Machine>, i: nat)
    requires IsRun(run) && i < |run|
    ensures Invariant(run[i])
  {
    hide Invariant, Initial, Next;
    if i == 0 {
      InitialInvariant(run[0]);
    } else {
      RunInvariant(run, i - 1);
      assert Next(run[i - 1], run[i - 1 + 1]);
      NextKeeps(run[i - 1], run[i]);
    }
  }
}
