// When requests are admitted and delivered, and what each critical section changes, field by
// field; and that an undisturbed call is admitted, delivers and returns.
module LifecycleAdmission {
  import opened Wrappers
  import opened Bytes
  import opened Lifecycle
  import opened LifecycleMachine
  import opened LifecycleState
  import opened LifecycleTheory
  import opened LifecycleRuns
  import opened LifecycleTeardown

  const LAST: u64 := 0xffff_ffff_ffff_ffff

  // ----- admission

  ghost predicate CanBegin(c: Coordinator, id: RegId, runtime: Pointer) {
    && id < |c.heap| && runtime != 0
    && var r := c.heap[id];
    && c.processState == Ready && c.generation.Some? && r.generation == c.generation
    && !r.retired
    && r.identity.moduleRegistry != 0 && r.identity.logicalContext != 0 && r.identity.provider != 0
    && (r.runtimeBound ==> r.active && r.identity.runtime == runtime)
    && c.nextRequestIdentity != LAST
  }

  // A request is admitted exactly on these conditions; it then carries the fields of its
  // registration, which is bound to its runtime, and nothing else of the coordinator changes.
  lemma BeginExactly(c: Coordinator, id: RegId, runtime: Pointer)
    requires id < |c.heap| && runtime != NULL
    ensures Begin(c, id, runtime).1.Some? <==> CanBegin(c, id, runtime)
    ensures CanBegin(c, id, runtime) ==>
      var r := c.heap[id];
      var bound := r.(identity := r.identity.(runtime := runtime), runtimeBound := true, active := true);
      Begin(c, id, runtime) == (
        c.(heap := c.heap[id := bound], nextRequestIdentity := c.nextRequestIdentity + 1, inFlight := c.inFlight + 1),
        Some(Request(id, c.generation, runtime, r.identity.moduleRegistry, r.identity.logicalContext,
          r.identity.provider, r.identity.providerGeneration, c.nextRequestIdentity + 1)))
  {
    var r := c.heap[id];
    if CanBegin(c, id, runtime) && r.runtimeBound {
      assert c.heap[id := r] == c.heap;
    }
  }

  // An outstanding request is live exactly while the process is ready, its registration is not
  // retired and no teardown has ended its generation.
  lemma LiveExactly(c: Coordinator, q: Request)
    requires WellFormed(c) && Admitted(c, q)
    ensures IsLive(c, q) <==>
      c.processState == Ready && !c.heap[q.registration].retired && c.heap[q.registration].generation == c.generation
  {
    assert EntryWellFormed(c.heap[q.registration]);
  }

  // ----- registration and retirement, field by field

  predicate CanRegister(c: Coordinator) {
    c.processState != Draining && c.processState != Unavailable && c.nextRegistrationGeneration != LAST
  }

  // A listed registration of the same module registry and context is retired by the new one.
  function Replaced(c: Coordinator, identity: Identity, k: RegId): Registration
    requires k < |c.heap|
  {
    var r := c.heap[k];
    if k in c.registrations && k in c.alive && r.identity.moduleRegistry == identity.moduleRegistry
      && r.identity.logicalContext == identity.logicalContext
    then r.(active := false, retired := true) else r
  }

  lemma RegisterExactly(c: Coordinator, identity: Identity)
    ensures RegisterModule(c, identity).1 == if CanRegister(c) then Some(|c.heap|) else None
    ensures CanRegister(c) ==>
      var d := RegisterModule(c, identity).0;
      && d.processState == Ready
      && d.generation == (if c.processState == Ready then c.generation else Some(c.generations))
      && d.generations == (if c.processState == Ready then c.generations else c.generations + 1)
      && d.nextRegistrationGeneration == c.nextRegistrationGeneration + 1
      && d.registrations == c.registrations + [|c.heap|] && d.alive == c.alive + {|c.heap|}
      && d.inFlight == c.inFlight && d.nextRequestIdentity == c.nextRequestIdentity
      && |d.heap| == |c.heap| + 1
      && d.heap[|c.heap|] == Registration(identity.(providerGeneration := c.nextRegistrationGeneration + 1),
        d.generation, identity.runtime != 0, identity.runtime != 0, false)
      && (forall k: RegId | k < |c.heap| :: d.heap[k] == Replaced(c, identity, k))
  {
    forall k: RegId | k < |c.heap| ensures
      RetireSelected(c.heap, c.registrations, c.alive, SameModule(identity.moduleRegistry, identity.logicalContext))[k]
        == Replaced(c, identity, k)
    {
      RetiredExactly(c.heap, c.registrations, c.alive, SameModule(identity.moduleRegistry, identity.logicalContext), k);
    }
  }

  // A registration just made admits its runtime, or the first one when it was pending, and is
  // bound to it; any other runtime is refused from then on.
  lemma RegisterThenBegin(c: Coordinator, identity: Identity, runtime: Pointer, other: Pointer)
    requires WellFormed(c) && Complete(identity) && CanRegister(c)
    requires runtime != NULL && (identity.runtime == NULL || identity.runtime == runtime)
    requires c.nextRequestIdentity != LAST && other != NULL && other != runtime
    ensures var (d, id) := RegisterModule(c, identity);
      && id == Some(|c.heap|) && id.value < |d.heap|
      && var (e, q) := Begin(d, id.value, runtime);
      && q.Some? && q.value.registration == id.value && q.value.runtime == runtime
      && e.heap[id.value].runtimeBound && e.heap[id.value].identity.runtime == runtime && e.heap[id.value].active
      && Begin(e, id.value, other).1.None?
      && (identity.runtime == runtime ==> Begin(d, id.value, other).1.None?)
  {
    hide WellFormed, Begin, RegisterModule;
    ReadyHasGeneration(c);
    RegisterExactly(c, identity);
    var d := RegisterModule(c, identity).0;
    BeginExactly(d, |c.heap|, runtime);
    BeginExactly(d, |c.heap|, other);
    BeginExactly(Begin(d, |c.heap|, runtime).0, |c.heap|, other);
  }

  lemma ReadyHasGeneration(c: Coordinator)
    requires WellFormed(c)
    ensures c.processState == Ready ==> c.generation.Some?
  {
  }

  ghost predicate RetiredWhere(c: Coordinator, d: Coordinator, ended: RegId -> bool) {
    |d.heap| == |c.heap| && forall k | 0 <= k < |c.heap| ::
      d.heap[k] == if ended(k) then c.heap[k].(active := false, retired := true) else c.heap[k]
  }

  lemma InvalidateExactly(c: Coordinator, id: RegId)
    requires id < |c.heap|
    ensures RetiredWhere(c, Invalidate(c, id), k => k == id)
    ensures Invalidate(c, id) == c.(heap := Invalidate(c, id).heap, registrations := Invalidate(c, id).registrations)
  {
  }

  lemma ProviderExactly(c: Coordinator, provider: Pointer)
    ensures RetiredWhere(c, InvalidateSelected(c, OfProvider(provider)),
      k => k in c.registrations && k in c.alive && k < |c.heap| && c.heap[k].identity.provider == provider)
  {
    forall k: RegId | k < |c.heap| ensures InvalidateSelected(c, OfProvider(provider)).heap[k] ==
      if k in c.registrations && k in c.alive && c.heap[k].identity.provider == provider
      then c.heap[k].(active := false, retired := true) else c.heap[k]
    {
      RetiredExactly(c.heap, c.registrations, c.alive, OfProvider(provider), k);
    }
  }

  lemma ContextExactly(c: Coordinator, context: Pointer)
    ensures RetiredWhere(c, InvalidateSelected(c, OfContext(context)),
      k => k in c.registrations && k in c.alive && k < |c.heap| && c.heap[k].identity.logicalContext == context)
  {
    forall k: RegId | k < |c.heap| ensures InvalidateSelected(c, OfContext(context)).heap[k] ==
      if k in c.registrations && k in c.alive && c.heap[k].identity.logicalContext == context
      then c.heap[k].(active := false, retired := true) else c.heap[k]
    {
      RetiredExactly(c.heap, c.registrations, c.alive, OfContext(context), k);
    }
  }

  // A teardown drains unless the process is closed or unavailable already; it leaves the process
  // draining, without generation or registrations, and all it retires was listed and alive.
  lemma DrainExactly(c: Coordinator)
    ensures Drain(c).1 <==> c.processState != Closed && c.processState != Unavailable
    ensures !Drain(c).1 ==> Drain(c).0 == c
    ensures Drain(c).1 ==>
      var d := Drain(c).0;
      && d == c.(processState := Draining, heap := d.heap, registrations := [], generation := None)
      && RetiredWhere(c, d, k => k in c.registrations && k in c.alive)
  {
    forall k: RegId | k < |c.heap| ensures
      RetireSelected(c.heap, c.registrations, c.alive, Everything)[k] ==
      if k in c.registrations && k in c.alive then c.heap[k].(active := false, retired := true) else c.heap[k]
    {
      RetiredExactly(c.heap, c.registrations, c.alive, Everything, k);
    }
  }

  // `registerProcessLifecycle` starts a new generation from uninitialized and closed only.
  lemma ProcessExactly(c: Coordinator)
    ensures RegisterProcessLifecycle(c) ==
      if c.processState == Uninitialized || c.processState == Closed
      then c.(processState := Ready, generation := Some(c.generations), generations := c.generations + 1) else c
  {
  }

  // What an invalidation leaves listed: the registrations that are still alive, in their order.
  lemma {:induction false} ListedStay(list: seq<RegId>, alive: set<RegId>, also: Option<RegId>)
    ensures |RemoveExpired(list, alive, also)| <= |list|
    ensures (forall id | id in list :: id in alive && also != Some(id)) ==> RemoveExpired(list, alive, also) == list
  {
    if list != [] {
      ListedStay(list[..|list| - 1], alive, also);
      assert list == list[..|list| - 1] + [list[|list| - 1]];
    }
  }

  // ----- generations never come back

  ghost predicate GenerationsMade(c: Coordinator) {
    && (c.generation.Some? ==> c.generation.value < c.generations)
    && (c.processState == Ready ==> c.generation.Some?)
    && forall k | 0 <= k < |c.heap| :: c.heap[k].generation.Some? && c.heap[k].generation.value < c.generations
  }

  ghost predicate GenerationsLater(c: Coordinator, d: Coordinator) {
    && c.generations <= d.generations
    && (d.generation == c.generation || d.generation.None? || d.generation.value >= c.generations)
  }

  lemma SameGenerations(c: Coordinator, d: Coordinator)
    requires GenerationsMade(c) && Kept(c, d) && |d.heap| == |c.heap|
    requires d.generations == c.generations && d.generation == c.generation
    requires d.processState == Ready ==> c.processState == Ready
    ensures GenerationsMade(d) && GenerationsLater(c, d)
  {
    forall k | 0 <= k < |d.heap| ensures d.heap[k].generation == c.heap[k].generation {
      assert EntryKept(c.heap[k], d.heap[k]);
    }
  }

  lemma ApplyGenerations(c: Coordinator, op: Operation)
    requires WellFormed(c) && GenerationsMade(c) && !NullArgument(op) && (op.InvalidateOne? ==> op.id in c.alive)
    ensures GenerationsMade(Apply(c, op).0) && GenerationsLater(c, Apply(c, op).0)
  {
    hide WellFormed, Kept, RegisterModule, Drain, Achieved;
    ApplyKeeps(c, op);
    match op
    case Register(identity) =>
      RegisterExactly(c, identity);
      if CanRegister(c) {
        RegisterGenerations(c, identity);
      } else {
        RefusedGenerations(c, identity);
      }
    case Teardown =>
      DrainExactly(c);
      DrainGenerations(c);
    case _ =>
      SameGenerations(c, Apply(c, op).0);
  }

  lemma RegisterGenerations(c: Coordinator, identity: Identity)
    requires GenerationsMade(c) && CanRegister(c)
    ensures var d := RegisterModule(c, identity).0; GenerationsMade(d) && GenerationsLater(c, d)
  {
    hide RegisterModule;
    RegisterExactly(c, identity);
  }

  lemma RefusedGenerations(c: Coordinator, identity: Identity)
    requires GenerationsMade(c) && !CanRegister(c)
    ensures var d := RegisterModule(c, identity).0; GenerationsMade(d) && GenerationsLater(c, d)
  {
    if EnsureReady(c).Some? {
      forall k: RegId | k < |c.heap| ensures RegisterModule(c, identity).0.heap[k].generation == c.heap[k].generation {
        RetiredExactly(c.heap, c.registrations, c.alive, SameModule(identity.moduleRegistry, identity.logicalContext), k);
      }
    }
  }

  lemma DrainGenerations(c: Coordinator)
    requires GenerationsMade(c)
    ensures GenerationsMade(Drain(c).0) && GenerationsLater(c, Drain(c).0)
  {
    hide Drain;
    DrainExactly(c);
    var d := Drain(c).0;
    if Drain(c).1 {
      forall k | 0 <= k < |d.heap| ensures d.heap[k].generation == c.heap[k].generation {
      }
    }
  }

  lemma BeginGenerations(c: Coordinator, id: RegId, runtime: Pointer)
    requires GenerationsMade(c) && id < |c.heap|
    ensures GenerationsMade(Begin(c, id, runtime).0) && GenerationsLater(c, Begin(c, id, runtime).0)
  {
  }

  lemma ProceedsGenerations(m: Machine, t: Tid, e: Event, m': Machine)
    requires Invariant(m) && GenerationsMade(m.c) && t < |m.threads| && Proceeds(m, t, e) == Some(m')
    ensures GenerationsMade(m'.c) && GenerationsLater(m.c, m'.c)
  {
    hide Locks, WellFormed, InFlightOk, Apply, Begin, IsLive, TicketOk, Achieved, GenerationsMade, GenerationsLater;
    var pc := m.threads[t];
    assert ThreadOk(m, pc);
    OtherGenerations(m.c);
    if pc.InState? {
      assert pc.op.InvalidateOne? ==> Refers(pc, pc.op.id);
      ApplyGenerations(m.c, pc.op);
    } else if pc.BeginInState? && pc.id < |m.c.heap| {
      BeginGenerations(m.c, pc.id, pc.runtime);
    } else if pc.FinishInState? {
      FinishGenerations(m.c, pc.ticket.request);
    }
  }

  lemma OtherGenerations(c: Coordinator)
    requires GenerationsMade(c)
    ensures GenerationsLater(c, c)
    ensures GenerationsMade(Close(c)) && GenerationsLater(c, Close(c))
    ensures GenerationsMade(RegisterProcessLifecycle(c)) && GenerationsLater(c, RegisterProcessLifecycle(c))
  {
  }

  lemma FinishGenerations(c: Coordinator, q: Request)
    requires GenerationsMade(c)
    ensures GenerationsMade(Finish(c, q)) && GenerationsLater(c, Finish(c, q))
  {
  }

  lemma NextGenerations(m: Machine, m': Machine)
    requires Invariant(m) && GenerationsMade(m.c) && Next(m, m')
    ensures GenerationsMade(m'.c) && GenerationsLater(m.c, m'.c)
  {
    hide Invariant, Begins, Proceeds, Expires;
    if id :| Expires(m, id) && m' == m.(c := m.c.(alive := m.c.alive - {id})) {
    } else {
      var t, e :| 0 <= t < |m.threads| && (Begins(m, t, e) == Some(m') || Proceeds(m, t, e) == Some(m'));
      if Begins(m, t, e) == Some(m') {
        BeginsStill(m, t, e, m');
      } else {
        ProceedsGenerations(m, t, e, m');
      }
    }
  }

  lemma {:induction false} RunGenerations(run: seq<Machine>, i: nat, j: nat)
    requires IsRun(run) && i <= j < |run|
    ensures GenerationsMade(run[j].c) && GenerationsMade(run[i].c) && GenerationsLater(run[i].c, run[j].c)
  {
    hide Invariant, Next;
    if j == 0 {
    } else if i == j {
      RunGenerations(run, i - 1, i - 1);
      RunInvariant(run, i - 1);
      assert Next(run[i - 1], run[i - 1 + 1]);
      NextGenerations(run[i - 1], run[i]);
    } else {
      RunGenerations(run, i, j - 1);
      RunInvariant(run, j - 1);
      assert Next(run[j - 1], run[j - 1 + 1]);
      NextGenerations(run[j - 1], run[j]);
    }
  }

  // Once a teardown has ended its generation, a registration is never admitted again and no
  // callback runs for it, even after the coordinator has been made ready again.
  lemma EndedGenerationStaysEnded(run: seq<Machine>, i: nat, id: RegId, j: nat, runtime: Pointer, u: Tid)
    requires IsRun(run) && i <= j < |run| && id < |run[i].c.heap|
    requires run[i].c.heap[id].generation != run[i].c.generation
    ensures id < |run[j].c.heap| && run[j].c.heap[id].generation != run[j].c.generation
    ensures !CanBegin(run[j].c, id, runtime) && !DeliversFor(run[j], u, id)
  {
    hide IsRun, WellFormed, Locks, InFlightOk;
    RunGenerations(run, i, j);
    RunLater(run, i, j);
    assert EntryKept(run[i].c.heap[id], run[j].c.heap[id]);
    if DeliversFor(run[j], u, id) {
      RunInvariant(run, j);
      assert ThreadOk(run[j], run[j].threads[u]);
      NoStaleDelivery(run, j, u);
      LiveExactly(run[j].c, run[j].threads[u].ticket.request);
    }
  }

  // ----- steps of a run

  // Whatever the other threads do, the admission step admits exactly when the coordinator can.
  lemma AdmissionStep(m: Machine, t: Tid)
    requires Invariant(m) && t < |m.threads| && m.threads[t].BeginInState?
    ensures AdvanceTicket(m, t).Some?
    ensures var pc, m' := m.threads[t], AdvanceTicket(m, t).value;
      && |m'.threads| == |m.threads|
      && m'.threads[t] == (
        if CanBegin(m.c, pc.id, pc.runtime)
        then Running(Ticket(Begin(m.c, pc.id, pc.runtime).1.value, pc.calls, m.admissions + 1)) else LeaveExecution)
  {
    hide Locks, WellFormed, InFlightOk, TicketOk, Achieved, Admitted, Begin, CanBegin;
    var pc := m.threads[t];
    assert ThreadOk(m, pc) && Refers(pc, pc.id);
    AliveInHeap(m.c, pc.id);
    BeginExactly(m.c, pc.id, pc.runtime);
  }

  // And the delivery step enters the callback exactly when the request may still be delivered.
  lemma DeliveryStep(m: Machine, t: Tid)
    requires Invariant(m) && t < |m.threads| && m.threads[t].DeliverInState?
    ensures AdvanceTicket(m, t).Some?
    ensures var ticket, m' := m.threads[t].ticket, AdvanceTicket(m, t).value;
      && |m'.threads| == |m.threads| && ticket.request.registration < |m.c.heap|
      && var r := m.c.heap[ticket.request.registration];
      m'.threads[t] == (
        if m.c.processState == Ready && !r.retired && r.generation == m.c.generation
        then Delivering(ticket) else DeliverLeave(ticket))
  {
    hide Locks, WellFormed, InFlightOk, Achieved, Admitted, IsLive;
    var ticket := m.threads[t].ticket;
    assert ThreadOk(m, m.threads[t]);
    AdmittedInHeap(m.c, ticket.request);
    LiveExactly(m.c, ticket.request);
  }

  lemma AdmittedInHeap(c: Coordinator, q: Request)
    requires Admitted(c, q)
    ensures q.registration < |c.heap|
  {
  }

  // ----- an undisturbed call

  lemma Extends(run: seq<Machine>, m': Machine)
    requires IsRun(run) && Next(run[|run| - 1], m')
    ensures IsRun(run + [m'])
  {
    hide Next, Initial;
    var longer := run + [m'];
    forall i | 0 <= i < |longer| - 1 ensures Next(longer[i], longer[i + 1]) {
      if i < |run| - 1 {
        assert Next(run[i], run[i + 1]);
      }
    }
  }

  lemma Proceeding(run: seq<Machine>, t: Tid, e: Event, m': Machine)
    requires IsRun(run) && var m := run[|run| - 1]; t < |m.threads| == |m.active| && Proceeds(m, t, e) == Some(m')
    ensures IsRun(run + [m'])
  {
    hide Proceeds;
    assert Next(run[|run| - 1], m');
    Extends(run, m');
  }

  // A ticket step.
  lemma Ticking(run: seq<Machine>, t: Tid, m': Machine)
    requires IsRun(run)
    requires var m := run[|run| - 1];
      t < |m.threads| == |m.active| && AdvanceOperation(m, t).None? && AdvanceTicket(m, t) == Some(m')
    ensures IsRun(run + [m'])
  {
    hide AdvanceOperation, AdvanceTicket, IsRun;
    NonEmpty(run);
    assert Proceeds(run[|run| - 1], t, Advance) == Some(m');
    Proceeding(run, t, Advance, m');
  }

  // Where an admitted call stands.
  ghost function Admission(m: Machine, t: Tid, id: RegId, runtime: Pointer, calls: nat): Machine
    requires t < |m.threads| == |m.active| && id < |m.c.heap| && Begin(m.c, id, runtime).1.Some?
  {
    var (d, q) := Begin(m.c, id, runtime);
    m.(c := d, threads := m.threads[t := Running(Ticket(q.value, calls, m.admissions + 1))],
       active := m.active[t := true], execution := Some(t), admissions := m.admissions + 1)
  }

  // A call on a registration that can begin is admitted.
  lemma InvokeAlone(run: seq<Machine>, t: Tid, id: RegId, runtime: Pointer, calls: nat) returns (longer: seq<Machine>)
    requires IsRun(run)
    requires var m := run[|run| - 1];
      Free(m) && t < |m.threads| && m.threads[t] == Idle && !m.active[t] && id in m.c.alive && CanBegin(m.c, id, runtime)
    ensures IsRun(longer) && Begin(run[|run| - 1].c, id, runtime).1.Some?
    ensures longer[|longer| - 1] == Admission(run[|run| - 1], t, id, runtime, calls)
  {
    hide IsRun, Begin, CanBegin;
    NonEmpty(run);
    var m := run[|run| - 1];
    CanBeginMeans(m.c, id, runtime);
    BeginExactly(m.c, id, runtime);
    var m2 := m.(threads := m.threads[t := BeginWantState(id, runtime, calls)], execution := Some(t));
    var locked := LocksExecution(run, t, id, runtime, calls);
    var m3 := m2.(threads := m2.threads[t := BeginInState(id, runtime, calls)], state := Some(t));
    Ticking(locked, t, m3);
    var m4 := Admission(m, t, id, runtime, calls);
    assert m3.threads[t := m4.threads[t]] == m4.threads;
    Ticking(locked + [m3], t, m4);
    longer := locked + [m3] + [m4];
  }

  lemma LocksExecution(run: seq<Machine>, t: Tid, id: RegId, runtime: Pointer, calls: nat) returns (longer: seq<Machine>)
    requires IsRun(run) && runtime != NULL
    requires var m := run[|run| - 1]; Free(m) && t < |m.threads| && m.threads[t] == Idle && !m.active[t] && id in m.c.alive
    ensures IsRun(longer)
    ensures var m := run[|run| - 1];
      longer[|longer| - 1] == m.(threads := m.threads[t := BeginWantState(id, runtime, calls)], execution := Some(t))
  {
    hide IsRun;
    NonEmpty(run);
    var m := run[|run| - 1];
    var m1 := m.(threads := m.threads[t := WantExecution(id, runtime, calls)]);
    BeginsNext(m, t, Invoke(id, runtime, calls), m1);
    Extends(run, m1);
    var m2 := m.(threads := m.threads[t := BeginWantState(id, runtime, calls)], execution := Some(t));
    assert m1.threads[t := BeginWantState(id, runtime, calls)] == m2.threads;
    Ticking(run + [m1], t, m2);
    longer := run + [m1] + [m2];
  }

  lemma CanBeginMeans(c: Coordinator, id: RegId, runtime: Pointer)
    requires CanBegin(c, id, runtime)
    ensures id < |c.heap| && runtime != NULL
  {
  }

  lemma BeginsNext(m: Machine, t: Tid, e: Event, m': Machine)
    requires t < |m.threads| == |m.active| && Begins(m, t, e) == Some(m')
    ensures Next(m, m')
  {
    hide Begins;
  }

  // An undisturbed thread with a live ticket enters its callback, and comes back from it.
  lemma DeliverAlone(run: seq<Machine>, t: Tid) returns (inside: seq<Machine>, after: seq<Machine>)
    requires IsRun(run)
    requires var m := run[|run| - 1];
      && |m.threads| == |m.active| && t < |m.threads| && m.barrier == None && m.state == None && t !in m.sharers
      && m.threads[t].Running? && m.threads[t].ticket.calls > 0 && IsLive(m.c, m.threads[t].ticket.request)
    ensures IsRun(inside) && IsRun(after)
    ensures var m := run[|run| - 1];
      var ticket := m.threads[t].ticket.(calls := m.threads[t].ticket.calls - 1);
      && inside[|inside| - 1] == m.(threads := m.threads[t := Delivering(ticket)], sharers := m.sharers + {t})
      && after[|after| - 1] == m.(threads := m.threads[t := Running(ticket)])
  {
    hide IsRun, IsLive;
    NonEmpty(run);
    var m := run[|run| - 1];
    var ticket := m.threads[t].ticket.(calls := m.threads[t].ticket.calls - 1);
    var m1 := m.(threads := m.threads[t := DeliverWantBarrier(ticket)]);
    Proceeding(run, t, Deliver, m1);
    var m2 := m.(threads := m1.threads[t := DeliverWantState(ticket)], sharers := m.sharers + {t});
    Ticking(run + [m1], t, m2);
    var m3 := m2.(threads := m2.threads[t := DeliverInState(ticket)], state := Some(t));
    Ticking(run + [m1] + [m2], t, m3);
    var m4 := m2.(threads := m.threads[t := Delivering(ticket)]);
    assert m3.threads[t := Delivering(ticket)] == m4.threads;
    Ticking(run + [m1] + [m2] + [m3], t, m4);
    inside := run + [m1] + [m2] + [m3] + [m4];
    after := LeavesAlone(inside, m, t, ticket);
  }

  lemma LeavesAlone(run: seq<Machine>, m: Machine, t: Tid, ticket: Ticket) returns (after: seq<Machine>)
    requires IsRun(run) && |m.threads| == |m.active| && t < |m.threads| && t !in m.sharers
    requires run[|run| - 1] == m.(threads := m.threads[t := Delivering(ticket)], sharers := m.sharers + {t})
    ensures IsRun(after) && after[|after| - 1] == m.(threads := m.threads[t := Running(ticket)])
  {
    hide IsRun, IsLive;
    NonEmpty(run);
    var last := run[|run| - 1];
    var m1 := last.(threads := last.threads[t := DeliverLeave(ticket)]);
    Ticking(run, t, m1);
    var m2 := m.(threads := m.threads[t := Running(ticket)]);
    assert m1.threads[t := Running(ticket)] == m2.threads && m1.sharers - {t} == m2.sharers;
    Ticking(run + [m1], t, m2);
    after := run + [m1] + [m2];
  }

  // And returns: the count goes back and the locks are free.
  lemma ReturnAlone(run: seq<Machine>, t: Tid) returns (longer: seq<Machine>)
    requires IsRun(run)
    requires var m := run[|run| - 1];
      && |m.threads| == |m.active| && t < |m.threads| && m.state == None
      && m.threads[t].Running? && m.execution == Some(t)
    ensures IsRun(longer)
    ensures var m := run[|run| - 1];
      longer[|longer| - 1] == m.(c := Finish(m.c, m.threads[t].ticket.request), threads := m.threads[t := Idle],
        active := m.active[t := false], execution := None)
  {
    hide IsRun, Finish;
    NonEmpty(run);
    var m := run[|run| - 1];
    var ticket := m.threads[t].ticket;
    var m1 := m.(threads := m.threads[t := FinishWantState(ticket)]);
    Proceeding(run, t, Return, m1);
    var m2 := m1.(threads := m1.threads[t := FinishInState(ticket)], state := Some(t));
    Ticking(run + [m1], t, m2);
    var m3 := m.(c := Finish(m.c, ticket.request), threads := m2.threads[t := LeaveExecution],
      active := m.active[t := false]);
    Ticking(run + [m1] + [m2], t, m3);
    var m4 := m3.(threads := m.threads[t := Idle], execution := None);
    assert m3.threads[t := Idle] == m4.threads;
    Ticking(run + [m1] + [m2] + [m3], t, m4);
    longer := run + [m1] + [m2] + [m3] + [m4];
  }

  // From every reachable state at rest: a module registers, pending or with its runtime, a call
  // on it is admitted, its callback runs, and it returns with nothing in flight.
  lemma RegisterThenInvoke(run: seq<Machine>, t: Tid, identity: Identity, runtime: Pointer)
    returns (admitted: seq<Machine>, inside: seq<Machine>, done: seq<Machine>)
    requires IsRun(run) && Complete(identity) && runtime != NULL
    requires identity.runtime == NULL || identity.runtime == runtime
    requires var m := run[|run| - 1];
      && Free(m) && t < |m.threads| && m.threads[t] == Idle && !m.active[t]
      && CanRegister(m.c) && m.c.nextRequestIdentity != LAST
    ensures IsRun(admitted) && IsRun(inside) && IsRun(done)
    ensures var id, m := |run[|run| - 1].c.heap|, admitted[|admitted| - 1];
      && t < |m.threads| && m.threads[t].Running?
      && m.threads[t].ticket.request.registration == id && m.threads[t].ticket.request.runtime == runtime
      && id < |m.c.heap| && m.c.heap[id].runtimeBound && m.c.heap[id].identity.runtime == runtime
    ensures DeliversFor(inside[|inside| - 1], t, |run[|run| - 1].c.heap|)
    ensures var m := done[|done| - 1];
      Free(m) && t < |m.threads| && m.threads[t] == Idle && m.c.inFlight == run[|run| - 1].c.inFlight
  {
    hide IsRun, Begin, RegisterModule, CanBegin, Invariant, IsLive, WellFormed, Complete;
    NonEmpty(run);
    var m := run[|run| - 1];
    var id := |m.c.heap|;
    LastIsWellFormed(run);
    RegisterThenBegin(m.c, identity, runtime, runtime + 1);
    RegisterExactly(m.c, identity);
    var d := RegisterModule(m.c, identity).0;
    WithinAll(run);
    var registered := RunsAlone(run, Everyone(run), t, Register(identity));
    BeginExactly(d, id, runtime);
    admitted := InvokeAlone(registered, t, id, runtime, 1);
    LastIsWellFormed(registered);
    BeginKeeps(d, id, runtime);
    var after;
    inside, after := DeliverAlone(admitted, t);
    done := ReturnAlone(after, t);
  }

  ghost function Everyone(run: seq<Machine>): set<Tid> {
    if run == [] then {} else Everyone(run[..|run| - 1]) + Teardowns(run[|run| - 1])
  }

  lemma {:induction false} EveryoneHolds(run: seq<Machine>, i: nat)
    requires i < |run|
    ensures Teardowns(run[i]) <= Everyone(run)
  {
    hide InTeardown;
    if i < |run| - 1 {
      EveryoneHolds(run[..|run| - 1], i);
    }
  }

  lemma WithinAll(run: seq<Machine>)
    ensures Within(run, Everyone(run))
  {
    hide Everyone, Teardowns;
    forall i | 0 <= i < |run| ensures Teardowns(run[i]) <= Everyone(run) {
      EveryoneHolds(run, i);
    }
  }

  lemma LastIsWellFormed(run: seq<Machine>)
    requires IsRun(run)
    ensures run != [] && WellFormed(run[|run| - 1].c)
  {
    hide IsRun, WellFormed, ThreadOk, Locks, InFlightOk;
    NonEmpty(run);
    RunInvariant(run, |run| - 1);
  }
}
