// What holds along every run of the lifecycle machine, over all interleavings.
module LifecycleRuns {
  import opened Wrappers
  import opened Bytes
  import opened Lifecycle
  import opened LifecycleMachine
  import opened LifecycleState
  import opened LifecycleTheory

  // ----- what a later state keeps of an earlier one

  // Registrations only grow in number, and one that has been freed never comes back.
  ghost predicate Later(m: Machine, m': Machine) {
    && Kept(m.c, m'.c)
    && (forall id | id in m'.c.alive && id < |m.c.heap| :: id in m.c.alive)
    && m.drained <= m'.drained
  }

  lemma ApplyFresh(c: Coordinator, op: Operation)
    ensures forall id | id in Apply(c, op).0.alive && id < |c.heap| :: id in c.alive
  {
  }

  lemma BeginAlive(c: Coordinator, id: RegId, runtime: Pointer)
    requires id < |c.heap|
    ensures Begin(c, id, runtime).0.alive == c.alive
  {
  }

  lemma ProceedsFresh(m: Machine, t: Tid, e: Event, m': Machine)
    requires Invariant(m) && t < |m.threads| && Proceeds(m, t, e) == Some(m')
    ensures forall id | id in m'.c.alive && id < |m.c.heap| :: id in m.c.alive
  {
    hide Invariant, Apply, Begin, IsLive;
    var pc := m.threads[t];
    if pc.InState? {
      ApplyFresh(m.c, pc.op);
    } else if pc.BeginInState? && pc.id < |m.c.heap| {
      BeginAlive(m.c, pc.id, pc.runtime);
    }
  }

  lemma NextLater(m: Machine, m': Machine)
    requires Invariant(m) && Next(m, m')
    ensures Later(m, m')
  {
    hide Invariant, Begins, Proceeds, Expires, Kept;
    KeptSame(m.c);
    if id :| Expires(m, id) && m' == m.(c := m.c.(alive := m.c.alive - {id})) {
      SameHeapKept(m.c, m'.c);
    } else {
      var t, e :| 0 <= t < |m.threads| && (Begins(m, t, e) == Some(m') || Proceeds(m, t, e) == Some(m'));
      if Begins(m, t, e) == Some(m') {
        BeginsStill(m, t, e, m');
      } else {
        ProceedsEvolves(m, t, e, m');
        ProceedsFresh(m, t, e, m');
      }
    }
  }

  lemma SameHeapKept(c: Coordinator, d: Coordinator)
    requires d.heap == c.heap
    ensures Kept(c, d)
  {
  }

  lemma BeginsStill(m: Machine, t: Tid, e: Event, m': Machine)
    requires Invariant(m) && t < |m.threads| && Begins(m, t, e) == Some(m')
    ensures m'.c == m.c && m'.drained == m.drained
  {
  }

  lemma LaterTransitive(m: Machine, m': Machine, m'': Machine)
    requires Later(m, m') && Later(m', m'')
    ensures Later(m, m'')
  {
    forall id | 0 <= id < |m.c.heap| ensures EntryKept(m.c.heap[id], m''.c.heap[id]) {
      assert EntryKept(m.c.heap[id], m'.c.heap[id]) && EntryKept(m'.c.heap[id], m''.c.heap[id]);
    }
  }

  lemma {:induction false} RunLater(run: seq<Machine>, i: nat, j: nat)
    requires IsRun(run) && i <= j < |run|
    ensures Later(run[i], run[j])
  {
    hide Invariant, Later, Next, Initial;
    if i == j {
      LaterSame(run[i]);
    } else {
      RunLater(run, i, j - 1);
      RunInvariant(run, j - 1);
      assert Next(run[j - 1], run[j - 1 + 1]);
      NextLater(run[j - 1], run[j]);
      LaterTransitive(run[i], run[j - 1], run[j]);
    }
  }

  lemma LaterSame(m: Machine)
    ensures Later(m, m)
  {
    KeptSame(m.c);
  }

  // ----- deliveries

  ghost predicate DeliversFor(m: Machine, u: Tid, id: RegId) {
    u < |m.threads| && m.threads[u].Delivering? && m.threads[u].ticket.request.registration == id
  }

  // Whenever a thread is inside a callback of `deliver`, its request is live.
  lemma NoStaleDelivery(run: seq<Machine>, i: nat, t: Tid)
    requires IsRun(run) && i < |run| && t < |run[i].threads| && run[i].threads[t].Delivering?
    ensures IsLive(run[i].c, run[i].threads[t].ticket.request)
  {
    hide Locks, WellFormed, InFlightOk, IsRun, IsLive;
    RunInvariant(run, i);
    assert ThreadOk(run[i], run[i].threads[t]);
  }

  // Once a registration is retired it stays so, and no callback runs for it again.
  lemma RetiredNeverDelivers(run: seq<Machine>, i: nat, id: RegId, j: nat, u: Tid)
    requires IsRun(run) && i <= j < |run| && id < |run[i].c.heap| && run[i].c.heap[id].retired
    ensures id < |run[j].c.heap| && run[j].c.heap[id].retired && !DeliversFor(run[j], u, id)
  {
    hide IsRun, WellFormed, Locks;
    RunLater(run, i, j);
    assert EntryKept(run[i].c.heap[id], run[j].c.heap[id]);
    if DeliversFor(run[j], u, id) {
      NoStaleDelivery(run, j, u);
    }
  }

  // What an operation that is about to give back the delivery barrier was asked to end.
  ghost predicate Targets(op: Operation, drained: bool, id: RegId, r: Registration) {
    match op
    case Register(_) => false
    case InvalidateOne(target) => id == target
    case InvalidateProvider(provider) => r.identity.provider == provider
    case InvalidateContext(context) => r.identity.logicalContext == context
    case Teardown => drained
  }

  // From the moment an invalidation or teardown leaves the barrier, and so after it returns,
  // no callback runs for any registration it targeted that existed by then.
  lemma NoDeliveryAfterReturn(run: seq<Machine>, i: nat, t: Tid, j: nat, u: Tid, id: RegId)
    requires IsRun(run) && i <= j < |run| && t < |run[i].threads| && run[i].threads[t].LeaveBarrier?
    requires id < |run[i].c.heap| && Targets(run[i].threads[t].op, run[i].threads[t].drained, id, run[i].c.heap[id])
    ensures !DeliversFor(run[j], u, id)
  {
    hide IsRun, WellFormed, Locks, IsLive, InFlightOk;
    if DeliversFor(run[j], u, id) {
      RunLater(run, i, j);
      RunInvariant(run, j);
      assert ThreadOk(run[j], run[j].threads[u]);
      RunInvariant(run, i);
      assert ThreadOk(run[i], run[i].threads[t]);
      assert RetiredIf(run[i].c.heap[id], OfProvider(run[i].c.heap[id].identity.provider)) ==> run[i].c.heap[id].retired;
      RetiredNeverDelivers(run, i, id, j, u);
    }
  }

  // A registration replaced by a new one of the same registry and context: the same.
  lemma NoDeliveryAfterReplacement(run: seq<Machine>, i: nat, t: Tid, j: nat, u: Tid, id: RegId, identity: Identity)
    requires IsRun(run) && i < j < |run| && t < |run[i].threads| && run[i].threads[t] == InState(Register(identity))
    requires AdvanceOperation(run[i], t) == Some(run[i + 1]) && RegisterModule(run[i].c, identity).1.Some?
    requires id in run[i].c.alive && id < |run[i].c.heap| && Replaced(identity, run[i].c.heap[id])
    ensures !DeliversFor(run[j], u, id)
  {
    hide IsRun, WellFormed, Locks, IsLive, InFlightOk, RegisterModule, Replaced, DeliversFor;
    RunInvariant(run, i);
    assert ThreadOk(run[i], run[i].threads[t]);
    RegisterKeeps(run[i].c, identity);
    RetiredNeverDelivers(run, i + 1, id, j, u);
  }

  // ----- registrations over a whole run

  // A registration keeps its identity and its first runtime; every outstanding request carries
  // that runtime; and no two unretired registrations share registry and context.
  lemma RegistrationHistory(run: seq<Machine>, i: nat, j: nat, id: RegId)
    requires IsRun(run) && i <= j < |run| && id < |run[i].c.heap|
    ensures id < |run[j].c.heap|
    ensures var (a, b) := (run[i].c.heap[id], run[j].c.heap[id]);
      && b.identity.(runtime := a.identity.runtime) == a.identity && b.generation == a.generation
      && (a.retired ==> b.retired) && (b.active <==> b.runtimeBound && !b.retired)
      && (a.runtimeBound ==> b.runtimeBound && b.identity.runtime == a.identity.runtime)
      && (b.runtimeBound ==> b.identity.runtime != NULL)
      && forall t | 0 <= t < |run[j].threads| && HasTicket(run[j].threads[t])
          && run[j].threads[t].ticket.request.registration == id ::
        b.runtimeBound && run[j].threads[t].ticket.request.runtime == b.identity.runtime
    ensures forall k | k in run[j].c.alive && id in run[j].c.alive && k != id && k < |run[j].c.heap|
      && !run[j].c.heap[k].retired && !run[j].c.heap[id].retired ::
      !SameModuleEntries(run[j].c.heap[k], run[j].c.heap[id])
  {
    hide IsRun, Locks, IsLive, InFlightOk;
    RunLater(run, i, j);
    assert EntryKept(run[i].c.heap[id], run[j].c.heap[id]);
    RunInvariant(run, j);
    assert EntryWellFormed(run[j].c.heap[id]);
    forall t | 0 <= t < |run[j].threads| && HasTicket(run[j].threads[t])
      && run[j].threads[t].ticket.request.registration == id
      ensures run[j].c.heap[id].runtimeBound
      ensures run[j].threads[t].ticket.request.runtime == run[j].c.heap[id].identity.runtime
    {
      assert ThreadOk(run[j], run[j].threads[t]);
    }
  }

  // ----- the count of requests in flight

  ghost function Outstanding(m: Machine): set<Tid> {
    set t | 0 <= t < |m.threads| && HasTicket(m.threads[t])
  }

  // `inFlight_` is exactly the number of outstanding tickets, which is at most one, and the
  // thread-local flag is set exactly on the thread that owns it.
  lemma InFlightIsExact(run: seq<Machine>, i: nat)
    requires IsRun(run) && i < |run|
    ensures run[i].c.inFlight == |Outstanding(run[i])| <= 1
    ensures |run[i].active| == |run[i].threads|
    ensures forall t | 0 <= t < |run[i].threads| :: run[i].active[t] <==> t in Outstanding(run[i])
  {
    hide IsRun, WellFormed, ThreadOk, HasTicket, HoldsBarrier, SharesBarrier, HoldsState;
    RunInvariant(run, i);
    var m := run[i];
    forall t: Tid | t < |m.threads| ensures LocksOf(m, t) && (t in Outstanding(m) ==> m.execution == Some(t)) {
    }
    if m.execution.Some? && HasTicket(m.threads[m.execution.value]) {
      assert Outstanding(m) == {m.execution.value};
    } else {
      assert Outstanding(m) == {};
    }
  }

  // ----- draining

  lemma CloseLeaves(m: Machine, t: Tid, m': Machine)
    requires t < |m.threads| && m.threads[t].CloseLeave? && AdvanceOperation(m, t) == Some(m')
    ensures m'.drained >= m.threads[t].mark
  {
  }

  // When a teardown that drained returns, and ever after, no request is outstanding that was
  // admitted before it drained.
  lemma TeardownDrains(run: seq<Machine>, i: nat, t: Tid, j: nat, u: Tid)
    requires IsRun(run) && i < j < |run| && t < |run[i].threads| && run[i].threads[t].CloseLeave?
    requires AdvanceOperation(run[i], t) == Some(run[i + 1])
    requires u < |run[j].threads| && HasTicket(run[j].threads[u])
    ensures run[j].threads[u].ticket.serial > run[i].threads[t].mark
  {
    hide IsRun, WellFormed, Locks, IsLive, InFlightOk, AdvanceOperation;
    CloseLeaves(run[i], t, run[i + 1]);
    RunLater(run, i + 1, j);
    RunInvariant(run, j);
    assert ThreadOk(run[j], run[j].threads[u]);
  }
}
