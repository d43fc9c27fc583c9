// When a closed coordinator can be relied on to have ended every registration: exactly when
// teardowns do not overlap.
module LifecycleTeardown {
  import opened Wrappers
  import opened Bytes
  import opened Lifecycle
  import opened LifecycleMachine
  import opened LifecycleState
  import opened LifecycleTheory
  import opened LifecycleRuns

  ghost predicate AllRetired(c: Coordinator) {
    forall id | id in c.alive && id < |c.heap| :: c.heap[id].retired
  }

  ghost predicate ClosedMeansRetired(run: seq<Machine>) {
    forall i | 0 <= i < |run| :: run[i].c.processState.Closed? ==> AllRetired(run[i].c)
  }

  // A thread between the call and the return of `processTeardown`.
  predicate InTeardown(pc: Pc) {
    ((pc.WantBarrier? || HoldsBarrier(pc)) && pc.op == Teardown)
    || pc.CloseWantExecution? || pc.CloseWantState? || pc.CloseInState? || pc.CloseLeave?
  }

  ghost function Teardowns(m: Machine): set<Tid> {
    set t | 0 <= t < |m.threads| && InTeardown(m.threads[t])
  }

  ghost predicate OverlapAtMost(run: seq<Machine>, k: nat) {
    forall i | 0 <= i < |run| :: |Teardowns(run[i])| <= k
  }

  // ----- teardowns that do not overlap

  // A thread that is going to set `closed`.
  predicate Closing(pc: Pc) {
    (pc.LeaveBarrier? && pc.op == Teardown && pc.drained) || pc.CloseWantExecution? || pc.CloseWantState? || pc.CloseInState?
  }

  ghost predicate Ended(m: Machine) {
    && (m.c.processState.Draining? || m.c.processState.Closed? ==> AllRetired(m.c))
    && (forall t | 0 <= t < |m.threads| :: Closing(m.threads[t]) ==> m.c.processState == Draining)
    && (forall t | 0 <= t < |m.threads| ::
          m.threads[t].LeaveBarrier? && m.threads[t].drained ==> m.threads[t].op == Teardown)
  }

  lemma OnlyOne(m: Machine, t: Tid, u: Tid)
    requires |Teardowns(m)| <= 1 && t < |m.threads| && u < |m.threads| && InTeardown(m.threads[t]) && t != u
    ensures !InTeardown(m.threads[u])
  {
    if InTeardown(m.threads[u]) {
      assert {t, u} <= Teardowns(m);
      Cardinality({t, u}, Teardowns(m));
    }
  }

  lemma {:induction false} Cardinality(a: set<Tid>, b: set<Tid>)
    requires a <= b
    ensures |a| <= |b|
  {
    if a != {} {
      var x :| x in a;
      Cardinality(a - {x}, b - {x});
    }
  }

  // A coordinator that is draining admits nothing and registers nothing.
  lemma ApplyEnds(c: Coordinator, op: Operation)
    requires WellFormed(c) && !NullArgument(op) && (op.InvalidateOne? ==> op.id in c.alive)
    requires c.processState.Draining? || c.processState.Closed? ==> AllRetired(c)
    ensures var (d, drains) := Apply(c, op);
      && (d.processState.Draining? || d.processState.Closed? ==> AllRetired(d))
      && (drains ==> d.processState.Draining?)
      && (c.processState.Draining? ==> d.processState.Draining?)
      && (drains ==> op.Teardown?)
  {
    hide WellFormed, Kept;
    ApplyKeeps(c, op);
    var (d, drains) := Apply(c, op);
    if drains {
      assert forall id | id in d.alive && id < |d.heap| :: RetiredIf(d.heap[id], Everything);
    } else if op.InvalidateOne? || op.InvalidateProvider? || op.InvalidateContext? {
      StillRetired(c, d);
    }
  }

  lemma StillRetired(c: Coordinator, d: Coordinator)
    requires WellFormed(c) && Kept(c, d) && d.alive == c.alive
    ensures AllRetired(c) ==> AllRetired(d)
  {
    forall id | id in c.alive ensures EntryKept(c.heap[id], d.heap[id]) {
    }
  }

  lemma BeginEnds(c: Coordinator, id: RegId, runtime: Pointer)
    requires id < |c.heap|
    ensures var d := Begin(c, id, runtime).0;
      d.processState == c.processState && (c.processState != Ready ==> d.heap == c.heap)
  {
  }

  lemma OperationEnds(m: Machine, t: Tid, m': Machine)
    requires Invariant(m) && t < |m.threads| && Ended(m) && |Teardowns(m)| <= 1
    requires AdvanceOperation(m, t) == Some(m')
    ensures Ended(m')
  {
    hide Locks, InFlightOk, WellFormed, Apply, TicketOk, Achieved, AllRetired, Teardowns;
    var pc := m.threads[t];
    assert ThreadOk(m, pc);
    if pc.InState? {
      assert pc.op.InvalidateOne? ==> Refers(pc, pc.op.id);
      ApplyEnds(m.c, pc.op);
    } else if pc.CloseInState? {
      assert Closing(pc);
      ClosedStillRetired(m.c);
      forall u | 0 <= u < |m.threads| && u != t ensures !InTeardown(m.threads[u]) {
        OnlyOne(m, t, u);
      }
    } else if pc.ProcessInState? {
      ProcessEnds(m.c);
    }
  }

  lemma ClosedStillRetired(c: Coordinator)
    ensures AllRetired(Close(c)) == AllRetired(c)
  {
  }

  lemma ProcessEnds(c: Coordinator)
    ensures var d := RegisterProcessLifecycle(c);
      && AllRetired(d) == AllRetired(c)
      && (d.processState == c.processState || (d.processState == Ready && !c.processState.Draining?))
  {
  }

  lemma TicketEnds(m: Machine, t: Tid, m': Machine)
    requires Invariant(m) && t < |m.threads| && Ended(m) && AdvanceTicket(m, t) == Some(m')
    ensures Ended(m')
  {
    hide Invariant, Begin, IsLive;
    var pc := m.threads[t];
    if pc.BeginInState? && pc.id < |m.c.heap| {
      BeginEnds(m.c, pc.id, pc.runtime);
      BeginAlive(m.c, pc.id, pc.runtime);
    }
  }

  lemma NextEnds(m: Machine, m': Machine)
    requires Invariant(m) && Next(m, m') && Ended(m) && |Teardowns(m)| <= 1
    ensures Ended(m')
  {
    hide Invariant, Begins, AdvanceOperation, AdvanceTicket, Expires, Teardowns;
    if id :| Expires(m, id) && m' == m.(c := m.c.(alive := m.c.alive - {id})) {
    } else {
      var t, e :| 0 <= t < |m.threads| && (Begins(m, t, e) == Some(m') || Proceeds(m, t, e) == Some(m'));
      if Begins(m, t, e) == Some(m') {
        BeginsEnds(m, t, e, m');
      } else if e == Advance {
        if AdvanceOperation(m, t).Some? {
          OperationEnds(m, t, m');
        } else {
          TicketEnds(m, t, m');
        }
      }
    }
  }

  lemma BeginsEnds(m: Machine, t: Tid, e: Event, m': Machine)
    requires t < |m.threads| == |m.active| && Ended(m) && Begins(m, t, e) == Some(m')
    ensures Ended(m')
  {
    hide AllRetired, NullArgument;
  }

  lemma {:induction false} SerialRunEnds(run: seq<Machine>, i: nat)
    requires IsRun(run) && OverlapAtMost(run, 1) && i < |run|
    ensures Ended(run[i])
  {
    hide Ended, Invariant, Next, Teardowns;
    if i == 0 {
      InitialEnds(run[0]);
    } else {
      SerialRunEnds(run, i - 1);
      RunInvariant(run, i - 1);
      assert Next(run[i - 1], run[i - 1 + 1]);
      NextEnds(run[i - 1], run[i]);
    }
  }

  lemma InitialEnds(m: Machine)
    requires Initial(m)
    ensures Ended(m)
  {
  }

  // ----- two that do

  ghost predicate Within(run: seq<Machine>, T: set<Tid>) {
    forall i | 0 <= i < |run| :: Teardowns(run[i]) <= T
  }

  ghost predicate Free(m: Machine) {
    |m.threads| == |m.active| && m.execution == None && m.barrier == None && m.sharers == {} && m.state == None
  }

  lemma Extend(run: seq<Machine>, T: set<Tid>, m': Machine)
    requires IsRun(run) && Within(run, T) && Next(run[|run| - 1], m') && Teardowns(m') <= T
    ensures IsRun(run + [m']) && Within(run + [m'], T)
  {
    hide Next, Initial, Teardowns;
    var longer := run + [m'];
    forall i | 0 <= i < |longer| - 1 ensures Next(longer[i], longer[i + 1]) {
      if i < |run| - 1 {
        assert Next(run[i], run[i + 1]);
      }
    }
  }

  lemma Advances(run: seq<Machine>, T: set<Tid>, t: Tid, m': Machine)
    requires IsRun(run) && Within(run, T)
    requires var m := run[|run| - 1]; t < |m.threads| == |m.active| && AdvanceOperation(m, t) == Some(m')
    requires |m'.threads| == |run[|run| - 1].threads|
    requires forall u | 0 <= u < |m'.threads| && u != t :: m'.threads[u] == run[|run| - 1].threads[u]
    requires InTeardown(m'.threads[t]) ==> t in T
    ensures IsRun(run + [m']) && Within(run + [m'], T)
  {
    hide AdvanceOperation, InTeardown;
    var m := run[|run| - 1];
    assert Proceeds(m, t, Advance) == Some(m');
    assert Teardowns(run[|run| - 1]) <= T;
    forall u | u in Teardowns(m') ensures u in T {
      assert u != t ==> u in Teardowns(m);
    }
    Extend(run, T, m');
  }

  lemma NonEmpty(run: seq<Machine>)
    requires IsRun(run)
    ensures run != []
  {
  }

  // An operation that meets no other thread acts exactly as its critical section.
  lemma RunsAlone(run: seq<Machine>, T: set<Tid>, t: Tid, op: Operation) returns (longer: seq<Machine>)
    requires IsRun(run) && Within(run, T)
    requires var m := run[|run| - 1]; Free(m) && t < |m.threads| && m.threads[t] == Idle
    requires !NullArgument(op) && !op.InvalidateOne? && (op.Teardown? ==> t in T)
    ensures IsRun(longer) && Within(longer, T)
    ensures var (m, m') := (run[|run| - 1], longer[|longer| - 1]); var (d, drains) := Apply(m.c, op);
      m' == m.(c := d, threads := m.threads[t := if drains then CloseWantExecution(m.admissions) else Idle])
  {
    hide IsRun, Within, Apply, NullArgument;
    NonEmpty(run);
    var m := run[|run| - 1];
    var (d, drains) := Apply(m.c, op);
    longer := Starts(run, T, t, op);
    var m2 := m.(threads := m.threads[t := WantState(op)], barrier := Some(t));
    assert At(m, t, WantBarrier(op)).threads[t := WantState(op)] == m2.threads;
    Advances(longer, T, t, m2);
    var m3 := m2.(threads := m2.threads[t := InState(op)], state := Some(t));
    Advances(longer + [m2], T, t, m3);
    var m4 := m2.(threads := m3.threads[t := LeaveBarrier(op, drains, m.admissions)], c := d);
    ApplyTeardown(m.c, op);
    Advances(longer + [m2] + [m3], T, t, m4);
    var m5 := m.(c := d, threads := m.threads[t := if drains then CloseWantExecution(m.admissions) else Idle]);
    assert m4.threads[t := m5.threads[t]] == m5.threads;
    Advances(longer + [m2] + [m3] + [m4], T, t, m5);
    longer := longer + [m2] + [m3] + [m4] + [m5];
  }

  lemma ApplyTeardown(c: Coordinator, op: Operation)
    ensures Apply(c, op).1 ==> op.Teardown?
  {
  }

  lemma Starts(run: seq<Machine>, T: set<Tid>, t: Tid, op: Operation) returns (longer: seq<Machine>)
    requires IsRun(run) && Within(run, T)
    requires var m := run[|run| - 1]; |m.active| == |m.threads| && t < |m.threads| && m.threads[t] == Idle
    requires !NullArgument(op) && !op.InvalidateOne? && (op.Teardown? ==> t in T)
    ensures IsRun(longer) && Within(longer, T)
    ensures var (m, m') := (run[|run| - 1], longer[|longer| - 1]); m' == At(m, t, WantBarrier(op))
  {
    hide NullArgument;
    var m := run[|run| - 1];
    var m' := At(m, t, WantBarrier(op));
    assert Begins(m, t, Start(op)) == Some(m');
    assert Teardowns(m) <= T;
    forall u | u in Teardowns(m') ensures u in T {
      assert u != t ==> u in Teardowns(m);
    }
    Extend(run, T, m');
    longer := run + [m'];
  }

  // The rest of a teardown that meets no other thread.
  lemma ClosesAlone(run: seq<Machine>, T: set<Tid>, t: Tid) returns (longer: seq<Machine>)
    requires IsRun(run) && Within(run, T) && t in T
    requires var m := run[|run| - 1]; Free(m) && t < |m.threads| && m.threads[t] == CloseWantExecution(m.drained)
    ensures IsRun(longer) && Within(longer, T)
    ensures var (m, m') := (run[|run| - 1], longer[|longer| - 1]);
      m' == m.(c := Close(m.c), threads := m.threads[t := Idle])
  {
    hide IsRun, Within, Close;
    NonEmpty(run);
    var m := run[|run| - 1];
    var mark := m.drained;
    var m1 := m.(threads := m.threads[t := CloseWantState(mark)], execution := Some(t));
    Advances(run, T, t, m1);
    var m2 := m1.(threads := m1.threads[t := CloseInState(mark)], state := Some(t));
    Advances(run + [m1], T, t, m2);
    var m3 := m1.(threads := m2.threads[t := CloseLeave(mark)], c := Close(m.c));
    Advances(run + [m1] + [m2], T, t, m3);
    var m4 := m.(c := Close(m.c), threads := m.threads[t := Idle]);
    assert m3.threads[t := Idle] == m4.threads;
    Advances(run + [m1] + [m2] + [m3], T, t, m4);
    longer := run + [m1] + [m2] + [m3] + [m4];
  }

  // The second of two overlapping teardowns closes the coordinator after a new registration.
  lemma LateTeardown() returns (run: seq<Machine>)
    ensures IsRun(run) && Within(run, {0, 1}) && !ClosedMeansRetired(run)
  {
    hide IsRun, Within, Next;
    var start := Machine(INITIAL, [Idle, Idle, Idle], [false, false, false], None, None, {}, None, 0, 0);
    StartsRun(start);
    var identity := Identity(NULL, 1, 1, 1, 0);
    run := RunsAlone([start], {0, 1}, 0, Teardown);
    run := RunsAlone(run, {0, 1}, 1, Teardown);
    run := ClosesAlone(run, {0, 1}, 0);
    run := RunsAlone(run, {0, 1}, 2, Register(identity));
    run := ClosesAlone(run, {0, 1}, 1);
    NonEmpty(run);
    var c := run[|run| - 1].c;
    assert c.processState.Closed? && 0 in c.alive && |c.heap| == 1 && !c.heap[0].retired;
  }

  lemma StartsRun(start: Machine)
    requires Initial(start)
    ensures IsRun([start]) && Within([start], {0, 1})
  {
    assert Teardowns(start) == {};
  }

  // A closed coordinator has ended every registration, on every run whose teardowns overlap at
  // most `k` deep, exactly when that means that they do not overlap at all.
  lemma ClosedMeansRetiredExactly(k: nat)
    ensures (forall run | IsRun(run) && OverlapAtMost(run, k) :: ClosedMeansRetired(run)) <==> k <= 1
  {
    hide IsRun, ClosedMeansRetired, Teardowns;
    if k <= 1 {
      forall run | IsRun(run) && OverlapAtMost(run, k) ensures ClosedMeansRetired(run) {
        SerialRunsEnd(run);
      }
    } else {
      var run := LateTeardown();
      forall i | 0 <= i < |run| ensures |Teardowns(run[i])| <= k {
        Cardinality(Teardowns(run[i]), {0, 1});
      }
    }
  }

  lemma SerialRunsEnd(run: seq<Machine>)
    requires IsRun(run) && OverlapAtMost(run, 1)
    ensures ClosedMeansRetired(run)
  {
    hide IsRun, OverlapAtMost, AllRetired;
    forall i | 0 <= i < |run| ensures run[i].c.processState.Closed? ==> AllRetired(run[i].c) {
      SerialRunEnds(run, i);
    }
  }
}
