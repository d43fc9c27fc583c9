// Progress: no reachable state is stuck, and whatever has been started comes to an end.
module LifecycleProgress {
  import opened Wrappers
  import opened Bytes
  import opened Lifecycle
  import opened LifecycleMachine
  import opened LifecycleState
  import opened LifecycleTheory

  ghost predicate CanProceed(m: Machine, t: Tid) {
    t < |m.threads| == |m.active| && exists e :: Proceeds(m, t, e).Some?
  }

  ghost predicate Busy(m: Machine, t: Tid) {
    t < |m.threads| && m.threads[t] != Idle
  }

  // The lock order: a holder of the state lock never waits.
  lemma StateHolderProceeds(m: Machine, t: Tid)
    requires Invariant(m) && t < |m.threads| && HoldsState(m.threads[t])
    ensures CanProceed(m, t)
  {
    hide Locks, InFlightOk, Apply, Begin, IsLive, Finish, Close, RegisterProcessLifecycle, TicketOk, Achieved;
    assert ThreadOk(m, m.threads[t]);
    var pc := m.threads[t];
    assert pc.BeginInState? ==> Refers(pc, pc.id);
    assert |m.threads| == |m.active| by {
      ThreadsMatch(m);
    }
    assert Proceeds(m, t, Advance).Some?;
  }

  lemma ThreadsMatch(m: Machine)
    requires Locks(m)
    ensures |m.threads| == |m.active|
  {
  }

  // With the state lock free: a holder of the barrier, then a thread that shares it, then a
  // holder of the execution lock, then anyone.
  lemma BarrierHolderProceeds(m: Machine, t: Tid)
    requires Invariant(m) && t < |m.threads| && m.state == None && (HoldsBarrier(m.threads[t]) || SharesBarrier(m.threads[t]))
    ensures CanProceed(m, t)
  {
    hide InFlightOk, Apply, Begin, IsLive, Finish, Close, RegisterProcessLifecycle, ThreadOk, WellFormed;
    assert LocksOf(m, t);
    assert Proceeds(m, t, Advance).Some?;
  }

  lemma OthersProceed(m: Machine, t: Tid)
    requires Invariant(m) && Busy(m, t) && m.state == None && m.barrier == None && m.sharers == {}
    requires m.execution == None || m.execution == Some(t)
    ensures CanProceed(m, t)
  {
    hide InFlightOk, Apply, Begin, IsLive, Finish, Close, RegisterProcessLifecycle, ThreadOk, WellFormed;
    assert LocksOf(m, t);
    if m.threads[t].Running? {
      assert Proceeds(m, t, Return).Some?;
    } else {
      assert Proceeds(m, t, Advance).Some?;
    }
  }

  // Deadlock freedom.
  lemma SomeoneProceeds(m: Machine, t: Tid) returns (u: Tid)
    requires Invariant(m) && Busy(m, t)
    ensures CanProceed(m, u)
  {
    hide InFlightOk, ThreadOk, WellFormed, CanProceed;
    if m.state.Some? {
      u := m.state.value;
      assert LocksOf(m, u);
      StateHolderProceeds(m, u);
    } else if m.barrier.Some? {
      u := m.barrier.value;
      assert LocksOf(m, u);
      BarrierHolderProceeds(m, u);
    } else if m.sharers != {} {
      u :| u in m.sharers;
      assert LocksOf(m, u);
      BarrierHolderProceeds(m, u);
    } else if m.execution.Some? {
      u := m.execution.value;
      assert LocksOf(m, u);
      OthersProceed(m, u);
    } else {
      u := t;
      OthersProceed(m, u);
    }
  }

  ghost predicate SomeCanProceed(m: Machine) {
    exists u :: CanProceed(m, u)
  }

  // In every reachable state with unfinished threads some thread has an enabled step.
  lemma NeverStuck(run: seq<Machine>, i: nat, t: Tid)
    requires IsRun(run) && i < |run| && Busy(run[i], t)
    ensures SomeCanProceed(run[i])
  {
    RunInvariant(run, i);
    var u := SomeoneProceeds(run[i], t);
  }

  // ----- termination

  // How many steps a thread has left when it makes all the deliveries it may still make.
  function Left(pc: Pc): nat {
    match pc
    case Idle => 0
    case WantBarrier(_) => 8
    case WantState(_) => 7
    case InState(_) => 6
    case LeaveBarrier(_, _, _) => 5
    case CloseWantExecution(_) => 4
    case CloseWantState(_) => 3
    case CloseInState(_) => 2
    case CloseLeave(_) => 1
    case ProcessWantState => 2
    case ProcessInState => 1
    case WantExecution(_, _, calls) => 6 * calls + 7
    case BeginWantState(_, _, calls) => 6 * calls + 6
    case BeginInState(_, _, calls) => 6 * calls + 5
    case Running(ticket) => 6 * ticket.calls + 4
    case DeliverWantBarrier(ticket) => 6 * ticket.calls + 9
    case DeliverWantState(ticket) => 6 * ticket.calls + 8
    case DeliverInState(ticket) => 6 * ticket.calls + 7
    case Delivering(ticket) => 6 * ticket.calls + 6
    case DeliverLeave(ticket) => 6 * ticket.calls + 5
    case FinishWantState(_) => 3
    case FinishInState(_) => 2
    case LeaveExecution => 1
  }

  function Work(threads: seq<Pc>): nat {
    if threads == [] then 0 else Work(threads[..|threads| - 1]) + Left(threads[|threads| - 1])
  }

  lemma {:induction false} WorkUpdated(threads: seq<Pc>, t: Tid, pc: Pc)
    requires t < |threads|
    ensures Work(threads[t := pc]) == Work(threads) - Left(threads[t]) + Left(pc)
  {
    var front, changed := threads[..|threads| - 1], threads[t := pc];
    if t < |front| {
      WorkUpdated(front, t, pc);
      assert changed[..|changed| - 1] == front[t := pc];
    } else {
      assert changed[..|changed| - 1] == front;
    }
  }

  // One thread moves, and has less left to do.
  ghost predicate Moves(m: Machine, t: Tid, m': Machine) {
    && t < |m.threads| == |m'.threads|
    && m'.threads == m.threads[t := m'.threads[t]]
    && Left(m'.threads[t]) < Left(m.threads[t])
  }

  lemma OperationMoves(m: Machine, t: Tid, m': Machine)
    requires t < |m.threads| && AdvanceOperation(m, t) == Some(m')
    ensures Moves(m, t, m')
  {
    hide Apply, Close, RegisterProcessLifecycle;
  }

  lemma TicketMoves(m: Machine, t: Tid, m': Machine)
    requires t < |m.threads| == |m.active| && AdvanceTicket(m, t) == Some(m')
    ensures Moves(m, t, m')
  {
    hide Begin, IsLive, Finish;
  }

  lemma ProceedsMoves(m: Machine, t: Tid, e: Event, m': Machine)
    requires t < |m.threads| == |m.active| && Proceeds(m, t, e) == Some(m')
    ensures Moves(m, t, m')
  {
    hide AdvanceOperation, AdvanceTicket;
    if e == Advance {
      hide Moves;
      if AdvanceOperation(m, t).Some? {
        OperationMoves(m, t, m');
      } else {
        TicketMoves(m, t, m');
      }
    }
  }

  // Steps of started threads only, with no new call from outside.
  ghost predicate Settling(run: seq<Machine>) {
    run != [] && Invariant(run[0])
    && forall i | 0 <= i < |run| - 1 :: Settled(run[i], run[i + 1])
  }

  ghost predicate Settled(m: Machine, m': Machine) {
    |m.threads| == |m.active| && exists t: Tid, e | t < |m.threads| :: Proceeds(m, t, e) == Some(m')
  }

  lemma {:induction false} SettlingKeeps(run: seq<Machine>, i: nat)
    requires Settling(run) && i < |run|
    ensures Invariant(run[i]) && i + Work(run[i].threads) <= Work(run[0].threads)
  {
    hide Invariant, Proceeds;
    if i > 0 {
      SettlingKeeps(run, i - 1);
      var m, m' := run[i - 1], run[i - 1 + 1];
      assert Settled(m, m');
      var t: Tid, e :| t < |m.threads| && Proceeds(m, t, e) == Some(m');
      ProceedsKeeps(m, t, e, m');
      ProceedsMoves(m, t, e, m');
      WorkUpdated(m.threads, t, m'.threads[t]);
    }
  }

  // Without new calls every schedule ends within `Work` steps, and one that cannot go on has
  // finished every operation and every request, with no lock held.
  lemma Settles(run: seq<Machine>)
    requires Settling(run)
    ensures |run| - 1 <= Work(run[0].threads)
    ensures SomeCanProceed(run[|run| - 1]) || Finished(run[|run| - 1])
  {
    hide Proceeds, Invariant, CanProceed, Finished, Settled;
    var m := run[|run| - 1];
    SettlingKeeps(run, |run| - 1);
    if exists t :: Busy(m, t) {
      var t :| Busy(m, t);
      var u := SomeoneProceeds(m, t);
    } else {
      IdleIsFinished(m);
    }
  }

  // Every operation has returned, no ticket is outstanding and no lock is held.
  ghost predicate Finished(m: Machine) {
    && |m.active| == |m.threads|
    && (forall t | 0 <= t < |m.threads| :: m.threads[t] == Idle && !m.active[t])
    && m.execution == None && m.barrier == None && m.sharers == {} && m.state == None && m.c.inFlight == 0
  }

  lemma IdleIsFinished(m: Machine)
    requires Invariant(m) && forall t :: !Busy(m, t)
    ensures Finished(m)
  {
    hide WellFormed, ThreadOk;
    forall t: Tid | t < |m.threads| ensures m.threads[t] == Idle && LocksOf(m, t) {
      assert !Busy(m, t);
    }
    forall u: Tid
      ensures m.execution != Some(u) && m.barrier != Some(u) && u !in m.sharers && m.state != Some(u)
    {
      if u < |m.threads| {
        assert LocksOf(m, u);
      }
    }
  }
}
