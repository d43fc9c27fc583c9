// The coordinator as the object it is: each method below is one critical section, run with the
// state lock held, and is proved to act on the abstract state as the machine's step does.
module LifecycleCoordinator {
  import opened Wrappers
  import opened Bytes
  import opened Lifecycle

  class RegistrationState {
    var identity: Identity
    var processGeneration: Option<nat>
    var active: bool
    var runtimeBound: bool
    var retired: bool

    constructor (identity: Identity, processGeneration: Option<nat>)
      ensures View() ==
        Registration(identity, processGeneration, identity.runtime != NULL, identity.runtime != NULL, false)
    {
      this.identity := identity;
      this.processGeneration := processGeneration;
      this.runtimeBound := identity.runtime != NULL;
      this.active := identity.runtime != NULL;
      this.retired := false;
    }

    function View(): Registration
      reads this
    {
      Registration(identity, processGeneration, active, runtimeBound, retired)
    }

    method Retire()
      modifies `active, `retired
      ensures View() == Lifecycle.Retire(old(View()))
    {
      active := false;
      retired := true;
    }
  }

  ghost function Views(states: seq<RegistrationState>): (h: seq<Registration>)
    reads states
    ensures |h| == |states|
    ensures forall i | 0 <= i < |states| :: h[i] == states[i].View()
  {
    seq(|states|, i requires 0 <= i < |states| reads states => states[i].View())
  }

  // `states` is the shared heap of registration states in allocation order, `registrations` the
  // vector of weak pointers into it, and `alive` says which of them can still be locked.
  class RnLifecycleCoordinator {
    var processState: ProcessState
    var nextRegistrationGeneration: u64
    var nextRequestIdentity: u64
    var inFlight: nat
    var processGeneration: Option<nat>
    var generations: nat
    var registrations: seq<RegId>
    var states: seq<RegistrationState>
    var alive: set<RegId>

    ghost predicate Valid()
      reads this
    {
      && (forall i, j | 0 <= i < j < |states| :: states[i] != states[j])
      && (forall id | id in alive :: id < |states|)
    }

    ghost function Heap(): (h: seq<Registration>)
      reads `states, states
      ensures |h| == |states|
      ensures forall i | 0 <= i < |states| :: h[i] == states[i].View()
    {
      Views(states)
    }

    ghost function View(): Coordinator
      reads this, states
    {
      Coordinator(processState, nextRegistrationGeneration, nextRequestIdentity, inFlight, processGeneration,
        generations, registrations, Heap(), alive)
    }

    constructor ()
      ensures Valid() && View() == INITIAL && states == []
    {
      processState := Uninitialized;
      nextRegistrationGeneration := 0;
      nextRequestIdentity := 0;
      inFlight := 0;
      processGeneration := None;
      generations := 0;
      registrations := [];
      states := [];
      alive := {};
    }

    method EnsureReadyLocked() returns (ready: bool)
      requires Valid()
      modifies `processState, `processGeneration, `generations
      ensures Valid()
      ensures ready <==> EnsureReady(old(View())).Some?
      ensures View() == if ready then EnsureReady(old(View())).value else old(View())
    {
      if processState == Uninitialized || processState == Closed {
        processGeneration := Some(generations);
        generations := generations + 1;
        processState := Ready;
      }
      ready := processState == Ready;
    }

    method RegisterProcessLifecycle() returns (ok: bool)
      requires Valid()
      modifies this
      ensures Valid() && states == old(states)
      ensures View() == Lifecycle.RegisterProcessLifecycle(old(View()))
      ensures ok <==> processState == Ready
    {
      ok := EnsureReadyLocked();
    }

    // The loop over the weak pointers that `registerModule`, `invalidateProvider`,
    // `invalidateContext` and `processTeardown` share.
    method RetireSelectedLocked(selection: Selection)
      requires Valid()
      modifies states
      ensures Valid()
      ensures View() == old(View()).(heap := RetireSelected(old(Heap()), registrations, alive, selection))
    {
      var i := 0;
      while i < |registrations|
        invariant 0 <= i <= |registrations| && Valid()
        invariant Heap() == RetireSelected(old(Heap()), registrations[..i], alive, selection)
      {
        var id := registrations[i];
        assert registrations[..i + 1][..i] == registrations[..i];
        if id in alive && Selected(selection, states[id].identity) {
          ghost var before := Heap();
          states[id].Retire();
          assert Heap() == before[id := Lifecycle.Retire(before[id])];
        }
        i := i + 1;
      }
      assert registrations[..|registrations|] == registrations;
    }

    // `erase(remove_if(...))`.
    method EraseLocked(also: Option<RegId>)
      requires Valid()
      modifies `registrations
      ensures Valid()
      ensures View() == old(View()).(registrations := RemoveExpired(old(registrations), alive, also))
    {
      var kept := [];
      var i := 0;
      while i < |registrations|
        invariant 0 <= i <= |registrations|
        invariant kept == RemoveExpired(registrations[..i], alive, also)
      {
        assert registrations[..i + 1][..i] == registrations[..i];
        if registrations[i] in alive && also != Some(registrations[i]) {
          kept := kept + [registrations[i]];
        }
        i := i + 1;
      }
      assert registrations[..|registrations|] == registrations;
      registrations := kept;
    }

    method RegisterModule(identity: Identity) returns (r: Option<RegId>)
      requires Valid()
      modifies this, states
      ensures Valid() && old(states) <= states && fresh(states[|old(states)|..])
      ensures !Complete(identity) ==> r == None && View() == old(View())
      ensures Complete(identity) ==> (View(), r) == Lifecycle.RegisterModule(old(View()), identity)
    {
      if !Complete(identity) {
        return None;
      }
      var ready := EnsureReadyLocked();
      if !ready {
        return None;
      }
      RetireSelectedLocked(SameModule(identity.moduleRegistry, identity.logicalContext));
      nextRegistrationGeneration := Increment(nextRegistrationGeneration);
      if nextRegistrationGeneration == 0 {
        return None;
      }
      r := Some(|states|);
      AppendLocked(identity.(providerGeneration := nextRegistrationGeneration));
    }

    method AppendLocked(identity: Identity)
      requires Valid()
      modifies this
      ensures Valid() && old(states) <= states && fresh(states[|old(states)|..])
      ensures View() == Append(old(View()), identity)
    {
      ghost var heap := Heap();
      var state := new RegistrationState(identity, processGeneration);
      registrations := registrations + [|states|];
      alive := alive + {|states|};
      states := states + [state];
      assert Heap() == heap + [state.View()];
    }

    // `hasActiveRequest` is the calling thread's flag.
    method Begin(id: RegId, runtime: Pointer, hasActiveRequest: bool) returns (q: Option<Request>)
      requires Valid() && id < |states|
      modifies this, states[id]
      ensures Valid() && states == old(states)
      ensures runtime == NULL || hasActiveRequest ==> q == None && View() == old(View())
      ensures runtime != NULL && !hasActiveRequest ==> (View(), q) == Lifecycle.Begin(old(View()), id, runtime)
    {
      hide Bind, RequestFor, Views;
      if runtime == NULL || hasActiveRequest {
        return None;
      }
      var state := states[id];
      if processState != Ready || state.retired || !Complete(state.identity)
        || state.processGeneration != processGeneration || processGeneration == None {
        return None;
      }
      if !state.runtimeBound {
        BindLocked(id, runtime);
      } else if state.identity.runtime == NULL || state.identity.runtime != runtime || !state.active {
        return None;
      }
      q := AdmitLocked(id, runtime);
    }

    // The runtime is bound once, at the first admission.
    method BindLocked(id: RegId, runtime: Pointer)
      requires Valid() && id < |states|
      modifies states[id]
      ensures Valid() && View() == Bind(old(View()), id, runtime)
    {
      var state := states[id];
      ghost var heap := Heap();
      state.identity := state.identity.(runtime := runtime);
      state.runtimeBound := true;
      state.active := true;
      assert Heap() == heap[id := state.View()];
    }

    method AdmitLocked(id: RegId, runtime: Pointer) returns (q: Option<Request>)
      requires Valid() && id < |states|
      modifies `nextRequestIdentity, `inFlight
      ensures Valid()
      ensures
        var identity := Increment(old(nextRequestIdentity));
        var counted := old(View()).(nextRequestIdentity := identity);
        if identity == 0 then q == None && View() == counted
        else q == Some(RequestFor(counted, id, runtime, identity)) && View() == counted.(inFlight := old(inFlight) + 1)
    {
      nextRequestIdentity := Increment(nextRequestIdentity);
      if nextRequestIdentity == 0 {
        return None;
      }
      inFlight := inFlight + 1;
      var state := states[id];
      q := Some(Request(id, processGeneration, runtime, state.identity.moduleRegistry, state.identity.logicalContext,
        state.identity.provider, state.identity.providerGeneration, nextRequestIdentity));
    }

    method IsLive(q: Request) returns (live: bool)
      requires Valid() && q.registration < |states|
      ensures live == Lifecycle.IsLive(View(), q)
    {
      var state := states[q.registration];
      live :=
        && processState == Ready
        && state.active
        && !state.retired
        && q.runtime != NULL
        && state.identity.runtime != NULL
        && state.identity.runtime == q.runtime
        && q.moduleRegistry != NULL
        && state.identity.moduleRegistry == q.moduleRegistry
        && q.logicalContext != NULL
        && state.identity.logicalContext == q.logicalContext
        && q.provider != NULL
        && state.identity.provider == q.provider
        && state.identity.providerGeneration == q.providerGeneration
        && q.generation == processGeneration
        && q.generation != None
        && q.requestIdentity != 0;
    }

    method Finish(q: Request)
      requires Valid()
      modifies `inFlight
      ensures Valid() && View() == Lifecycle.Finish(old(View()), q)
    {
      if q.requestIdentity != 0 && inFlight > 0 {
        inFlight := inFlight - 1;
      }
    }

    method Invalidate(id: RegId)
      requires Valid() && id < |states|
      modifies `registrations, states[id]
      ensures Valid() && View() == Lifecycle.Invalidate(old(View()), id)
    {
      ghost var heap := Heap();
      states[id].Retire();
      assert Heap() == heap[id := Lifecycle.Retire(heap[id])];
      EraseLocked(Some(id));
    }

    method InvalidateProvider(provider: Pointer)
      requires Valid()
      modifies `registrations, states
      ensures Valid()
      ensures View() == if provider == NULL then old(View()) else InvalidateSelected(old(View()), OfProvider(provider))
    {
      if provider == NULL {
        return;
      }
      RetireSelectedLocked(OfProvider(provider));
      EraseLocked(None);
    }

    method InvalidateContext(context: Pointer)
      requires Valid()
      modifies `registrations, states
      ensures Valid()
      ensures View() == if context == NULL then old(View()) else InvalidateSelected(old(View()), OfContext(context))
    {
      if context == NULL {
        return;
      }
      RetireSelectedLocked(OfContext(context));
      EraseLocked(None);
    }

    // The two critical sections of `processTeardown`; the execution lock is taken in between.
    method DrainLocked() returns (drains: bool)
      requires Valid()
      modifies this, states
      ensures Valid() && states == old(states)
      ensures (View(), drains) == Drain(old(View()))
    {
      if processState == Closed || processState == Unavailable {
        return false;
      }
      processState := Draining;
      RetireSelectedLocked(Everything);
      registrations := [];
      processGeneration := None;
      drains := true;
    }

    method CloseLocked()
      requires Valid()
      modifies `processState
      ensures Valid() && View() == Close(old(View()))
    {
      processState := Closed;
    }
  }
}
