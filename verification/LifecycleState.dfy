// What every critical section keeps of the coordinator's own state.
module LifecycleState {
  import opened Wrappers
  import opened Bytes
  import opened Lifecycle

  ghost predicate EntryWellFormed(r: Registration) {
    && Complete(r.identity)
    && (r.active <==> r.runtimeBound && !r.retired)
    && (r.runtimeBound ==> r.identity.runtime != NULL)
  }

  ghost predicate SameModuleEntries(a: Registration, b: Registration) {
    a.identity.moduleRegistry == b.identity.moduleRegistry && a.identity.logicalContext == b.identity.logicalContext
  }

  ghost predicate WellFormed(c: Coordinator) {
    && (forall id | id in c.alive :: id < |c.heap|)
    && (forall id | 0 <= id < |c.heap| :: EntryWellFormed(c.heap[id]))
    && (forall id | id in c.alive :: !c.heap[id].retired ==> id in c.registrations)
    && OneUnretired(c)
    && (c.processState == Ready ==> c.generation.Some?)
  }

  // At most one unretired registration for each module registry and logical context.
  ghost predicate OneUnretired(c: Coordinator)
    requires forall id | id in c.alive :: id < |c.heap|
  {
    forall i, j | i in c.alive && j in c.alive && i != j && !c.heap[i].retired && !c.heap[j].retired ::
      !SameModuleEntries(c.heap[i], c.heap[j])
  }

  // Registrations are only added, stay retired, and keep identity and first runtime.
  ghost predicate EntryKept(a: Registration, b: Registration) {
    && b.identity.(runtime := a.identity.runtime) == a.identity
    && b.generation == a.generation
    && (a.retired ==> b.retired)
    && (a.runtimeBound ==> b.runtimeBound && b.identity.runtime == a.identity.runtime)
  }

  ghost predicate Kept(c: Coordinator, d: Coordinator) {
    |c.heap| <= |d.heap| && forall id | 0 <= id < |c.heap| :: EntryKept(c.heap[id], d.heap[id])
  }

  lemma {:induction false} RetiredExactly(
    heap: seq<Registration>, list: seq<RegId>, alive: set<RegId>, sel: Selection, id: RegId)
    requires id < |heap|
    ensures RetireSelected(heap, list, alive, sel)[id] ==
      if id in list && id in alive && Selected(sel, heap[id].identity) then Retire(heap[id]) else heap[id]
  {
    if list != [] {
      var front, last := list[..|list| - 1], list[|list| - 1];
      RetiredExactly(heap, front, alive, sel, id);
      assert list == front + [last];
      if last in alive && last < |heap| {
        RetiredExactly(heap, front, alive, sel, last);
      }
    }
  }

  lemma {:induction false} RemovedExactly(list: seq<RegId>, alive: set<RegId>, also: Option<RegId>, id: RegId)
    ensures id in RemoveExpired(list, alive, also) <==> id in list && id in alive && also != Some(id)
  {
    if list != [] {
      RemovedExactly(list[..|list| - 1], alive, also, id);
      assert list == list[..|list| - 1] + [list[|list| - 1]];
    }
  }

  // After a scan no selected registration that is alive is left unretired.
  lemma SelectedAreRetired(c: Coordinator, sel: Selection, id: RegId)
    requires WellFormed(c) && id in c.alive && Selected(sel, c.heap[id].identity)
    ensures RetireSelected(c.heap, c.registrations, c.alive, sel)[id].retired
  {
    RetiredExactly(c.heap, c.registrations, c.alive, sel, id);
  }

  lemma RetireSelectedKeeps(c: Coordinator, sel: Selection, d: Coordinator)
    requires WellFormed(c) && d.heap == RetireSelected(c.heap, c.registrations, c.alive, sel) && d.alive == c.alive
    requires d.processState == Ready ==> d.generation.Some?
    requires forall id | id in d.alive :: !d.heap[id].retired && id in c.registrations ==> id in d.registrations
    ensures WellFormed(d) && Kept(c, d)
  {
    forall id | 0 <= id < |c.heap|
      ensures d.heap[id] == c.heap[id] || d.heap[id] == Retire(c.heap[id])
    {
      RetiredExactly(c.heap, c.registrations, c.alive, sel, id);
    }
  }

  lemma InvalidateSelectedKeeps(c: Coordinator, sel: Selection)
    requires WellFormed(c)
    ensures WellFormed(InvalidateSelected(c, sel)) && Kept(c, InvalidateSelected(c, sel))
    ensures InvalidateSelected(c, sel).alive == c.alive
    ensures forall id | id in c.alive && Selected(sel, c.heap[id].identity) ::
      InvalidateSelected(c, sel).heap[id].retired
  {
    forall id ensures id in c.alive && id in c.registrations ==> id in RemoveExpired(c.registrations, c.alive, None) {
      RemovedExactly(c.registrations, c.alive, None, id);
    }
    RetireSelectedKeeps(c, sel, InvalidateSelected(c, sel));
    forall id | id in c.alive && Selected(sel, c.heap[id].identity)
      ensures InvalidateSelected(c, sel).heap[id].retired
    {
      SelectedAreRetired(c, sel, id);
    }
  }

  lemma InvalidateKeeps(c: Coordinator, id: RegId)
    requires WellFormed(c) && id < |c.heap|
    ensures WellFormed(Invalidate(c, id)) && Kept(c, Invalidate(c, id))
    ensures Invalidate(c, id).heap[id].retired && Invalidate(c, id).alive == c.alive
  {
    var d := Invalidate(c, id);
    forall k | k in d.alive && !d.heap[k].retired ensures k in d.registrations {
      RemovedExactly(c.registrations, c.alive, Some(id), k);
    }
  }

  lemma DrainKeeps(c: Coordinator)
    requires WellFormed(c)
    ensures WellFormed(Drain(c).0) && Kept(c, Drain(c).0) && Drain(c).0.alive == c.alive
    ensures Drain(c).1 ==> forall id | id in c.alive :: Drain(c).0.heap[id].retired
  {
    if Drain(c).1 {
      forall id | id in c.alive ensures Drain(c).0.heap[id].retired {
        SelectedAreRetired(c, Everything, id);
      }
      RetireSelectedKeeps(c, Everything, Drain(c).0);
    }
  }

  lemma EnsureReadyKeeps(c: Coordinator)
    requires WellFormed(c)
    ensures EnsureReady(c).Some? ==>
      WellFormed(EnsureReady(c).value) && EnsureReady(c).value.heap == c.heap && EnsureReady(c).value.alive == c.alive
  {
  }

  // What a new registration of `identity` replaces.
  ghost predicate Replaced(identity: Identity, r: Registration) {
    Selected(SameModule(identity.moduleRegistry, identity.logicalContext), r.identity)
  }

  lemma RegisterKeeps(c: Coordinator, identity: Identity)
    requires WellFormed(c) && Complete(identity)
    ensures var (d, id) := RegisterModule(c, identity);
      && WellFormed(d) && Kept(c, d) && c.alive <= d.alive
      && (id.Some? ==> d.alive == c.alive + {id.value} && id.value == |c.heap| && !d.heap[id.value].retired)
      && (id.Some? ==> forall k | k in c.alive && Replaced(identity, c.heap[k]) :: d.heap[k].retired)
  {
    EnsureReadyKeeps(c);
    if EnsureReady(c).Some? {
      var ready := EnsureReady(c).value;
      var sel := SameModule(identity.moduleRegistry, identity.logicalContext);
      var heap := RetireSelected(ready.heap, ready.registrations, ready.alive, sel);
      var generation := Increment(ready.nextRegistrationGeneration);
      var cleared := ready.(heap := heap, nextRegistrationGeneration := generation);
      RetireSelectedKeeps(ready, sel, cleared);
      forall k | k in c.alive && Selected(sel, c.heap[k].identity) ensures heap[k].retired {
        SelectedAreRetired(ready, sel, k);
      }
      forall k | k in c.alive ensures heap[k].identity == c.heap[k].identity {
        RetiredExactly(ready.heap, ready.registrations, ready.alive, sel, k);
      }
      if generation != 0 {
        AppendKeeps(cleared, identity.(providerGeneration := generation));
      }
    }
  }

  lemma AppendKeeps(c: Coordinator, identity: Identity)
    requires WellFormed(c) && Complete(identity)
    requires forall k | k in c.alive && Replaced(identity, c.heap[k]) :: c.heap[k].retired
    ensures WellFormed(Append(c, identity)) && Kept(c, Append(c, identity))
  {
  }

  lemma BeginKeeps(c: Coordinator, id: RegId, runtime: Pointer)
    requires WellFormed(c) && id < |c.heap| && runtime != NULL
    ensures var (d, q) := Begin(c, id, runtime);
      && WellFormed(d) && Kept(c, d) && d.alive == c.alive
      && (q.None? ==> d.inFlight == c.inFlight)
      && (q.Some? ==> d.inFlight == c.inFlight + 1 && Admitted(d, q.value) && q.value.registration == id)
      && (q.Some? ==> IsLive(d, q.value) && q.value.runtime == runtime)
  {
  }

  // What an admitted request always agrees on with its registration.
  ghost predicate Admitted(c: Coordinator, q: Request) {
    && q.registration < |c.heap|
    && var r := c.heap[q.registration];
    && Complete(r.identity)
    && r.runtimeBound && r.identity.runtime == q.runtime && q.runtime != NULL
    && r.identity.moduleRegistry == q.moduleRegistry && r.identity.logicalContext == q.logicalContext
    && r.identity.provider == q.provider && r.identity.providerGeneration == q.providerGeneration
    && r.generation == q.generation
    && q.requestIdentity != 0
  }

  lemma AdmittedKept(c: Coordinator, d: Coordinator, q: Request)
    requires Kept(c, d) && Admitted(c, q)
    ensures Admitted(d, q)
  {
    assert EntryKept(c.heap[q.registration], d.heap[q.registration]);
  }
}
