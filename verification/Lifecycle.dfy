// The React Native lifecycle coordinator: its state, and each of its critical sections as a
// function of that state.
module Lifecycle {
  import opened Wrappers
  import opened Bytes

  // Pointers owned by React Native are never dereferenced; 0 is nullptr.
  type Pointer = nat

  const NULL: Pointer := 0

  // A registration is named by the order in which its shared state was allocated.
  type RegId = nat

  datatype ProcessState = Uninitialized | Ready | Draining | Closed | Unavailable

  datatype Identity = Identity(
    runtime: Pointer,
    moduleRegistry: Pointer,
    logicalContext: Pointer,
    provider: Pointer,
    providerGeneration: u64)

  // `generation` is the identity of a process generation object.
  datatype Registration = Registration(
    identity: Identity,
    generation: Option<nat>,
    active: bool,
    runtimeBound: bool,
    retired: bool)

  datatype Request = Request(
    registration: RegId,
    generation: Option<nat>,
    runtime: Pointer,
    moduleRegistry: Pointer,
    logicalContext: Pointer,
    provider: Pointer,
    providerGeneration: u64,
    requestIdentity: u64)

  // `registrations` holds weak pointers; one is expired when its target is not in `alive`.
  // `generations` counts the process generation objects made so far.
  datatype Coordinator = Coordinator(
    processState: ProcessState,
    nextRegistrationGeneration: u64,
    nextRequestIdentity: u64,
    inFlight: nat,
    generation: Option<nat>,
    generations: nat,
    registrations: seq<RegId>,
    heap: seq<Registration>,
    alive: set<RegId>)

  const INITIAL := Coordinator(Uninitialized, 0, 0, 0, None, 0, [], [], {})

  // `++counter` on a 64-bit counter.
  function Increment(n: u64): u64 {
    if n == 0xffff_ffff_ffff_ffff then 0 else n + 1
  }

  function EnsureReady(c: Coordinator): Option<Coordinator> {
    match c.processState
    case Uninitialized => Some(NewGeneration(c))
    case Closed => Some(NewGeneration(c))
    case Ready => Some(c)
    case _ => None
  }

  function NewGeneration(c: Coordinator): Coordinator {
    c.(processState := Ready, generation := Some(c.generations), generations := c.generations + 1)
  }

  function RegisterProcessLifecycle(c: Coordinator): Coordinator {
    var ready := EnsureReady(c);
    if ready.Some? then ready.value else c
  }

  function Retire(r: Registration): Registration {
    r.(active := false, retired := true)
  }

  // Which listed registrations an operation retires.
  datatype Selection =
    | SameModule(moduleRegistry: Pointer, logicalContext: Pointer)
    | OfProvider(provider: Pointer)
    | OfContext(logicalContext: Pointer)
    | Everything

  predicate Selected(sel: Selection, identity: Identity) {
    match sel
    case SameModule(registry, context) => identity.moduleRegistry == registry && identity.logicalContext == context
    case OfProvider(provider) => identity.provider == provider
    case OfContext(context) => identity.logicalContext == context
    case Everything => true
  }

  // The scan of the weak pointers, in list order.
  function RetireSelected(heap: seq<Registration>, list: seq<RegId>, alive: set<RegId>, sel: Selection)
    : (r: seq<Registration>)
    ensures |r| == |heap|
  {
    if list == [] then heap
    else
      var done := RetireSelected(heap, list[..|list| - 1], alive, sel);
      var id := list[|list| - 1];
      if id in alive && id < |heap| && Selected(sel, done[id].identity) then done[id := Retire(done[id])] else done
  }

  function RemoveExpired(list: seq<RegId>, alive: set<RegId>, also: Option<RegId>): seq<RegId> {
    if list == [] then []
    else
      var front := RemoveExpired(list[..|list| - 1], alive, also);
      var id := list[|list| - 1];
      if id !in alive || also == Some(id) then front else front + [id]
  }

  predicate Complete(identity: Identity) {
    identity.moduleRegistry != NULL && identity.logicalContext != NULL && identity.provider != NULL
  }

  function RegisterModule(c: Coordinator, identity: Identity): (Coordinator, Option<RegId>) {
    match EnsureReady(c)
    case None => (c, None)
    case Some(ready) =>
      var heap := RetireSelected(ready.heap, ready.registrations, ready.alive,
        SameModule(identity.moduleRegistry, identity.logicalContext));
      var generation := Increment(ready.nextRegistrationGeneration);
      var cleared := ready.(heap := heap, nextRegistrationGeneration := generation);
      if generation == 0 then (cleared, None)
      else (Append(cleared, identity.(providerGeneration := generation)), Some(|heap|))
  }

  function Append(c: Coordinator, identity: Identity): Coordinator {
    var bound := identity.runtime != NULL;
    c.(heap := c.heap + [Registration(identity, c.generation, bound, bound, false)],
       registrations := c.registrations + [|c.heap|],
       alive := c.alive + {|c.heap|})
  }

  function Begin(c: Coordinator, id: RegId, runtime: Pointer): (Coordinator, Option<Request>)
    requires id < |c.heap|
  {
    var r := c.heap[id];
    if c.processState != Ready || r.retired || !Complete(r.identity) || r.generation != c.generation
      || c.generation.None? then (c, None)
    else if r.runtimeBound && (r.identity.runtime == NULL || r.identity.runtime != runtime || !r.active) then (c, None)
    else
      var bound := if r.runtimeBound then c else Bind(c, id, runtime);
      var identity := Increment(c.nextRequestIdentity);
      var counted := bound.(nextRequestIdentity := identity);
      if identity == 0 then (counted, None)
      else (counted.(inFlight := c.inFlight + 1), Some(RequestFor(counted, id, runtime, identity)))
  }

  function Bind(c: Coordinator, id: RegId, runtime: Pointer): Coordinator
    requires id < |c.heap|
  {
    var r := c.heap[id];
    c.(heap := c.heap[id := r.(identity := r.identity.(runtime := runtime), runtimeBound := true, active := true)])
  }

  function RequestFor(c: Coordinator, id: RegId, runtime: Pointer, identity: u64): Request
    requires id < |c.heap|
  {
    var r := c.heap[id].identity;
    Request(id, c.generation, runtime, r.moduleRegistry, r.logicalContext, r.provider, r.providerGeneration, identity)
  }

  predicate IsLive(c: Coordinator, q: Request) {
    && q.registration < |c.heap|
    && var r := c.heap[q.registration];
    && c.processState == Ready
    && r.active && !r.retired
    && q.runtime != NULL && r.identity.runtime != NULL && r.identity.runtime == q.runtime
    && q.moduleRegistry != NULL && r.identity.moduleRegistry == q.moduleRegistry
    && q.logicalContext != NULL && r.identity.logicalContext == q.logicalContext
    && q.provider != NULL && r.identity.provider == q.provider
    && r.identity.providerGeneration == q.providerGeneration
    && q.generation == c.generation && q.generation.Some?
    && q.requestIdentity != 0
  }

  function Finish(c: Coordinator, q: Request): Coordinator {
    if q.requestIdentity != 0 && c.inFlight > 0 then c.(inFlight := c.inFlight - 1) else c
  }

  function Invalidate(c: Coordinator, id: RegId): Coordinator
    requires id < |c.heap|
  {
    c.(heap := c.heap[id := Retire(c.heap[id])], registrations := RemoveExpired(c.registrations, c.alive, Some(id)))
  }

  function InvalidateSelected(c: Coordinator, sel: Selection): Coordinator {
    c.(heap := RetireSelected(c.heap, c.registrations, c.alive, sel),
       registrations := RemoveExpired(c.registrations, c.alive, None))
  }

  // The first critical section of `processTeardown`; false when there is nothing to tear down.
  function Drain(c: Coordinator): (Coordinator, bool) {
    if c.processState.Closed? || c.processState.Unavailable? then (c, false)
    else (
      c.(processState := Draining, heap := RetireSelected(c.heap, c.registrations, c.alive, Everything),
         registrations := [], generation := None),
      true)
  }

  // Its second one.
  function Close(c: Coordinator): Coordinator {
    c.(processState := Closed)
  }
}
