// The runtime dependency closure behind the software bill of materials: a worklist over the
// package graph of each target, against reachability by normal dependencies.
module RuntimeGraph {
  import opened Wrappers

  type Id = string

  // `source` is None where no source can be named: a path package outside the repository.
  datatype Package = Package(id: Id, name: string, version: string, source: Option<string>)

  // `kinds` is None when the field is no array; a kind is None when it is null.
  datatype Dependency = Dependency(pkg: Id, kinds: Option<seq<Option<string>>>)

  datatype Node = Node(id: Id, deps: seq<Dependency>)

  datatype Metadata = Metadata(packages: seq<Package>, nodes: seq<Node>)

  datatype Component = Component(package: Package, targets: set<string>)

  datatype Edge = Edge(source: string, target: string)

  datatype Failure =
    | AmbiguousRoot
    | NoRootNode
    | UnknownPackage
    | UnknownDependency
    | UnnamedSource
    | InconsistentPackage

  predicate Normal(d: Dependency) {
    d.kinds.Some? && None in d.kinds.value
  }

  function Identity(p: Package): Option<string> {
    if p.source.None? then None else Some("cargo|" + p.name + "|" + p.version + "|" + p.source.value)
  }

  // `new Map(...)` keeps the last entry of a key.
  function ById(packages: seq<Package>): map<Id, Package> {
    if packages == [] then map[]
    else ById(packages[..|packages| - 1])[packages[|packages| - 1].id := packages[|packages| - 1]]
  }

  function NodesById(nodes: seq<Node>): map<Id, Node> {
    if nodes == [] then map[] else NodesById(nodes[..|nodes| - 1])[nodes[|nodes| - 1].id := nodes[|nodes| - 1]]
  }

  function Roots(packages: seq<Package>, name: string): seq<Package> {
    if packages == [] then []
    else
      var front := Roots(packages[..|packages| - 1], name);
      if packages[|packages| - 1].name == name then front + [packages[|packages| - 1]] else front
  }

  // ----- reachability

  datatype Graph = Graph(packages: map<Id, Package>, nodes: map<Id, Node>)

  ghost predicate HasEdge(g: Graph, a: Id, b: Id) {
    a in g.nodes && exists i | 0 <= i < |g.nodes[a].deps| :: Normal(g.nodes[a].deps[i]) && g.nodes[a].deps[i].pkg == b
  }

  ghost predicate IsPath(g: Graph, path: seq<Id>) {
    path != [] && forall i | 0 <= i < |path| - 1 :: HasEdge(g, path[i], path[i + 1])
  }

  ghost predicate Reachable(g: Graph, root: Id, x: Id) {
    exists path :: IsPath(g, path) && path[0] == root && path[|path| - 1] == x
  }

  lemma RootReachable(g: Graph, root: Id)
    ensures Reachable(g, root, root)
  {
    assert IsPath(g, [root]);
  }

  lemma ReachesOn(g: Graph, root: Id, a: Id, b: Id)
    requires Reachable(g, root, a) && HasEdge(g, a, b)
    ensures Reachable(g, root, b)
  {
    hide HasEdge;
    var path :| IsPath(g, path) && path[0] == root && path[|path| - 1] == a;
    var longer := path + [b];
    forall i | 0 <= i < |longer| - 1 ensures HasEdge(g, longer[i], longer[i + 1]) {
      if i < |path| - 1 {
        assert HasEdge(g, path[i], path[i + 1]);
      }
    }
    assert IsPath(g, longer);
  }

  // A set closed under edges that holds the root holds all that is reachable.
  lemma {:induction false} ClosedHoldsPath(g: Graph, visited: set<Id>, path: seq<Id>)
    requires IsPath(g, path) && path[0] in visited
    requires forall a, b | a in visited && HasEdge(g, a, b) :: b in visited
    ensures path[|path| - 1] in visited
  {
    hide HasEdge;
    if |path| > 1 {
      assert HasEdge(g, path[0], path[0 + 1]);
      forall i | 0 <= i < |path[1..]| - 1 ensures HasEdge(g, path[1..][i], path[1..][i + 1]) {
        assert HasEdge(g, path[i + 1], path[i + 1 + 1]);
      }
      ClosedHoldsPath(g, visited, path[1..]);
    }
  }

  lemma ClosedHoldsReachable(g: Graph, visited: set<Id>, root: Id)
    requires root in visited && forall a, b | a in visited && HasEdge(g, a, b) :: b in visited
    ensures forall x | Reachable(g, root, x) :: x in visited
  {
    hide HasEdge;
    forall x | Reachable(g, root, x) ensures x in visited {
      var path :| IsPath(g, path) && path[0] == root && path[|path| - 1] == x;
      ClosedHoldsPath(g, visited, path);
    }
  }

  // ----- what the collection of one target is to do

  predicate Known(g: Graph, x: Id) {
    x in g.packages && x in g.nodes && Identity(g.packages[x]).Some?
  }

  function Name(g: Graph, x: Id): string {
    if x in g.packages && Identity(g.packages[x]).Some? then Identity(g.packages[x]).value else ""
  }

  predicate SameRelease(a: Package, b: Package) {
    a.name == b.name && a.version == b.version
  }

  // Nothing reachable is unknown, and no identity stands for two releases.
  ghost predicate Collectable(g: Graph, root: Id, prior: map<string, Component>) {
    && (forall x | Reachable(g, root, x) :: Known(g, x))
    && (forall x | Reachable(g, root, x) && x in g.packages && Name(g, x) in prior ::
          SameRelease(prior[Name(g, x)].package, g.packages[x]))
    && (forall x, y | Reachable(g, root, x) && Reachable(g, root, y) && x in g.packages && y in g.packages
          && Name(g, x) == Name(g, y) :: SameRelease(g.packages[x], g.packages[y]))
  }

  function EdgeKey(g: Graph, a: Id, b: Id): string {
    Name(g, a) + "\n" + Name(g, b)
  }

  ghost predicate IsClosure(g: Graph, root: Id, closure: set<string>) {
    forall s :: s in closure <==> exists x :: Reachable(g, root, x) && Name(g, x) == s
  }

  ghost predicate AreEdges(g: Graph, root: Id, keys: set<string>) {
    forall s :: s in keys <==> exists a, b :: Reachable(g, root, a) && HasEdge(g, a, b) && EdgeKey(g, a, b) == s
  }

  // Where the collected packages come from, and for which targets.
  ghost predicate PackagesOf(g: Graph, visited: set<Id>, prior: map<string, Component>, target: string,
    packages: map<string, Component>)
  {
    && PackagesAre(g, visited, prior, packages)
    && PackagesAgree(g, visited, packages)
    && TargetsAre(g, visited, prior, target, packages)
  }

  ghost predicate PackagesAre(g: Graph, visited: set<Id>, prior: map<string, Component>, packages: map<string, Component>) {
    && (forall s :: s in packages <==> s in prior || Seen(g, visited, s))
    && (forall s | s in prior && s in packages :: packages[s].package == prior[s].package)
    && (forall s | s in packages && s !in prior :: From(g, visited, s, packages[s].package))
  }

  ghost predicate PackagesAgree(g: Graph, visited: set<Id>, packages: map<string, Component>) {
    forall x | x in visited :: x in g.packages && Name(g, x) in packages
      && SameRelease(packages[Name(g, x)].package, g.packages[x])
  }

  ghost predicate TargetsAre(g: Graph, visited: set<Id>, prior: map<string, Component>, target: string,
    packages: map<string, Component>)
  {
    forall s | s in packages :: packages[s].targets ==
      (if s in prior then prior[s].targets else {}) + (if Seen(g, visited, s) then {target} else {})
  }

  ghost predicate Seen(g: Graph, visited: set<Id>, s: string) {
    exists x :: x in visited && Name(g, x) == s
  }

  ghost predicate From(g: Graph, visited: set<Id>, s: string, p: Package) {
    exists x :: x in visited && x in g.packages && Name(g, x) == s && g.packages[x] == p
  }

  // ----- the state of the worklist

  ghost predicate Explored(g: Graph, root: Id, visited: set<Id>, stack: seq<Id>) {
    && (forall x | x in visited :: Reachable(g, root, x) && Known(g, x))
    && (forall x | x in stack :: Reachable(g, root, x))
    && (root in visited || root in stack)
    && (forall a, b | a in visited && HasEdge(g, a, b) :: b in visited || b in stack)
  }

  ghost predicate EdgesOf(g: Graph, visited: set<Id>, keys: set<string>) {
    forall s :: s in keys <==> exists a, b :: a in visited && HasEdge(g, a, b) && EdgeKey(g, a, b) == s
  }

  ghost predicate ClosureOf(g: Graph, visited: set<Id>, closure: set<string>) {
    forall s :: s in closure <==> Seen(g, visited, s)
  }

  // The edge records, by key.
  ghost predicate RecordsOf(prior: map<string, Edge>, keys: set<string>, edges: map<string, Edge>) {
    && edges.Keys == prior.Keys + keys
    && (forall s | s in edges && s !in keys :: edges[s] == prior[s])
    && (forall s | s in keys && s in edges :: edges[s].source + "\n" + edges[s].target == s)
  }

  lemma SeenMore(g: Graph, visited: set<Id>, x: Id, s: string)
    ensures Seen(g, visited + {x}, s) <==> Seen(g, visited, s) || Name(g, x) == s
  {
  }

  lemma ClosureGrows(g: Graph, visited: set<Id>, x: Id, closure: set<string>)
    requires ClosureOf(g, visited, closure)
    ensures ClosureOf(g, visited + {x}, closure + {Name(g, x)})
  {
    forall s ensures s in closure + {Name(g, x)} <==> Seen(g, visited + {x}, s) {
      SeenMore(g, visited, x, s);
    }
  }

  function Recorded(packages: map<string, Component>, s: string, p: Package, target: string): map<string, Component> {
    var current := if s in packages then packages[s] else Component(p, {});
    packages[s := current.(targets := current.targets + {target})]
  }

  lemma PackagesGrow(g: Graph, visited: set<Id>, prior: map<string, Component>, target: string,
    packages: map<string, Component>, x: Id)
    requires PackagesOf(g, visited, prior, target, packages) && Known(g, x)
    requires Name(g, x) in packages ==> SameRelease(packages[Name(g, x)].package, g.packages[x])
    ensures PackagesOf(g, visited + {x}, prior, target, Recorded(packages, Name(g, x), g.packages[x], target))
  {
    hide PackagesAre, PackagesAgree, TargetsAre, Name, SameRelease, Recorded;
    PackagesAreMore(g, visited, prior, target, packages, x);
    PackagesStillAgree(g, visited, target, packages, x);
    TargetsAreMore(g, visited, prior, target, packages, x);
  }

  lemma PackagesAreMore(g: Graph, visited: set<Id>, prior: map<string, Component>, target: string,
    packages: map<string, Component>, x: Id)
    requires PackagesAre(g, visited, prior, packages) && Known(g, x)
    ensures PackagesAre(g, visited + {x}, prior, Recorded(packages, Name(g, x), g.packages[x], target))
  {
    hide Name, Seen;
    KnownIsListed(g, x);
    var more, grown := visited + {x}, Recorded(packages, Name(g, x), g.packages[x], target);
    forall r ensures Seen(g, more, r) <==> Seen(g, visited, r) || Name(g, x) == r {
      SeenMore(g, visited, x, r);
    }
    forall r | r in grown && r !in prior ensures From(g, more, r, grown[r].package) {
      if r in packages {
        assert From(g, visited, r, packages[r].package);
      }
    }
  }

  lemma PackagesStillAgree(g: Graph, visited: set<Id>, target: string, packages: map<string, Component>, x: Id)
    requires PackagesAgree(g, visited, packages) && Known(g, x)
    requires Name(g, x) in packages ==> SameRelease(packages[Name(g, x)].package, g.packages[x])
    ensures PackagesAgree(g, visited + {x}, Recorded(packages, Name(g, x), g.packages[x], target))
  {
    hide Name, SameRelease;
    KnownIsListed(g, x);
    SameReleaseReflexive(g.packages[x]);
  }

  lemma TargetsAreMore(g: Graph, visited: set<Id>, prior: map<string, Component>, target: string,
    packages: map<string, Component>, x: Id)
    requires PackagesAre(g, visited, prior, packages) && TargetsAre(g, visited, prior, target, packages) && Known(g, x)
    ensures TargetsAre(g, visited + {x}, prior, target, Recorded(packages, Name(g, x), g.packages[x], target))
  {
    hide Name, Seen, From;
    KnownIsListed(g, x);
    forall r ensures Seen(g, visited + {x}, r) <==> Seen(g, visited, r) || Name(g, x) == r {
      SeenMore(g, visited, x, r);
    }
  }

  lemma KnownIsListed(g: Graph, x: Id)
    requires Known(g, x)
    ensures x in g.packages && x in g.nodes && Identity(g.packages[x]) == Some(Name(g, x))
  {
  }

  lemma SameReleaseReflexive(p: Package)
    ensures SameRelease(p, p)
  {
  }

  // A clash is with a package of another target, or with one reached before.
  lemma ClashIsReal(g: Graph, root: Id, visited: set<Id>, prior: map<string, Component>, target: string,
    packages: map<string, Component>, x: Id)
    requires PackagesOf(g, visited, prior, target, packages) && Known(g, x) && Reachable(g, root, x)
    requires forall y | y in visited :: Reachable(g, root, y)
    requires Name(g, x) in packages && !SameRelease(packages[Name(g, x)].package, g.packages[x])
    ensures !Collectable(g, root, prior) && Explains(g, root, prior, InconsistentPackage)
  {
    hide Reachable, Identity, TargetsAre;
    var s := Name(g, x);
    if s !in prior {
      assert From(g, visited, s, packages[s].package);
      var y :| y in visited && y in g.packages && Name(g, y) == s && g.packages[y] == packages[s].package;
      assert Reachable(g, root, y);
    }
  }

  // ----- the dependencies of one node

  function NormalDeps(deps: seq<Dependency>): seq<Id> {
    if deps == [] then []
    else
      var front := NormalDeps(deps[..|deps| - 1]);
      if Normal(deps[|deps| - 1]) then front + [deps[|deps| - 1].pkg] else front
  }

  lemma {:induction false} NormalDepsAreEdges(deps: seq<Dependency>, b: Id)
    ensures b in NormalDeps(deps) <==> exists i | 0 <= i < |deps| :: Normal(deps[i]) && deps[i].pkg == b
  {
    hide Normal;
    if deps != [] {
      var front, last := deps[..|deps| - 1], deps[|deps| - 1];
      NormalDepsAreEdges(front, b);
      if exists i | 0 <= i < |deps| :: Normal(deps[i]) && deps[i].pkg == b {
        var i :| 0 <= i < |deps| && Normal(deps[i]) && deps[i].pkg == b;
        assert i < |front| ==> front[i] == deps[i];
      }
      if b in NormalDeps(front) {
        var i :| 0 <= i < |front| && Normal(front[i]) && front[i].pkg == b;
        assert deps[i] == front[i];
      }
    }
  }

  datatype Pushed = Pushed(stack: seq<Id>, keys: set<string>, edges: map<string, Edge>)

  // What a failure says of the package it is about.
  ghost predicate Lacks(g: Graph, b: Id, e: Failure) {
    match e
    case UnknownPackage => b !in g.packages || b !in g.nodes
    case UnknownDependency => b !in g.packages
    case UnnamedSource => b in g.packages && Identity(g.packages[b]).None?
    case _ => false
  }

  method PushDependencies(g: Graph, current: Id, stack: seq<Id>, keys: set<string>, edges: map<string, Edge>,
    ghost prior: map<string, Edge>) returns (r: Result<Pushed, Failure>)
    requires Known(g, current) && RecordsOf(prior, keys, edges)
    ensures r.Ok? ==>
      var deps := NormalDeps(g.nodes[current].deps);
      && r.value.stack == stack + deps
      && r.value.keys == keys + (set b | b in deps :: EdgeKey(g, current, b))
      && RecordsOf(prior, r.value.keys, r.value.edges)
    ensures r.Err? ==> exists b :: HasEdge(g, current, b) && Lacks(g, b, r.error)
  {
    hide Normal, Identity, RecordsOf, EdgeKey, HasEdge;
    KnownIsListed(g, current);
    var identity := Identity(g.packages[current]).value;
    var deps := g.nodes[current].deps;
    var pushed := Pushed(stack, keys, edges);
    for i := 0 to |deps|
      invariant pushed.stack == stack + NormalDeps(deps[..i])
      invariant pushed.keys == keys + (set b | b in NormalDeps(deps[..i]) :: EdgeKey(g, current, b))
      invariant RecordsOf(prior, pushed.keys, pushed.edges)
    {
      assert deps[..i + 1][..i] == deps[..i];
      if !Normal(deps[i]) {
        continue;
      }
      var dependency := deps[i].pkg;
      DependencyIsEdge(g, current, i);
      if dependency !in g.packages {
        return Err(UnknownDependency);
      }
      var dependencyIdentity := Identity(g.packages[dependency]);
      if dependencyIdentity.None? {
        return Err(UnnamedSource);
      }
      var key := identity + "\n" + dependencyIdentity.value;
      KeyOfEdge(g, current, dependency);
      RecordMore(prior, pushed.keys, pushed.edges, Edge(identity, dependencyIdentity.value));
      pushed := Pushed(pushed.stack + [dependency], pushed.keys + {key},
        pushed.edges[key := Edge(identity, dependencyIdentity.value)]);
    }
    assert deps[..|deps|] == deps;
    r := Ok(pushed);
  }

  lemma DependencyIsEdge(g: Graph, a: Id, i: nat)
    requires a in g.nodes && i < |g.nodes[a].deps| && Normal(g.nodes[a].deps[i])
    ensures HasEdge(g, a, g.nodes[a].deps[i].pkg)
  {
  }

  lemma KeyOfEdge(g: Graph, a: Id, b: Id)
    requires a in g.packages && b in g.packages && Identity(g.packages[a]).Some? && Identity(g.packages[b]).Some?
    ensures EdgeKey(g, a, b) == Identity(g.packages[a]).value + "\n" + Identity(g.packages[b]).value
  {
  }

  lemma RecordMore(prior: map<string, Edge>, keys: set<string>, edges: map<string, Edge>, e: Edge)
    requires RecordsOf(prior, keys, edges)
    ensures var key := e.source + "\n" + e.target; RecordsOf(prior, keys + {key}, edges[key := e])
  {
  }

  // ----- one step of the worklist

  lemma EdgesGrow(g: Graph, visited: set<Id>, keys: set<string>, x: Id)
    requires EdgesOf(g, visited, keys) && x in g.nodes
    ensures EdgesOf(g, visited + {x}, keys + (set b | b in NormalDeps(g.nodes[x].deps) :: EdgeKey(g, x, b)))
  {
    hide EdgeKey, Normal;
    var deps := NormalDeps(g.nodes[x].deps);
    forall b ensures b in deps <==> HasEdge(g, x, b) {
      NormalDepsAreEdges(g.nodes[x].deps, b);
    }
    EdgesGrowBy(g, visited, keys, x, deps);
  }

  lemma EdgesGrowBy(g: Graph, visited: set<Id>, keys: set<string>, x: Id, deps: seq<Id>)
    requires EdgesOf(g, visited, keys) && forall b :: b in deps <==> HasEdge(g, x, b)
    ensures EdgesOf(g, visited + {x}, keys + (set b | b in deps :: EdgeKey(g, x, b)))
  {
    hide EdgeKey, HasEdge;
    var more := keys + (set b | b in deps :: EdgeKey(g, x, b));
    forall s ensures s in more <==> exists a, b :: a in visited + {x} && HasEdge(g, a, b) && EdgeKey(g, a, b) == s {
      if s in more && s !in keys {
        var b :| b in deps && EdgeKey(g, x, b) == s;
        assert HasEdge(g, x, b);
      }
    }
  }

  lemma Skipped(g: Graph, root: Id, visited: set<Id>, stack: seq<Id>)
    requires Explored(g, root, visited, stack) && stack != [] && stack[|stack| - 1] in visited
    ensures Explored(g, root, visited, stack[..|stack| - 1])
  {
    hide HasEdge, Reachable, Known;
    assert stack == stack[..|stack| - 1] + [stack[|stack| - 1]];
  }

  lemma Visited(g: Graph, root: Id, visited: set<Id>, stack: seq<Id>)
    requires Explored(g, root, visited, stack) && stack != [] && Known(g, stack[|stack| - 1])
    ensures var x := stack[|stack| - 1];
      Explored(g, root, visited + {x}, stack[..|stack| - 1] + NormalDeps(g.nodes[x].deps))
  {
    hide HasEdge, Reachable, Known, NormalDeps;
    var x := stack[|stack| - 1];
    KnownIsListed(g, x);
    var deps := NormalDeps(g.nodes[x].deps);
    assert stack == stack[..|stack| - 1] + [x];
    forall b ensures b in deps <==> HasEdge(g, x, b) {
      DepsAreEdges(g, x, b);
    }
    forall b | b in deps ensures Reachable(g, root, b) {
      ReachesOn(g, root, x, b);
    }
  }

  lemma DepsAreEdges(g: Graph, x: Id, b: Id)
    requires x in g.nodes
    ensures b in NormalDeps(g.nodes[x].deps) <==> HasEdge(g, x, b)
  {
    NormalDepsAreEdges(g.nodes[x].deps, b);
  }

  lemma NotCollectable(g: Graph, root: Id, prior: map<string, Component>, x: Id)
    requires Reachable(g, root, x) && !Known(g, x)
    ensures !Collectable(g, root, prior)
  {
    hide Reachable, Known;
  }

  // With nothing left to visit, what was visited is what is reachable.
  lemma AllVisited(g: Graph, root: Id, visited: set<Id>)
    requires Explored(g, root, visited, [])
    ensures forall x :: x in visited <==> Reachable(g, root, x)
  {
    hide Known;
    ClosedHoldsReachable(g, visited, root);
  }

  lemma AgreeIsCollectable(g: Graph, root: Id, visited: set<Id>, prior: map<string, Component>, target: string,
    packages: map<string, Component>)
    requires forall x :: x in visited <==> Reachable(g, root, x)
    requires (forall x | x in visited :: Known(g, x)) && PackagesOf(g, visited, prior, target, packages)
    ensures Collectable(g, root, prior)
  {
    hide Reachable, Known, Name, TargetsAre, From, Seen;
  }

  // What one target adds to the packages: its closure, each with the target named.
  ghost predicate Merged(prior: map<string, Component>, closure: set<string>, target: string,
    packages: map<string, Component>)
  {
    && packages.Keys == prior.Keys + closure
    && (forall s | s in prior && s in packages :: packages[s].package == prior[s].package)
    && (forall s | s in packages ::
          packages[s].targets == (if s in prior then prior[s].targets else {}) + (if s in closure then {target} else {}))
  }

  lemma Merges(g: Graph, visited: set<Id>, prior: map<string, Component>, closure: set<string>, target: string,
    packages: map<string, Component>)
    requires PackagesOf(g, visited, prior, target, packages) && ClosureOf(g, visited, closure)
    ensures Merged(prior, closure, target, packages)
  {
    hide Seen, From;
  }

  function GraphOf(metadata: Metadata): Graph {
    Graph(ById(metadata.packages), NodesById(metadata.nodes))
  }

  // The target has one root with a node, and its closure can be collected.
  ghost predicate Sound(metadata: Metadata, rootName: string, prior: map<string, Component>) {
    var roots := Roots(metadata.packages, rootName);
    |roots| == 1 && roots[0].id in NodesById(metadata.nodes) && Collectable(GraphOf(metadata), roots[0].id, prior)
  }

  datatype Collected = Collected(
    packages: map<string, Component>, edges: map<string, Edge>, closure: set<string>, targetEdges: set<string>)

  // The outcome for one target: exactly the identities reachable from the root by normal
  // dependencies, and exactly the normal edges that leave them.
  ghost predicate CollectedFor(metadata: Metadata, rootName: string, target: string, prior: map<string, Component>,
    priorEdges: map<string, Edge>, r: Collected)
  {
    var roots := Roots(metadata.packages, rootName);
    |roots| == 1 && CollectedFrom(GraphOf(metadata), roots[0].id, target, prior, priorEdges, r)
  }

  ghost predicate CollectedFrom(g: Graph, root: Id, target: string, prior: map<string, Component>,
    priorEdges: map<string, Edge>, r: Collected)
  {
    && IsClosure(g, root, r.closure)
    && AreEdges(g, root, r.targetEdges)
    && Merged(prior, r.closure, target, r.packages)
    && RecordsOf(priorEdges, r.targetEdges, r.edges)
    && Represented(g, root, prior, r.packages)
  }

  // Every package recorded is one that was reached, and stands for all of its identity.
  ghost predicate Represented(g: Graph, root: Id, prior: map<string, Component>, packages: map<string, Component>) {
    && (forall x | Reachable(g, root, x) :: x in g.packages && Name(g, x) in packages
          && SameRelease(packages[Name(g, x)].package, g.packages[x]))
    && (forall s | s in packages && s !in prior :: Represents(g, root, s, packages[s].package))
  }

  ghost predicate Represents(g: Graph, root: Id, s: string, p: Package) {
    exists x :: Reachable(g, root, x) && x in g.packages && Name(g, x) == s && g.packages[x] == p
  }

  ghost predicate ExplainsFor(metadata: Metadata, rootName: string, prior: map<string, Component>, e: Failure) {
    var roots := Roots(metadata.packages, rootName);
    if e == AmbiguousRoot then |roots| != 1
    else
      && |roots| == 1
      && if e == NoRootNode then roots[0].id !in NodesById(metadata.nodes)
        else Explains(GraphOf(metadata), roots[0].id, prior, e)
  }

  // The body of the loop of `collectRuntimeGraph`, for one target.
  method CollectTarget(metadata: Metadata, rootName: string, target: string, prior: map<string, Component>,
    priorEdges: map<string, Edge>) returns (r: Result<Collected, Failure>)
    ensures r.Ok? <==> Sound(metadata, rootName, prior)
    ensures r.Ok? ==> CollectedFor(metadata, rootName, target, prior, priorEdges, r.value)
    ensures r.Err? ==> ExplainsFor(metadata, rootName, prior, r.error)
  {
    hide Collectable, CollectedFrom, Roots, ById, NodesById, Explains;
    var g := GraphOf(metadata);
    var roots := Roots(metadata.packages, rootName);
    if |roots| != 1 {
      return Err(AmbiguousRoot);
    }
    if roots[0].id !in g.nodes {
      return Err(NoRootNode);
    }
    r := Explore(g, roots[0].id, target, prior, priorEdges);
    if r.Err? {
      NotTheRoot(g, roots[0].id, prior, r.error);
    }
  }

  method Explore(g: Graph, root: Id, target: string, prior: map<string, Component>, priorEdges: map<string, Edge>)
    returns (r: Result<Collected, Failure>)
    ensures r.Ok? <==> Collectable(g, root, prior)
    ensures r.Ok? ==> CollectedFrom(g, root, target, prior, priorEdges, r.value)
    ensures r.Err? ==> Explains(g, root, prior, r.error)
  {
    hide Collectable, Explains, IsClosure, AreEdges, Merged, Represented, RecordsOf, Explored, ClosureOf, EdgesOf, PackagesOf, Known,
      Name, NormalDeps, EdgeKey, Identity, SameRelease, Recorded, Reachable, HasEdge;
    var stack, visited, closure, targetEdges := [root], {}, {}, {};
    var packages, edges := prior, priorEdges;
    Starts(g, root, prior, target, priorEdges);
    while stack != []
      invariant Explored(g, root, visited, stack) && ClosureOf(g, visited, closure)
      invariant EdgesOf(g, visited, targetEdges) && RecordsOf(priorEdges, targetEdges, edges)
      invariant PackagesOf(g, visited, prior, target, packages)
      decreases g.packages.Keys - visited, |stack|
    {
      var id := stack[|stack| - 1];
      var rest := stack[..|stack| - 1];
      if id in visited {
        Skipped(g, root, visited, stack);
        stack := rest;
        continue;
      }
      OnStack(g, root, visited, stack, id);
      if id !in g.packages || id !in g.nodes {
        LackExplains(g, root, prior, id, UnknownPackage);
        return Err(UnknownPackage);
      }
      if Identity(g.packages[id]).None? {
        LackExplains(g, root, prior, id, UnnamedSource);
        return Err(UnnamedSource);
      }
      NowKnown(g, id);
      var identity := Identity(g.packages[id]).value;
      if identity in packages && !SameRelease(packages[identity].package, g.packages[id]) {
        ClashIsReal(g, root, visited, prior, target, packages, id);
        return Err(InconsistentPackage);
      }
      var pushed := PushDependencies(g, id, rest, targetEdges, edges, priorEdges);
      if pushed.Err? {
        DependencyMissing(g, root, id, prior, pushed.error);
        return Err(pushed.error);
      }
      Visited(g, root, visited, stack);
      ClosureGrows(g, visited, id, closure);
      EdgesGrow(g, visited, targetEdges, id);
      PackagesGrow(g, visited, prior, target, packages, id);
      packages := Recorded(packages, identity, g.packages[id], target);
      closure := closure + {identity};
      visited := visited + {id};
      stack, targetEdges, edges := pushed.value.stack, pushed.value.keys, pushed.value.edges;
    }
    Ends(g, root, visited, prior, target, packages, closure, targetEdges);
    r := Ok(Collected(packages, edges, closure, targetEdges));
  }

  lemma Starts(g: Graph, root: Id, prior: map<string, Component>, target: string, priorEdges: map<string, Edge>)
    ensures Explored(g, root, {}, [root]) && ClosureOf(g, {}, {}) && EdgesOf(g, {}, {})
    ensures PackagesOf(g, {}, prior, target, prior) && RecordsOf(priorEdges, {}, priorEdges)
  {
    hide Reachable, HasEdge;
    RootReachable(g, root);
  }

  lemma OnStack(g: Graph, root: Id, visited: set<Id>, stack: seq<Id>, id: Id)
    requires Explored(g, root, visited, stack) && id in stack
    ensures Reachable(g, root, id) && forall y | y in visited :: Reachable(g, root, y)
  {
  }

  // A failure names something that is wrong with what is reachable.
  ghost predicate Explains(g: Graph, root: Id, prior: map<string, Component>, e: Failure) {
    if e == InconsistentPackage then Clash(g, root, prior) else exists x :: Reachable(g, root, x) && Lacks(g, x, e)
  }

  // Two releases under one identity.
  ghost predicate Clash(g: Graph, root: Id, prior: map<string, Component>) {
    || (exists x :: Reachable(g, root, x) && x in g.packages && Name(g, x) in prior
          && !SameRelease(prior[Name(g, x)].package, g.packages[x]))
    || (exists x, y :: Reachable(g, root, x) && Reachable(g, root, y) && x in g.packages && y in g.packages
          && Name(g, x) == Name(g, y) && !SameRelease(g.packages[x], g.packages[y]))
  }

  lemma NotTheRoot(g: Graph, root: Id, prior: map<string, Component>, e: Failure)
    requires Explains(g, root, prior, e)
    ensures e != AmbiguousRoot && e != NoRootNode
  {
    hide Reachable;
  }

  lemma LackExplains(g: Graph, root: Id, prior: map<string, Component>, x: Id, e: Failure)
    requires Reachable(g, root, x) && Lacks(g, x, e)
    ensures Explains(g, root, prior, e) && !Collectable(g, root, prior)
  {
    hide Reachable, Collectable;
    NotCollectable(g, root, prior, x);
  }

  lemma NowKnown(g: Graph, x: Id)
    requires x in g.packages && x in g.nodes && Identity(g.packages[x]).Some?
    ensures Known(g, x) && Name(g, x) == Identity(g.packages[x]).value
  {
  }

  lemma DependencyMissing(g: Graph, root: Id, x: Id, prior: map<string, Component>, e: Failure)
    requires Reachable(g, root, x) && exists b :: HasEdge(g, x, b) && Lacks(g, b, e)
    ensures Explains(g, root, prior, e) && !Collectable(g, root, prior)
  {
    hide HasEdge, Reachable, Collectable, Lacks, Explains;
    var b :| HasEdge(g, x, b) && Lacks(g, b, e);
    ReachesOn(g, root, x, b);
    LackExplains(g, root, prior, b, e);
  }

  lemma Ends(g: Graph, root: Id, visited: set<Id>, prior: map<string, Component>, target: string,
    packages: map<string, Component>, closure: set<string>, keys: set<string>)
    requires Explored(g, root, visited, []) && ClosureOf(g, visited, closure) && EdgesOf(g, visited, keys)
    requires PackagesOf(g, visited, prior, target, packages)
    ensures Collectable(g, root, prior) && IsClosure(g, root, closure) && AreEdges(g, root, keys)
    ensures Merged(prior, closure, target, packages) && Represented(g, root, prior, packages)
  {
    hide PackagesOf, Collectable, Merged, Represented, Reachable, HasEdge, Known, EdgeKey, Name;
    AllVisited(g, root, visited);
    VisitedRepresent(g, root, visited, prior, target, packages);
    AgreeIsCollectable(g, root, visited, prior, target, packages);
    Merges(g, visited, prior, closure, target, packages);
    SeenIsReachable(g, root, visited, closure);
  }

  lemma VisitedRepresent(g: Graph, root: Id, visited: set<Id>, prior: map<string, Component>, target: string,
    packages: map<string, Component>)
    requires PackagesOf(g, visited, prior, target, packages) && forall x :: x in visited <==> Reachable(g, root, x)
    ensures Represented(g, root, prior, packages)
  {
    hide Reachable, Name, SameRelease, TargetsAre, Seen;
    forall s | s in packages && s !in prior ensures Represents(g, root, s, packages[s].package) {
      assert From(g, visited, s, packages[s].package);
    }
  }

  lemma SeenIsReachable(g: Graph, root: Id, visited: set<Id>, closure: set<string>)
    requires ClosureOf(g, visited, closure) && forall x :: x in visited <==> Reachable(g, root, x)
    ensures IsClosure(g, root, closure)
  {
    hide Reachable, Name;
    forall s ensures s in closure <==> exists x :: Reachable(g, root, x) && Name(g, x) == s {
      assert s in closure <==> Seen(g, visited, s);
    }
  }

  // ----- all targets

  datatype Target = Target(name: string, metadata: Metadata)

  function RootOf(t: Target, rootName: string): Option<Id> {
    var roots := Roots(t.metadata.packages, rootName);
    if |roots| == 1 && roots[0].id in NodesById(t.metadata.nodes) then Some(roots[0].id) else None
  }

  ghost predicate Reaches(t: Target, rootName: string, x: Id) {
    RootOf(t, rootName).Some? && Reachable(GraphOf(t.metadata), RootOf(t, rootName).value, x)
  }

  // Every target has its root, knows all it reaches, and identities mean one release everywhere.
  ghost predicate AllSound(targets: seq<Target>, rootName: string) {
    && (forall i | 0 <= i < |targets| :: RootOf(targets[i], rootName).Some?)
    && (forall i, x | 0 <= i < |targets| && Reaches(targets[i], rootName, x) :: Known(GraphOf(targets[i].metadata), x))
    && (forall i, j, x, y | 0 <= i < |targets| && 0 <= j < |targets| && Reaches(targets[i], rootName, x)
          && Reaches(targets[j], rootName, y) :: Compatible(targets[i], x, targets[j], y))
  }

  ghost predicate Compatible(t: Target, x: Id, u: Target, y: Id) {
    var (g, h) := (GraphOf(t.metadata), GraphOf(u.metadata));
    x in g.packages && y in h.packages && Name(g, x) == Name(h, y) ==> SameRelease(g.packages[x], h.packages[y])
  }

  // The packages recorded so far stand for all that earlier targets reach, and for nothing else.
  ghost predicate Registry(targets: seq<Target>, rootName: string, packages: map<string, Component>) {
    && (forall i, x | 0 <= i < |targets| && Reaches(targets[i], rootName, x) :: Registered(targets[i], x, packages))
    && (forall s | s in packages :: RegisteredBy(targets, rootName, s, packages[s].package))
  }

  ghost predicate Registered(t: Target, x: Id, packages: map<string, Component>) {
    var g := GraphOf(t.metadata);
    x in g.packages && Name(g, x) in packages && SameRelease(packages[Name(g, x)].package, g.packages[x])
  }

  ghost predicate RegisteredBy(targets: seq<Target>, rootName: string, s: string, p: Package) {
    exists i, x :: 0 <= i < |targets| && Reaches(targets[i], rootName, x)
      && x in GraphOf(targets[i].metadata).packages && Name(GraphOf(targets[i].metadata), x) == s
      && GraphOf(targets[i].metadata).packages[x] == p
  }

  lemma RootIsFound(t: Target, rootName: string, prior: map<string, Component>)
    ensures Sound(t.metadata, rootName, prior) <==>
      RootOf(t, rootName).Some? && Collectable(GraphOf(t.metadata), RootOf(t, rootName).value, prior)
  {
    hide Collectable, Roots, NodesById, GraphOf;
  }

  // One more target is sound with the others exactly when it can be collected after them.
  lemma SoundAlone(ts: seq<Target>, t: Target, rootName: string, packages: map<string, Component>)
    requires AllSound(ts + [t], rootName) && Registry(ts, rootName, packages)
    ensures Sound(t.metadata, rootName, packages) && AllSound(ts, rootName)
  {
    hide Reaches, Known, Compatible, RootOf, Registered, RegisteredBy, Collectable, Sound;
    var all := ts + [t];
    assert all[|ts|] == t;
    forall i | 0 <= i < |ts| ensures all[i] == ts[i] {
    }
    SoundAfter(ts, t, rootName, packages);
    RootIsFound(t, rootName, packages);
  }

  lemma SoundAfter(ts: seq<Target>, t: Target, rootName: string, packages: map<string, Component>)
    requires AllSound(ts + [t], rootName) && Registry(ts, rootName, packages)
    ensures RootOf(t, rootName).Some? && Collectable(GraphOf(t.metadata), RootOf(t, rootName).value, packages)
  {
    hide Reachable, Known, RootOf, Registered, RegisteredBy, Name, SameRelease, GraphOf;
    var all, g := ts + [t], GraphOf(t.metadata);
    assert all[|ts|] == t;
    var root := RootOf(t, rootName).value;
    forall x | Reachable(g, root, x) ensures Reaches(all[|ts|], rootName, x) && Known(g, x) {
    }
    forall x, y | Reachable(g, root, x) && Reachable(g, root, y) ensures Compatible(t, x, t, y) {
      assert Reaches(all[|ts|], rootName, x) && Reaches(all[|ts|], rootName, y);
    }
    forall x | Reachable(g, root, x) && x in g.packages && Name(g, x) in packages
      ensures SameRelease(packages[Name(g, x)].package, g.packages[x])
    {
      EarlierAgrees(ts, t, rootName, packages, x);
    }
  }

  lemma EarlierAgrees(ts: seq<Target>, t: Target, rootName: string, packages: map<string, Component>, x: Id)
    requires AllSound(ts + [t], rootName) && Registry(ts, rootName, packages) && Reaches(t, rootName, x)
    requires var g := GraphOf(t.metadata); x in g.packages && Name(g, x) in packages
    ensures SameRelease(packages[Name(GraphOf(t.metadata), x)].package, GraphOf(t.metadata).packages[x])
  {
    hide Reaches, Known, RootOf, Registered, Name, SameRelease, GraphOf;
    var all, s := ts + [t], Name(GraphOf(t.metadata), x);
    assert RegisteredBy(ts, rootName, s, packages[s].package);
    var i, y :| 0 <= i < |ts| && Reaches(ts[i], rootName, y)
      && y in GraphOf(ts[i].metadata).packages && Name(GraphOf(ts[i].metadata), y) == s
      && GraphOf(ts[i].metadata).packages[y] == packages[s].package;
    assert all[i] == ts[i] && all[|ts|] == t;
    assert Compatible(all[i], y, all[|ts|], x);
  }

  lemma SoundTogether(ts: seq<Target>, t: Target, rootName: string, packages: map<string, Component>)
    requires AllSound(ts, rootName) && Registry(ts, rootName, packages) && Sound(t.metadata, rootName, packages)
    ensures AllSound(ts + [t], rootName)
  {
    hide Known, RootOf, Registered, Name, SameRelease, GraphOf, Compatible, Reaches, Sound, RegisteredBy, Collectable;
    RootIsFound(t, rootName, packages);
    var all := ts + [t];
    forall x | Reaches(t, rootName, x) ensures Known(GraphOf(t.metadata), x) {
      CollectableKnows(t, rootName, packages, x);
    }
    forall i, j, x, y | 0 <= i < |all| && 0 <= j < |all| && Reaches(all[i], rootName, x) && Reaches(all[j], rootName, y)
      ensures Compatible(all[i], x, all[j], y)
    {
      if i < |ts| && j < |ts| {
        assert all[i] == ts[i] && all[j] == ts[j];
      } else if i < |ts| {
        assert Registered(ts[i], x, packages);
        NewAgrees(ts[i], x, t, y, rootName, packages);
      } else if j < |ts| {
        assert Registered(ts[j], y, packages);
        NewAgrees(ts[j], y, t, x, rootName, packages);
        CompatibleSymmetric(ts[j], y, t, x);
      } else {
        SameTargetAgrees(t, x, y, rootName, packages);
      }
    }
  }

  lemma CollectableKnows(t: Target, rootName: string, packages: map<string, Component>, x: Id)
    requires RootOf(t, rootName).Some? && Collectable(GraphOf(t.metadata), RootOf(t, rootName).value, packages)
    requires Reaches(t, rootName, x)
    ensures Known(GraphOf(t.metadata), x)
  {
    hide Reachable, Known, RootOf, GraphOf;
  }

  lemma NewAgrees(t: Target, x: Id, u: Target, y: Id, rootName: string, packages: map<string, Component>)
    requires Registered(t, x, packages) && Reaches(u, rootName, y)
    requires RootOf(u, rootName).Some? && Collectable(GraphOf(u.metadata), RootOf(u, rootName).value, packages)
    ensures Compatible(t, x, u, y)
  {
    hide Reachable, RootOf, GraphOf, Name, Known;
  }

  lemma CompatibleSymmetric(t: Target, x: Id, u: Target, y: Id)
    requires Compatible(t, x, u, y)
    ensures Compatible(u, y, t, x)
  {
  }

  lemma SameTargetAgrees(t: Target, x: Id, y: Id, rootName: string, packages: map<string, Component>)
    requires RootOf(t, rootName).Some? && Collectable(GraphOf(t.metadata), RootOf(t, rootName).value, packages)
    requires Reaches(t, rootName, x) && Reaches(t, rootName, y)
    ensures Compatible(t, x, t, y)
  {
    hide Reachable, RootOf, GraphOf, Name, Known;
  }

  lemma RegistryGrows(ts: seq<Target>, t: Target, rootName: string, packages: map<string, Component>,
    priorEdges: map<string, Edge>, r: Collected)
    requires Registry(ts, rootName, packages) && Sound(t.metadata, rootName, packages)
    requires CollectedFor(t.metadata, rootName, t.name, packages, priorEdges, r)
    ensures Registry(ts + [t], rootName, r.packages)
  {
    hide Reachable, Name, SameRelease, GraphOf, Collectable, IsClosure, AreEdges, RecordsOf, Known, Roots, NodesById;
    RootIsFound(t, rootName, packages);
    var all, g := ts + [t], GraphOf(t.metadata);
    assert all[|ts|] == t;
    forall i, x | 0 <= i < |all| && Reaches(all[i], rootName, x) ensures Registered(all[i], x, r.packages) {
      if i < |ts| {
        assert all[i] == ts[i] && Registered(ts[i], x, packages);
      }
    }
    forall s | s in r.packages ensures RegisteredBy(all, rootName, s, r.packages[s].package) {
      if s in packages {
        assert RegisteredBy(ts, rootName, s, packages[s].package);
        RegisteredStill(ts, t, rootName, s, packages[s].package);
      } else {
        assert Represents(g, RootOf(t, rootName).value, s, r.packages[s].package);
        var x :| Reachable(g, RootOf(t, rootName).value, x) && x in g.packages && Name(g, x) == s
          && g.packages[x] == r.packages[s].package;
        assert Reaches(all[|ts|], rootName, x);
      }
    }
  }

  lemma RegisteredStill(ts: seq<Target>, t: Target, rootName: string, s: string, p: Package)
    requires RegisteredBy(ts, rootName, s, p)
    ensures RegisteredBy(ts + [t], rootName, s, p)
  {
    hide Reaches, GraphOf, Name;
    var i, x :| 0 <= i < |ts| && Reaches(ts[i], rootName, x)
      && x in GraphOf(ts[i].metadata).packages && Name(GraphOf(ts[i].metadata), x) == s
      && GraphOf(ts[i].metadata).packages[x] == p;
    assert (ts + [t])[i] == ts[i];
  }

  lemma PrefixSound(targets: seq<Target>, rootName: string, i: nat)
    requires i <= |targets| && AllSound(targets, rootName)
    ensures AllSound(targets[..i], rootName)
  {
    hide Reaches, Known, Compatible, RootOf, GraphOf;
    forall k | 0 <= k < i ensures targets[..i][k] == targets[k] {
    }
  }

  datatype RuntimeGraph = RuntimeGraph(
    packages: map<string, Component>, edges: map<string, Edge>, closures: seq<set<string>>, targetEdges: seq<set<string>>)

  // Every package is listed with exactly the targets whose closure has it, and every edge is one
  // of some target.
  ghost predicate Complete(targets: seq<Target>, rootName: string, r: RuntimeGraph) {
    && |r.closures| == |r.targetEdges| == |targets|
    && ClosuresAre(targets, rootName, r.closures, r.targetEdges)
    && PackagesListed(targets, r.closures, r.packages)
    && EdgesListed(r.targetEdges, r.edges)
  }

  ghost predicate ClosuresAre(targets: seq<Target>, rootName: string, closures: seq<set<string>>, edges: seq<set<string>>)
    requires |closures| == |edges| == |targets|
  {
    forall i | 0 <= i < |targets| :: RootOf(targets[i], rootName).Some?
      && IsClosure(GraphOf(targets[i].metadata), RootOf(targets[i], rootName).value, closures[i])
      && AreEdges(GraphOf(targets[i].metadata), RootOf(targets[i], rootName).value, edges[i])
  }

  ghost predicate PackagesListed(targets: seq<Target>, closures: seq<set<string>>, packages: map<string, Component>)
    requires |closures| == |targets|
  {
    && (forall s :: s in packages <==> InSome(closures, s))
    && (forall s, name | s in packages :: name in packages[s].targets <==> ListedFor(targets, closures, s, name))
  }

  ghost predicate EdgesListed(targetEdges: seq<set<string>>, edges: map<string, Edge>) {
    && (forall s :: s in edges <==> InSome(targetEdges, s))
    && (forall s | s in edges :: edges[s].source + "\n" + edges[s].target == s)
  }

  ghost predicate InSome(sets: seq<set<string>>, s: string) {
    exists i :: 0 <= i < |sets| && s in sets[i]
  }

  ghost predicate ListedFor(targets: seq<Target>, closures: seq<set<string>>, s: string, name: string)
    requires |closures| == |targets|
  {
    exists i | 0 <= i < |targets| :: s in closures[i] && targets[i].name == name
  }

  // The failure is that of the first target that is not sound after those before it.
  ghost predicate FailsAt(targets: seq<Target>, rootName: string, e: Failure) {
    exists i: nat, packages :: i < |targets| && AllSound(targets[..i], rootName)
      && Registry(targets[..i], rootName, packages) && ExplainsFor(targets[i].metadata, rootName, packages, e)
  }

  method CollectRuntimeGraph(targets: seq<Target>, rootName: string) returns (r: Result<RuntimeGraph, Failure>)
    ensures r.Ok? <==> AllSound(targets, rootName)
    ensures r.Ok? ==> Complete(targets, rootName, r.value) && Registry(targets, rootName, r.value.packages)
    ensures r.Err? ==> FailsAt(targets, rootName, r.error)
  {
    hide ExplainsFor, AllSound, Complete, Registry, Sound, CollectedFor;
    var result := RuntimeGraph(map[], map[], [], []);
    NothingYet(rootName);
    for i := 0 to |targets|
      invariant AllSound(targets[..i], rootName) && Registry(targets[..i], rootName, result.packages)
      invariant Complete(targets[..i], rootName, result)
    {
      var t := targets[i];
      assert targets[..i + 1] == targets[..i] + [t];
      var collected := CollectTarget(t.metadata, rootName, t.name, result.packages, result.edges);
      if collected.Err? {
        if AllSound(targets, rootName) {
          PrefixSound(targets, rootName, i + 1);
          SoundAlone(targets[..i], t, rootName, result.packages);
        }
        return Err(collected.error);
      }
      SoundTogether(targets[..i], t, rootName, result.packages);
      RegistryGrows(targets[..i], t, rootName, result.packages, result.edges, collected.value);
      CompleteGrows(targets[..i], t, rootName, result, collected.value);
      result := RuntimeGraph(collected.value.packages, collected.value.edges,
        result.closures + [collected.value.closure], result.targetEdges + [collected.value.targetEdges]);
    }
    assert targets[..|targets|] == targets;
    r := Ok(result);
  }

  lemma NothingYet(rootName: string)
    ensures AllSound([], rootName) && Registry([], rootName, map[])
    ensures Complete([], rootName, RuntimeGraph(map[], map[], [], []))
  {
  }

  lemma CompleteGrows(ts: seq<Target>, t: Target, rootName: string, was: RuntimeGraph, r: Collected)
    requires Complete(ts, rootName, was) && Sound(t.metadata, rootName, was.packages)
    requires CollectedFor(t.metadata, rootName, t.name, was.packages, was.edges, r)
    ensures Complete(ts + [t], rootName,
      RuntimeGraph(r.packages, r.edges, was.closures + [r.closure], was.targetEdges + [r.targetEdges]))
  {
    hide ClosuresAre, PackagesListed, EdgesListed, Merged, RecordsOf, Represented, Collectable, IsClosure, AreEdges,
      GraphOf, Sound;
    RootIsFound(t, rootName, was.packages);
    ClosuresGrow(ts, t, rootName, was, r);
    PackagesListedMore(ts, t, was, r);
    EdgesListedMore(was, r);
  }

  lemma ClosuresGrow(ts: seq<Target>, t: Target, rootName: string, was: RuntimeGraph, r: Collected)
    requires |was.closures| == |was.targetEdges| == |ts| && RootOf(t, rootName).Some?
    requires ClosuresAre(ts, rootName, was.closures, was.targetEdges)
    requires IsClosure(GraphOf(t.metadata), RootOf(t, rootName).value, r.closure)
    requires AreEdges(GraphOf(t.metadata), RootOf(t, rootName).value, r.targetEdges)
    ensures ClosuresAre(ts + [t], rootName, was.closures + [r.closure], was.targetEdges + [r.targetEdges])
  {
    hide IsClosure, AreEdges, RootOf, GraphOf;
  }

  lemma PackagesListedMore(ts: seq<Target>, t: Target, was: RuntimeGraph, r: Collected)
    requires |was.closures| == |ts| && PackagesListed(ts, was.closures, was.packages)
    requires Merged(was.packages, r.closure, t.name, r.packages)
    ensures PackagesListed(ts + [t], was.closures + [r.closure], r.packages)
  {
    hide ListedFor, InSome;
    forall s ensures InSome(was.closures + [r.closure], s) <==> InSome(was.closures, s) || s in r.closure {
      OneMore(was.closures, r.closure, s);
    }
    forall s, name | s in r.packages
      ensures name in r.packages[s].targets <==> ListedFor(ts + [t], was.closures + [r.closure], s, name)
    {
      ListedMore(ts, t, was.closures, r.closure, s, name);
      ListedNeedsClosure(ts, was.closures, s, name);
    }
  }

  lemma EdgesListedMore(was: RuntimeGraph, r: Collected)
    requires EdgesListed(was.targetEdges, was.edges) && RecordsOf(was.edges, r.targetEdges, r.edges)
    ensures EdgesListed(was.targetEdges + [r.targetEdges], r.edges)
  {
    hide InSome;
    forall s ensures InSome(was.targetEdges + [r.targetEdges], s) <==> InSome(was.targetEdges, s) || s in r.targetEdges {
      OneMore(was.targetEdges, r.targetEdges, s);
    }
  }

  lemma OneMore(sets: seq<set<string>>, more: set<string>, s: string)
    ensures InSome(sets + [more], s) <==> InSome(sets, s) || s in more
  {
    var all := sets + [more];
    assert all[|sets|] == more;
    if i :| 0 <= i < |sets| && s in sets[i] {
      assert s in all[i];
    }
  }

  lemma ListedMore(ts: seq<Target>, t: Target, closures: seq<set<string>>, closure: set<string>, s: string, name: string)
    requires |closures| == |ts|
    ensures ListedFor(ts + [t], closures + [closure], s, name) <==>
      ListedFor(ts, closures, s, name) || (s in closure && t.name == name)
  {
    var all, sets := ts + [t], closures + [closure];
    assert all[|ts|] == t && sets[|ts|] == closure;
    if ListedFor(ts, closures, s, name) {
      var i :| 0 <= i < |ts| && s in closures[i] && ts[i].name == name;
      assert s in sets[i] && all[i].name == name;
    }
  }

  lemma ListedNeedsClosure(ts: seq<Target>, closures: seq<set<string>>, s: string, name: string)
    requires |closures| == |ts|
    ensures ListedFor(ts, closures, s, name) ==> InSome(closures, s)
  {
  }
}
