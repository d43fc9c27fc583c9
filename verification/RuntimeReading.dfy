// The runtime closure told over the metadata as it is read: lists of packages and nodes, and
// dependency kinds.
module RuntimeReading {
  import opened Wrappers
  import opened RuntimeGraph

  // ----- the last entry of an id counts

  ghost predicate IsPackage(m: Metadata, x: Id, p: Package) {
    exists i | 0 <= i < |m.packages| ::
      m.packages[i] == p && p.id == x && forall j | i < j < |m.packages| :: m.packages[j].id != x
  }

  ghost predicate IsNode(m: Metadata, x: Id, n: Node) {
    exists i | 0 <= i < |m.nodes| :: m.nodes[i] == n && n.id == x && forall j | i < j < |m.nodes| :: m.nodes[j].id != x
  }

  lemma {:induction false} LastPackage(packages: seq<Package>, x: Id, p: Package)
    ensures x in ById(packages) && ById(packages)[x] == p <==>
      exists i | 0 <= i < |packages| ::
        packages[i] == p && p.id == x && forall j | i < j < |packages| :: packages[j].id != x
  {
    if packages != [] {
      var n := |packages| - 1;
      var front := packages[..n];
      LastPackage(front, x, p);
      if packages[n].id == x && packages[n] == p {
        assert packages[n].id == x;
      }
    }
  }

  lemma {:induction false} LastNode(nodes: seq<Node>, x: Id, m: Node)
    ensures x in NodesById(nodes) && NodesById(nodes)[x] == m <==>
      exists i | 0 <= i < |nodes| :: nodes[i] == m && m.id == x && forall j | i < j < |nodes| :: nodes[j].id != x
  {
    if nodes != [] {
      var n := |nodes| - 1;
      var front := nodes[..n];
      LastNode(front, x, m);
      if nodes[n].id == x && nodes[n] == m {
        assert nodes[n].id == x;
      }
    }
  }

  // ----- dependencies that count at run time

  // Some kind of the dependency is null.
  ghost predicate AtRunTime(d: Dependency) {
    d.kinds.Some? && exists k | 0 <= k < |d.kinds.value| :: d.kinds.value[k] == None
  }

  ghost predicate Needs(m: Metadata, a: Id, b: Id) {
    exists n: Node, i: nat :: IsNode(m, a, n) && i < |n.deps| && AtRunTime(n.deps[i]) && n.deps[i].pkg == b
  }

  lemma NeedsExactly(m: Metadata, a: Id, b: Id)
    ensures HasEdge(GraphOf(m), a, b) <==> Needs(m, a, b)
  {
    hide ById, NodesById;
    forall n: Node ensures IsNode(m, a, n) <==> a in NodesById(m.nodes) && NodesById(m.nodes)[a] == n {
      LastNode(m.nodes, a, n);
    }
    if HasEdge(GraphOf(m), a, b) {
      var n := NodesById(m.nodes)[a];
      assert IsNode(m, a, n);
    }
    if Needs(m, a, b) {
      var n: Node, i: nat :| IsNode(m, a, n) && i < |n.deps| && AtRunTime(n.deps[i]) && n.deps[i].pkg == b;
      assert Normal(n.deps[i]);
    }
  }

  // A chain of such dependencies.
  ghost predicate IsChain(m: Metadata, ids: seq<Id>) {
    ids != [] && forall i | 0 < i < |ids| :: Needs(m, ids[i - 1], ids[i])
  }

  ghost predicate Uses(m: Metadata, root: Id, x: Id) {
    exists ids :: IsChain(m, ids) && ids[0] == root && ids[|ids| - 1] == x
  }

  lemma ChainIsPath(m: Metadata, ids: seq<Id>)
    ensures IsChain(m, ids) <==> IsPath(GraphOf(m), ids)
  {
    hide HasEdge, Needs, GraphOf;
    forall a, b ensures HasEdge(GraphOf(m), a, b) <==> Needs(m, a, b) {
      NeedsExactly(m, a, b);
    }
    if IsChain(m, ids) {
      forall i | 0 <= i < |ids| - 1 ensures HasEdge(GraphOf(m), ids[i], ids[i + 1]) {
        assert Needs(m, ids[i + 1 - 1], ids[i + 1]);
      }
    }
    if IsPath(GraphOf(m), ids) {
      forall i | 0 < i < |ids| ensures Needs(m, ids[i - 1], ids[i]) {
        assert HasEdge(GraphOf(m), ids[i - 1], ids[i - 1 + 1]);
      }
    }
  }

  lemma UsesExactly(m: Metadata, root: Id, x: Id)
    ensures Reachable(GraphOf(m), root, x) <==> Uses(m, root, x)
  {
    hide IsChain, IsPath, GraphOf;
    forall ids ensures IsChain(m, ids) <==> IsPath(GraphOf(m), ids) {
      ChainIsPath(m, ids);
    }
    ChainsAreNotEmpty(m);
  }

  lemma ChainsAreNotEmpty(m: Metadata)
    ensures forall ids | IsChain(m, ids) :: ids != []
  {
  }

  // ----- names

  ghost predicate HasName(m: Metadata, x: Id, name: string) {
    exists p :: IsPackage(m, x, p) && p.source.Some? && name == "cargo|" + p.name + "|" + p.version + "|" + p.source.value
  }

  // A package with a source, and a node.
  ghost predicate Resolved(m: Metadata, x: Id) {
    (exists p :: IsPackage(m, x, p) && p.source.Some?) && exists n :: IsNode(m, x, n)
  }

  lemma PackagesExactly(m: Metadata, x: Id)
    ensures x in GraphOf(m).packages <==> exists p :: IsPackage(m, x, p)
    ensures forall p :: IsPackage(m, x, p) <==> x in GraphOf(m).packages && GraphOf(m).packages[x] == p
    ensures x in GraphOf(m).nodes <==> exists n :: IsNode(m, x, n)
  {
    hide ById, NodesById;
    forall p: Package ensures IsPackage(m, x, p) <==> x in ById(m.packages) && ById(m.packages)[x] == p {
      LastPackage(m.packages, x, p);
    }
    forall n: Node ensures IsNode(m, x, n) <==> x in NodesById(m.nodes) && NodesById(m.nodes)[x] == n {
      LastNode(m.nodes, x, n);
    }
    if x in ById(m.packages) {
      assert IsPackage(m, x, ById(m.packages)[x]);
    }
    if x in NodesById(m.nodes) {
      assert IsNode(m, x, NodesById(m.nodes)[x]);
    }
  }

  lemma ResolvedExactly(m: Metadata, x: Id)
    ensures Known(GraphOf(m), x) <==> Resolved(m, x)
    ensures Resolved(m, x) ==> forall name :: Name(GraphOf(m), x) == name <==> HasName(m, x, name)
  {
    hide IsPackage, IsNode, GraphOf;
    PackagesExactly(m, x);
    if Known(GraphOf(m), x) {
      assert IsPackage(m, x, GraphOf(m).packages[x]);
    }
  }

  // ----- roots

  ghost predicate IsRoot(m: Metadata, name: string, root: Id) {
    && (exists i | 0 <= i < |m.packages| ::
          && m.packages[i].name == name && m.packages[i].id == root
          && forall j | 0 <= j < |m.packages| && j != i :: m.packages[j].name != name)
    && exists n :: IsNode(m, root, n)
  }

  ghost predicate HasRoot(m: Metadata, name: string) {
    exists root :: IsRoot(m, name, root)
  }

  lemma {:induction false} NoRoots(packages: seq<Package>, name: string)
    ensures Roots(packages, name) == [] <==> forall j | 0 <= j < |packages| :: packages[j].name != name
  {
    if packages != [] {
      NoRoots(packages[..|packages| - 1], name);
    }
  }

  lemma {:induction false} OneRoot(packages: seq<Package>, name: string)
    ensures |Roots(packages, name)| == 1 ==>
      exists i | 0 <= i < |packages| :: packages[i] == Roots(packages, name)[0] && packages[i].name == name
        && forall j | 0 <= j < |packages| && j != i :: packages[j].name != name
    ensures forall i | 0 <= i < |packages| && packages[i].name == name
        && (forall j | 0 <= j < |packages| && j != i :: packages[j].name != name) ::
      Roots(packages, name) == [packages[i]]
  {
    if packages != [] {
      var n := |packages| - 1;
      var front := packages[..n];
      NoRoots(front, name);
      OneRoot(front, name);
      if packages[n].name == name {
        if |Roots(packages, name)| == 1 {
          assert Roots(front, name) == [];
          assert packages[n] == Roots(packages, name)[0];
        }
      }
    }
  }

  lemma RootExactly(t: Target, name: string, root: Id)
    ensures RootOf(t, name) == Some(root) <==> IsRoot(t.metadata, name, root)
  {
    hide IsNode, GraphOf, Roots;
    var m := t.metadata;
    OneRoot(m.packages, name);
    PackagesExactly(m, root);
    NodesAre(m);
  }

  lemma NodesAre(m: Metadata)
    ensures GraphOf(m).nodes == NodesById(m.nodes) && GraphOf(m).packages == ById(m.packages)
  {
  }

  // ----- the outcome

  ghost predicate Used(t: Target, rootName: string, x: Id) {
    exists root :: IsRoot(t.metadata, rootName, root) && Uses(t.metadata, root, x)
  }

  lemma UsedExactly(t: Target, rootName: string, x: Id)
    ensures Reaches(t, rootName, x) <==> Used(t, rootName, x)
  {
    hide IsRoot, RootOf, Reachable, Uses, GraphOf;
    forall root ensures RootOf(t, rootName) == Some(root) <==> IsRoot(t.metadata, rootName, root) {
      RootExactly(t, rootName, root);
    }
    forall root ensures Reachable(GraphOf(t.metadata), root, x) <==> Uses(t.metadata, root, x) {
      UsesExactly(t.metadata, root, x);
    }
    if Reaches(t, rootName, x) {
      assert IsRoot(t.metadata, rootName, RootOf(t, rootName).value);
    }
  }

  function Label(p: Package): string
    requires p.source.Some?
  {
    "cargo|" + p.name + "|" + p.version + "|" + p.source.value
  }

  // Every target has one package of the root's name, and a node for it; all it uses is resolved;
  // and packages in use with one label have one name and version.
  ghost predicate Consistent(targets: seq<Target>, rootName: string) {
    && (forall i | 0 <= i < |targets| :: HasRoot(targets[i].metadata, rootName))
    && (forall i, x | 0 <= i < |targets| && Used(targets[i], rootName, x) :: Resolved(targets[i].metadata, x))
    && (forall i, j, x, y | 0 <= i < |targets| && 0 <= j < |targets| && Used(targets[i], rootName, x)
          && Used(targets[j], rootName, y) :: Agree(targets[i], x, targets[j], y))
  }

  ghost predicate Agree(t: Target, x: Id, u: Target, y: Id) {
    forall p, q | IsPackage(t.metadata, x, p) && IsPackage(u.metadata, y, q) && p.source.Some? && q.source.Some?
      && Label(p) == Label(q) :: p.name == q.name && p.version == q.version
  }

  lemma AgreeExactly(t: Target, x: Id, u: Target, y: Id)
    requires Resolved(t.metadata, x) && Resolved(u.metadata, y)
    ensures Compatible(t, x, u, y) <==> Agree(t, x, u, y)
  {
    hide IsPackage, IsNode, GraphOf;
    PackagesExactly(t.metadata, x);
    PackagesExactly(u.metadata, y);
    var g, h := GraphOf(t.metadata), GraphOf(u.metadata);
    assert IsPackage(t.metadata, x, g.packages[x]) && IsPackage(u.metadata, y, h.packages[y]);
  }

  lemma RootExists(t: Target, rootName: string)
    ensures RootOf(t, rootName).Some? <==> HasRoot(t.metadata, rootName)
  {
    hide IsRoot, RootOf;
    if RootOf(t, rootName).Some? {
      RootExactly(t, rootName, RootOf(t, rootName).value);
    }
    if HasRoot(t.metadata, rootName) {
      var root :| IsRoot(t.metadata, rootName, root);
      RootExactly(t, rootName, root);
    }
  }

  // The collection succeeds exactly on consistent metadata.
  lemma SoundExactly(targets: seq<Target>, rootName: string)
    ensures AllSound(targets, rootName) <==> Consistent(targets, rootName)
  {
    hide AllSound, Consistent;
    if AllSound(targets, rootName) {
      SoundIsConsistent(targets, rootName);
    }
    if Consistent(targets, rootName) {
      ConsistentIsSound(targets, rootName);
    }
  }

  lemma SoundIsConsistent(targets: seq<Target>, rootName: string)
    requires AllSound(targets, rootName)
    ensures Consistent(targets, rootName)
  {
    hide HasRoot, RootOf, Reaches, Used, Known, Resolved, Compatible, Agree, GraphOf;
    forall i | 0 <= i < |targets| ensures HasRoot(targets[i].metadata, rootName) {
      RootExists(targets[i], rootName);
    }
    forall i, x | 0 <= i < |targets| && Used(targets[i], rootName, x)
      ensures Reaches(targets[i], rootName, x) && Resolved(targets[i].metadata, x)
    {
      UsedExactly(targets[i], rootName, x);
      ResolvedExactly(targets[i].metadata, x);
    }
    forall i, j, x, y | 0 <= i < |targets| && 0 <= j < |targets| && Used(targets[i], rootName, x)
      && Used(targets[j], rootName, y) ensures Agree(targets[i], x, targets[j], y)
    {
      AgreeExactly(targets[i], x, targets[j], y);
    }
  }

  lemma ConsistentIsSound(targets: seq<Target>, rootName: string)
    requires Consistent(targets, rootName)
    ensures AllSound(targets, rootName)
  {
    hide HasRoot, RootOf, Reaches, Used, Known, Resolved, Compatible, Agree, GraphOf;
    forall i | 0 <= i < |targets| ensures RootOf(targets[i], rootName).Some? {
      RootExists(targets[i], rootName);
    }
    forall i, x | 0 <= i < |targets| && Reaches(targets[i], rootName, x)
      ensures Used(targets[i], rootName, x) && Known(GraphOf(targets[i].metadata), x)
    {
      UsedExactly(targets[i], rootName, x);
      ResolvedExactly(targets[i].metadata, x);
    }
    forall i, j, x, y | 0 <= i < |targets| && 0 <= j < |targets| && Reaches(targets[i], rootName, x)
      && Reaches(targets[j], rootName, y) ensures Compatible(targets[i], x, targets[j], y)
    {
      AgreeExactly(targets[i], x, targets[j], y);
    }
  }

  ghost predicate ClosureIs(t: Target, rootName: string, closure: set<string>) {
    forall s :: s in closure <==> exists x :: Used(t, rootName, x) && HasName(t.metadata, x, s)
  }

  ghost predicate IsUse(t: Target, rootName: string, a: Id, b: Id, s: string) {
    && Used(t, rootName, a) && Needs(t.metadata, a, b)
    && exists m, n :: HasName(t.metadata, a, m) && HasName(t.metadata, b, n) && s == m + "\n" + n
  }

  ghost predicate UsesAre(t: Target, rootName: string, keys: set<string>) {
    forall s :: s in keys <==> exists a, b :: IsUse(t, rootName, a, b, s)
  }

  lemma UsedOn(t: Target, rootName: string, a: Id, b: Id)
    requires Used(t, rootName, a) && Needs(t.metadata, a, b)
    ensures Used(t, rootName, b)
  {
    hide IsRoot, Needs, Reachable, HasEdge, GraphOf, RootOf;
    UsedExactly(t, rootName, a);
    UsedExactly(t, rootName, b);
    NeedsExactly(t.metadata, a, b);
    ReachesOn(GraphOf(t.metadata), RootOf(t, rootName).value, a, b);
  }

  lemma ClosureExactly(t: Target, rootName: string, closure: set<string>)
    requires RootOf(t, rootName).Some? && IsClosure(GraphOf(t.metadata), RootOf(t, rootName).value, closure)
    requires forall x | Used(t, rootName, x) :: Resolved(t.metadata, x)
    ensures ClosureIs(t, rootName, closure)
  {
    hide Used, Resolved, Name, HasName, Reachable, GraphOf, RootOf;
    var g := GraphOf(t.metadata);
    forall x ensures Reachable(g, RootOf(t, rootName).value, x) <==> Used(t, rootName, x) {
      UsedExactly(t, rootName, x);
    }
    forall x, s | Used(t, rootName, x) ensures Name(g, x) == s <==> HasName(t.metadata, x, s) {
      ResolvedExactly(t.metadata, x);
    }
  }

  lemma EdgesExactly(t: Target, rootName: string, keys: set<string>)
    requires RootOf(t, rootName).Some? && AreEdges(GraphOf(t.metadata), RootOf(t, rootName).value, keys)
    requires forall x | Used(t, rootName, x) :: Resolved(t.metadata, x)
    ensures UsesAre(t, rootName, keys)
  {
    hide Used, Resolved, HasName, Reachable, GraphOf, RootOf, HasEdge, Needs, IsUse;
    var g := GraphOf(t.metadata);
    var root := RootOf(t, rootName).value;
    forall s ensures s in keys <==> exists a, b :: IsUse(t, rootName, a, b, s) {
      if s in keys {
        var a, b :| Reachable(g, root, a) && HasEdge(g, a, b) && EdgeKey(g, a, b) == s;
        UseExactly(t, rootName, a, b, s);
      }
      if a, b :| IsUse(t, rootName, a, b, s) {
        UseExactly(t, rootName, a, b, s);
      }
    }
  }

  lemma UseExactly(t: Target, rootName: string, a: Id, b: Id, s: string)
    requires RootOf(t, rootName).Some? && forall x | Used(t, rootName, x) :: Resolved(t.metadata, x)
    ensures var (g, root) := (GraphOf(t.metadata), RootOf(t, rootName).value);
      Reachable(g, root, a) && HasEdge(g, a, b) && EdgeKey(g, a, b) == s <==> IsUse(t, rootName, a, b, s)
  {
    hide Used, Resolved, HasName, Reachable, GraphOf, RootOf, HasEdge, Needs, Name;
    UsedExactly(t, rootName, a);
    NeedsExactly(t.metadata, a, b);
    if Used(t, rootName, a) && Needs(t.metadata, a, b) {
      UsedOn(t, rootName, a, b);
      ResolvedExactly(t.metadata, a);
      ResolvedExactly(t.metadata, b);
      var g := GraphOf(t.metadata);
      assert HasName(t.metadata, a, Name(g, a)) && HasName(t.metadata, b, Name(g, b));
    }
  }

  // What is collected: the labels in use by each target, its edges between them, and for each
  // label a package in use that has it, with the targets that use it.
  ghost predicate IsOutcome(targets: seq<Target>, rootName: string, r: RuntimeGraph) {
    && |r.closures| == |r.targetEdges| == |targets|
    && (forall i | 0 <= i < |targets| :: ClosureIs(targets[i], rootName, r.closures[i]))
    && (forall i | 0 <= i < |targets| :: UsesAre(targets[i], rootName, r.targetEdges[i]))
    && PackagesListed(targets, r.closures, r.packages)
    && (forall s | s in r.packages :: SomePackage(targets, rootName, s, r.packages[s].package))
    && EdgesListed(r.targetEdges, r.edges)
  }

  ghost predicate SomePackage(targets: seq<Target>, rootName: string, s: string, p: Package) {
    exists i, x :: 0 <= i < |targets| && Used(targets[i], rootName, x)
      && IsPackage(targets[i].metadata, x, p) && p.source.Some? && Label(p) == s
  }

  lemma OutcomeExactly(targets: seq<Target>, rootName: string, r: RuntimeGraph)
    requires AllSound(targets, rootName) && Complete(targets, rootName, r) && Registry(targets, rootName, r.packages)
    ensures IsOutcome(targets, rootName, r)
  {
    hide HasRoot, RootOf, Reaches, Used, Known, Resolved, Compatible, Agree, GraphOf, IsClosure, AreEdges, UsesAre,
      ClosureIs, PackagesListed, EdgesListed, IsPackage, Name, Registered;
    SoundExactly(targets, rootName);
    forall i | 0 <= i < |targets|
      ensures ClosureIs(targets[i], rootName, r.closures[i]) && UsesAre(targets[i], rootName, r.targetEdges[i])
    {
      AllResolved(targets, rootName, i);
      ClosureExactly(targets[i], rootName, r.closures[i]);
      EdgesExactly(targets[i], rootName, r.targetEdges[i]);
    }
    forall s | s in r.packages ensures SomePackage(targets, rootName, s, r.packages[s].package) {
      RegisteredIsUsed(targets, rootName, s, r.packages[s].package);
    }
  }

  lemma AllResolved(targets: seq<Target>, rootName: string, i: nat)
    requires Consistent(targets, rootName) && i < |targets|
    ensures forall x | Used(targets[i], rootName, x) :: Resolved(targets[i].metadata, x)
  {
    hide Used, Resolved, IsRoot, Agree;
  }

  lemma RegisteredIsUsed(targets: seq<Target>, rootName: string, s: string, p: Package)
    requires AllSound(targets, rootName) && RegisteredBy(targets, rootName, s, p)
    ensures SomePackage(targets, rootName, s, p)
  {
    hide RootOf, Reaches, Used, Known, Compatible, GraphOf, IsPackage, Name;
    var i, x :| 0 <= i < |targets| && Reaches(targets[i], rootName, x)
      && x in GraphOf(targets[i].metadata).packages && Name(GraphOf(targets[i].metadata), x) == s
      && GraphOf(targets[i].metadata).packages[x] == p;
    UsedExactly(targets[i], rootName, x);
    PackagesExactly(targets[i].metadata, x);
    LabelIsName(GraphOf(targets[i].metadata), x);
  }

  lemma LabelIsName(g: Graph, x: Id)
    requires Known(g, x)
    ensures x in g.packages && g.packages[x].source.Some? && Label(g.packages[x]) == Name(g, x)
  {
  }
}
