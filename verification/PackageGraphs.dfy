/** The configuration loader: the graph of a build group, the links from `__all__` to its roots, and
    the import of build groups. */
module PackageGraphs {
  import opened Graphs

  /** `DiGraph.add_edge`: adds missing nodes, and the edge unless it is there. */
  function AddEdge(g: Graph, u: Package, v: Package): Graph {
    var g1 := if u in g then g else g[u := []];
    var g2 := if v in g1 then g1 else g1[v := []];
    if v in g2[u] then g2 else g2[u := g2[u] + [v]]
  }

  lemma AddedEdges(g: Graph, u: Package, v: Package)
    ensures forall a, b :: Edge(AddEdge(g, u, v), a, b) <==> Edge(g, a, b) || (a == u && b == v)
    ensures forall a :: a in AddEdge(g, u, v) <==> a in g || a == u || a == v
  {
  }

  lemma AddedWellFormed(g: Graph, u: Package, v: Package)
    requires WellFormed(g)
    ensures WellFormed(AddEdge(g, u, v))
  {
    var r := AddEdge(g, u, v);
    AddedEdges(g, u, v);
    forall a | a in r ensures NoDuplicates(r[a]) && forall b :: b in r[a] ==> b in r {
      forall b | b in r[a] ensures b in r {
        assert Edge(r, a, b);
      }
    }
  }

  lemma AddedNoIsolated(g: Graph, u: Package, v: Package)
    requires NoIsolated(g)
    ensures NoIsolated(AddEdge(g, u, v))
  {
    hide AddEdge, Edge;
    var r := AddEdge(g, u, v);
    AddedEdges(g, u, v);
    assert Edge(r, u, v);
    forall a | a in r ensures exists b :: Edge(r, a, b) || Edge(r, b, a) {
      if a in g {
        var b :| Edge(g, a, b) || Edge(g, b, a);
        assert Edge(r, a, b) || Edge(r, b, a);
      }
    }
  }

  // ----- the graph of a group -----

  /** Each node has an edge. */
  ghost predicate NoIsolated(g: Graph) {
    forall a :: a in g ==> exists b :: Edge(g, a, b) || Edge(g, b, a)
  }

  /** The packages of a group and what they depend on directly: one level, no more. */
  function OneLevel(deps: Graph, group: set<Package>): set<Package> {
    group + set p, v | p in group && p in deps && v in deps[p] :: v
  }

  /** Every package of the list, and whatever it depends on, is configured. */
  predicate Configured(deps: Graph, list: set<Package>) {
    forall p :: p in list ==> p in deps && forall v :: v in deps[p] ==> v in deps
  }

  /** g holds the dependencies of exactly the packages of the list. */
  ghost predicate HoldsDependencies(deps: Graph, list: set<Package>, g: Graph) {
    WellFormed(g) && NoIsolated(g) && forall u, v :: Edge(g, u, v) <==> u in list && Edge(deps, u, v)
  }

  lemma OneLevelNext(deps: Graph, group: set<Package>, p: Package)
    requires p in deps
    ensures OneLevel(deps, group + {p}) == OneLevel(deps, group) + {p} + Elements(deps[p])
  {
  }

  /** The packages of a group, widened by one level; fails when one of the group is not configured. */
  method WidenGroup(deps: Graph, group: set<Package>) returns (packageList: set<Package>, ok: bool)
    ensures ok <==> group <= deps.Keys
    ensures ok ==> packageList == OneLevel(deps, group)
    ensures ok ==> forall v :: v in packageList <==> v in group || exists p :: p in group && v in deps[p]
  {
    hide OneLevel;
    packageList := group;
    var rest := group;
    OneLevelNothing(deps);
    assert group - rest == {};
    while rest != {}
      invariant rest <= group && packageList == group + OneLevel(deps, group - rest) && group - rest <= deps.Keys
      decreases |rest|
    {
      var pkg :| pkg in rest;
      if pkg !in deps {
        return packageList, false;
      }
      OneLevelNext(deps, group - rest, pkg);
      assert group - (rest - {pkg}) == (group - rest) + {pkg};
      packageList := packageList + Elements(deps[pkg]);
      rest := rest - {pkg};
    }
    assert group - rest == group;
    OneLevelMeans(deps, group);
    ok := true;
  }

  lemma OneLevelNothing(deps: Graph)
    ensures OneLevel(deps, {}) == {}
  {
  }

  lemma OneLevelMeans(deps: Graph, group: set<Package>)
    ensures forall v :: v in OneLevel(deps, group) <==> v in group || exists p :: p in group && p in deps && v in deps[p]
  {
  }

  /** The graph g0 with edges from pkg to the given packages. */
  ghost predicate Gains(g0: Graph, pkg: Package, vs: seq<Package>, g: Graph) {
    WellFormed(g) && NoIsolated(g) && forall u, v :: Edge(g, u, v) <==> Edge(g0, u, v) || (u == pkg && v in vs)
  }

  lemma GainsNext(g0: Graph, pkg: Package, vs: seq<Package>, g: Graph, v: Package)
    requires Gains(g0, pkg, vs, g)
    ensures Gains(g0, pkg, vs + [v], AddEdge(g, pkg, v))
  {
    hide AddEdge, Edge, WellFormed, NoIsolated;
    AddedEdges(g, pkg, v);
    AddedWellFormed(g, pkg, v);
    AddedNoIsolated(g, pkg, v);
  }

  /** Gives one package its dependencies; fails when one of them is not configured. */
  method AddPackage(deps: Graph, graph0: Graph, pkg: Package) returns (graph: Graph, ok: bool)
    requires pkg in deps && WellFormed(graph0) && NoIsolated(graph0)
    ensures ok <==> forall v :: v in deps[pkg] ==> v in deps
    ensures ok ==> Gains(graph0, pkg, deps[pkg], graph)
    ensures ok ==> forall u, v :: Edge(graph, u, v) <==> Edge(graph0, u, v) || (u == pkg && v in deps[pkg])
  {
    hide AddEdge, WellFormed, NoIsolated, Gains;
    graph := graph0;
    GainsNothing(graph0, pkg);
    for i := 0 to |deps[pkg]|
      invariant Gains(graph0, pkg, deps[pkg][..i], graph)
      invariant forall v :: v in deps[pkg][..i] ==> v in deps
    {
      var dep := deps[pkg][i];
      if dep !in deps {
        return graph, false;
      }
      GainsNext(graph0, pkg, deps[pkg][..i], graph, dep);
      graph := AddEdge(graph, pkg, dep);
      assert deps[pkg][..i + 1] == deps[pkg][..i] + [dep];
    }
    assert deps[pkg][..|deps[pkg]|] == deps[pkg];
    ok := true;
    GainsMeans(graph0, pkg, deps[pkg], graph);
  }

  lemma GainsMeans(g0: Graph, pkg: Package, vs: seq<Package>, g: Graph)
    requires Gains(g0, pkg, vs, g)
    ensures forall u, v :: Edge(g, u, v) <==> Edge(g0, u, v) || (u == pkg && v in vs)
  {
  }

  lemma GainsNothing(g: Graph, pkg: Package)
    requires WellFormed(g) && NoIsolated(g)
    ensures Gains(g, pkg, [], g)
  {
  }

  lemma HoldsNothing(deps: Graph)
    ensures HoldsDependencies(deps, {}, map[])
  {
  }

  lemma HoldsNext(deps: Graph, list: set<Package>, g0: Graph, pkg: Package, g: Graph)
    requires pkg in deps && HoldsDependencies(deps, list, g0) && Gains(g0, pkg, deps[pkg], g)
    ensures HoldsDependencies(deps, list + {pkg}, g)
  {
  }

  /** Gives each package of a group, widened by one level, its dependencies; fails when a package
      is not configured. */
  method AddDependencies(deps: Graph, group: set<Package>) returns (packageList: set<Package>, graph: Graph, ok: bool)
    ensures ok <==> Configured(deps, OneLevel(deps, group))
    ensures ok <==> forall p :: p in OneLevel(deps, group) ==> p in deps && forall v :: v in deps[p] ==> v in deps
    ensures ok ==> packageList == OneLevel(deps, group) && HoldsDependencies(deps, packageList, graph)
    ensures ok ==> forall u, v :: Edge(graph, u, v) <==> u in packageList && Edge(deps, u, v)
    ensures ok ==> forall u :: u in graph <==> exists v :: Edge(graph, u, v) || Edge(graph, v, u)
  {
    ConfiguredMeans(deps, OneLevel(deps, group));
    hide HoldsDependencies, Gains, NoIsolated, WellFormed, OneLevel, Configured;
    graph := map[];
    packageList, ok := WidenGroup(deps, group);
    ConfiguredGroup(deps, group);
    if !ok {
      return;
    }
    var rest := packageList;
    HoldsNothing(deps);
    assert packageList - rest == {};
    while rest != {}
      invariant ok && rest <= packageList && Configured(deps, packageList - rest)
      invariant HoldsDependencies(deps, packageList - rest, graph)
      decreases |rest|
    {
      var pkg :| pkg in rest;
      ConfiguredNext(deps, packageList - rest, pkg, packageList);
      if pkg !in deps {
        return packageList, graph, false;
      }
      ghost var before := graph;
      HoldsWellFormed(deps, packageList - rest, graph);
      graph, ok := AddPackage(deps, graph, pkg);
      if !ok {
        return;
      }
      HoldsNext(deps, packageList - rest, before, pkg, graph);
      assert packageList - (rest - {pkg}) == (packageList - rest) + {pkg};
      rest := rest - {pkg};
    }
    assert packageList - rest == packageList;
    HoldsMeans(deps, packageList, graph);
  }

  lemma ConfiguredMeans(deps: Graph, list: set<Package>)
    ensures Configured(deps, list) <==> forall p :: p in list ==> p in deps && forall v :: v in deps[p] ==> v in deps
  {
  }

  lemma HoldsMeans(deps: Graph, list: set<Package>, g: Graph)
    requires HoldsDependencies(deps, list, g)
    ensures forall u, v :: Edge(g, u, v) <==> u in list && Edge(deps, u, v)
    ensures forall u :: u in g <==> exists v :: Edge(g, u, v) || Edge(g, v, u)
  {
    forall u, v | Edge(g, v, u) ensures u in g {
      assert u in g[v];
    }
  }

  lemma ConfiguredGroup(deps: Graph, group: set<Package>)
    ensures Configured(deps, OneLevel(deps, group)) ==> group <= deps.Keys
    ensures Configured(deps, {})
  {
  }

  lemma ConfiguredNext(deps: Graph, list: set<Package>, pkg: Package, all: set<Package>)
    requires Configured(deps, list) && pkg in all
    ensures Configured(deps, list + {pkg}) <==> pkg in deps && forall v :: v in deps[pkg] ==> v in deps
    ensures Configured(deps, all) ==> Configured(deps, list + {pkg})
  {
  }

  lemma HoldsWellFormed(deps: Graph, list: set<Package>, g: Graph)
    requires HoldsDependencies(deps, list, g)
    ensures WellFormed(g) && NoIsolated(g)
  {
  }

  // ----- linking `__all__` -----

  predicate IsRoot(g: Graph, v: Package) {
    v in g && forall u :: u in g ==> v !in g[u]
  }

  /** In-degree zero. */
  lemma NoIncomingEdge(g: Graph, v: Package)
    ensures IsRoot(g, v) <==> v in g && forall u :: !Edge(g, u, v)
  {
    if v in g && forall u :: !Edge(g, u, v) {
      forall u | u in g ensures v !in g[u] {
        assert !Edge(g, u, v);
      }
    }
  }

  lemma NoEdgeFromOutside(g: Graph, u: Package)
    requires u !in g
    ensures forall v :: !Edge(g, u, v)
  {
  }

  /** g is g0 with edges from `__all__` to exactly the packages in `linked`. */
  ghost predicate Linked(g0: Graph, g: Graph, linked: set<Package>) {
    (forall v :: v != ALL ==> (v in g <==> v in g0 || v in linked))
    && (forall u :: u != ALL && u in g ==> g[u] == if u in g0 then g0[u] else [])
    && (ALL in g <==> linked != {})
    && (ALL in g ==> NoDuplicates(g[ALL]) && Elements(g[ALL]) == linked)
  }

  lemma LinkOne(g0: Graph, g: Graph, linked: set<Package>, v: Package)
    requires Linked(g0, g, linked) && v != ALL
    ensures Linked(g0, AddEdge(g, ALL, v), linked + {v})
  {
    var r := AddEdge(g, ALL, v);
    assert v in linked + {v};
    var before := if ALL in g then g[ALL] else [];
    assert Elements(before) == linked;
    assert v in before <==> v in linked;
    assert r[ALL] == if v in before then before else before + [v];
    assert Elements(r[ALL]) == linked + {v};
  }

  lemma LinkedNothing(g0: Graph)
    requires ALL !in g0
    ensures Linked(g0, g0, {})
  {
  }

  lemma LinkedNode(g0: Graph, g: Graph, linked: set<Package>, v: Package)
    requires Linked(g0, g, linked) && v != ALL
    ensures v in g <==> v in g0 || v in linked
  {
  }

  lemma LinkedEdge(g0: Graph, g: Graph, linked: set<Package>, u: Package, v: Package)
    requires WellFormed(g0) && ALL !in g0 && ALL !in linked && Linked(g0, g, linked)
    ensures Edge(g, u, v) <==> Edge(g0, u, v) || (u == ALL && v in linked)
    ensures v == ALL ==> !Edge(g, u, v)
  {
    if u == ALL && u in g { assert v in g[ALL] <==> v in Elements(g[ALL]); }
  }

  lemma LinkedWellFormed(g0: Graph, g: Graph, linked: set<Package>)
    requires WellFormed(g0) && ALL !in g0 && ALL !in linked && Linked(g0, g, linked)
    ensures WellFormed(g)
  {
    forall u | u in g ensures NoDuplicates(g[u]) && forall v :: v in g[u] ==> v in g {
      forall v | v in g[u] ensures v in g {
        LinkedEdge(g0, g, linked, u, v);
      }
    }
  }

  /** Linking `__all__` adds no cycle: nothing leads back to it. */
  lemma LinkedAcyclic(g0: Graph, g: Graph, linked: set<Package>)
    requires WellFormed(g0) && Acyclic(g0) && ALL !in g0 && ALL !in linked && Linked(g0, g, linked)
    ensures Acyclic(g)
  {
    forall u ensures !DependsOn(g, u, u) {
      if DependsOn(g, u, u) {
        var path :| WalkFromTo(g, path, u, u);
        LinkedEdge(g0, g, linked, path[|path| - 2], u);
        assert Edge(g, path[|path| - 2], path[|path| - 1]);
        forall i | 0 <= i < |path| - 1 ensures Edge(g0, path[i], path[i + 1]) {
          assert Edge(g, path[i], path[i + 1]);
          LinkedEdge(g0, g, linked, path[i], path[i + 1]);
          if i > 0 {
            assert Edge(g, path[i - 1], path[i]);
            LinkedEdge(g0, g, linked, path[i - 1], path[i]);
          }
        }
        assert WalkFromTo(g0, path, u, u);
        assert DependsOn(g0, u, u);
        assert false;
      }
    }
  }

  ghost function Dependents(g: Graph, v: Package): set<Package> {
    set u | u in g.Keys && DependsOn(g, u, v)
  }

  lemma FewerDependents(g: Graph, u: Package, v: Package)
    requires Acyclic(g) && Edge(g, u, v)
    ensures |Dependents(g, u)| < |Dependents(g, v)|
  {
    EdgeDependsOn(g, u, v);
    forall w | w in Dependents(g, u) ensures w in Dependents(g, v) {
      DependsOnTransitive(g, w, u, v);
    }
    assert u in Dependents(g, v) && u !in Dependents(g, u);
    SubsetSize(Dependents(g, u), Dependents(g, v));
  }

  /** Following dependents upwards in an acyclic graph ends at a root, so whatever is linked to
      all roots and to every node outside g0 reaches everything. */
  lemma {:induction false} ReachedFromAll(g0: Graph, g: Graph, linked: set<Package>, v: Package)
    requires WellFormed(g0) && Acyclic(g0) && ALL !in g0 && ALL !in linked && Linked(g0, g, linked)
    requires forall r :: IsRoot(g0, r) ==> r in linked
    requires v in g && v != ALL
    ensures DependsOn(g, ALL, v)
    decreases |Dependents(g0, v)|
  {
    LinkedEdge(g0, g, linked, ALL, v);
    if v in linked {
      EdgeDependsOn(g, ALL, v);
    } else {
      var u :| u in g0 && v in g0[u];
      LinkedEdge(g0, g, linked, u, v);
      FewerDependents(g0, u, v);
      ReachedFromAll(g0, g, linked, u);
      EdgeDependsOn(g, u, v);
      DependsOnTransitive(g, ALL, u, v);
    }
  }

  /** A nonempty acyclic graph has a root. */
  lemma {:induction false} SomeRoot(g: Graph, v: Package) returns (r: Package)
    requires Acyclic(g) && v in g
    ensures IsRoot(g, r)
    decreases |Dependents(g, v)|
  {
    if IsRoot(g, v) {
      r := v;
    } else {
      var u :| u in g && v in g[u];
      FewerDependents(g, u, v);
      r := SomeRoot(g, u);
    }
  }

  /** What `linked` must be: the roots and the packages without edges. */
  ghost predicate RootsAndIsolated(g0: Graph, packageList: set<Package>, linked: set<Package>) {
    forall v :: v in linked <==> IsRoot(g0, v) || (v in packageList && v !in g0)
  }

  lemma LinkFacts(g0: Graph, g: Graph, packageList: set<Package>, linked: set<Package>)
    requires WellFormed(g0) && Acyclic(g0) && ALL !in g0 && ALL !in packageList
    requires Linked(g0, g, linked) && RootsAndIsolated(g0, packageList, linked)
    ensures Sound(g)
    ensures forall u, v :: Edge(g, u, v) <==>
      Edge(g0, u, v) || (u == ALL && (IsRoot(g0, v) || (v in packageList && v !in g0)))
    ensures forall v :: v != ALL ==> (v in g <==> v in g0 || v in packageList)
    ensures forall v :: v in g && v != ALL ==> DependsOn(g, ALL, v)
    ensures ALL in g <==> g0 != map[] || packageList != {}
  {
    LinkedWellFormed(g0, g, linked);
    LinkedAcyclic(g0, g, linked);
    forall u, v ensures Edge(g, u, v) <==>
      Edge(g0, u, v) || (u == ALL && (IsRoot(g0, v) || (v in packageList && v !in g0)))
    {
      LinkedEdge(g0, g, linked, u, v);
    }
    forall v | v in g && v != ALL ensures DependsOn(g, ALL, v) {
      ReachedFromAll(g0, g, linked, v);
    }
    LinkedSomething(g0, packageList, linked);
  }

  /** The loader makes g of a group, and g passes its search for cycles. */
  ghost predicate Loaded(deps: Graph, group: set<Package>, g: Graph) {
    exists g0, linked :: LoadedFrom(deps, group, g0, linked, g)
  }

  ghost predicate LoadedFrom(deps: Graph, group: set<Package>, g0: Graph, linked: set<Package>, g: Graph) {
    var list := OneLevel(deps, group);
    Configured(deps, list) && HoldsDependencies(deps, list, g0) && Acyclic(g0) && ALL !in g0 && ALL !in list
    && Linked(g0, g, linked) && RootsAndIsolated(g0, list, linked)
  }

  /** A loaded graph is sound, and has the dependencies of its list and no others. */
  lemma LoadedFacts(deps: Graph, group: set<Package>, g: Graph)
    requires Loaded(deps, group, g)
    ensures Sound(g) && (group != {} ==> ALL in g)
    ensures forall u, v :: u != ALL ==> (Edge(g, u, v) <==> u in OneLevel(deps, group) && Edge(deps, u, v))
    ensures forall v :: v in g && v != ALL ==> DependsOn(g, ALL, v)
  {
    hide Acyclic, Linked, RootsAndIsolated;
    var g0, linked :| LoadedFrom(deps, group, g0, linked, g);
    LinkFacts(g0, g, OneLevel(deps, group), linked);
  }

  lemma LinkedSomething(g0: Graph, packageList: set<Package>, linked: set<Package>)
    requires Acyclic(g0) && RootsAndIsolated(g0, packageList, linked)
    ensures linked != {} <==> g0 != map[] || packageList != {}
  {
    if g0 != map[] {
      var v :| v in g0;
      var r := SomeRoot(g0, v);
      assert r in linked;
    } else if packageList != {} {
      var v :| v in packageList;
      assert v in linked;
    }
  }

  /** Links `__all__` to every package nothing depends on and to every package without edges. */
  method LinkRoots(graph0: Graph, packageList: set<Package>) returns (graph: Graph)
    requires WellFormed(graph0) && Acyclic(graph0) && ALL !in graph0 && ALL !in packageList
    ensures Sound(graph)
    ensures forall u, v :: Edge(graph, u, v) <==>
      Edge(graph0, u, v) || (u == ALL && (IsRoot(graph0, v) || (v in packageList && v !in graph0)))
    ensures forall v :: Edge(graph, ALL, v) <==>
      (v in graph0 && forall u :: !Edge(graph0, u, v)) || (v in packageList && v !in graph0)
    ensures forall v :: v != ALL ==> (v in graph <==> v in graph0 || v in packageList)
    ensures forall v :: v in graph && v != ALL ==> DependsOn(graph, ALL, v)
    ensures ALL in graph <==> graph0 != map[] || packageList != {}
    ensures exists linked :: Linked(graph0, graph, linked) && RootsAndIsolated(graph0, packageList, linked)
  {
    hide AddEdge, Linked, Acyclic, WellFormed, DependsOn;
    graph := graph0;
    ghost var linked: set<Package> := {};
    LinkedNothing(graph0);
    var rest := set v | v in graph0.Keys && IsRoot(graph0, v);
    while rest != {}
      invariant rest !! linked && Linked(graph0, graph, linked)
      invariant forall v :: v in rest || v in linked <==> IsRoot(graph0, v)
      decreases |rest|
    {
      var pkg :| pkg in rest;
      LinkOne(graph0, graph, linked, pkg);
      graph := AddEdge(graph, ALL, pkg);
      rest, linked := rest - {pkg}, linked + {pkg};
    }
    rest := packageList;
    while rest != {}
      invariant rest <= packageList && Linked(graph0, graph, linked)
      invariant forall v :: v in linked ==> IsRoot(graph0, v) || (v in packageList && v !in graph0)
      invariant forall v :: IsRoot(graph0, v) || (v in packageList - rest && v !in graph0) ==> v in linked
      decreases |rest|
    {
      var pkg :| pkg in rest;
      LinkedNode(graph0, graph, linked, pkg);
      if pkg !in graph {
        LinkOne(graph0, graph, linked, pkg);
        graph := AddEdge(graph, ALL, pkg);
        linked := linked + {pkg};
      }
      rest := rest - {pkg};
    }
    assert RootsAndIsolated(graph0, packageList, linked);
    LinkFacts(graph0, graph, packageList, linked);
    forall v ensures IsRoot(graph0, v) <==> v in graph0 && forall u :: !Edge(graph0, u, v) {
      NoIncomingEdge(graph0, v);
    }
    NoEdgeFromOutside(graph0, ALL);
  }

  // ----- importing build groups -----

  /** A group's base groups (named like packages) and its own packages; a missing entry is empty. */
  datatype Group = Group(bases: seq<Package>, packages: set<Package>)

  type Groups = map<Package, Group>

  datatype ImportResult = Imported | NotFound(group: Package)

  function BaseGraph(groups: Groups): Graph {
    map n | n in groups :: groups[n].bases
  }

  /** m is the group or one of the groups it is based on, at any depth. */
  ghost predicate Includes(groups: Groups, name: Package, m: Package) {
    m == name || DependsOn(BaseGraph(groups), name, m)
  }

  ghost predicate PackageOf(groups: Groups, name: Package, p: Package) {
    exists m :: Includes(groups, name, m) && m in groups && p in groups[m].packages
  }

  ghost function Depth(groups: Groups, name: Package): nat {
    if name in groups then |Dependencies(BaseGraph(groups), name)| + 1 else 0
  }

  lemma BaseIsShallower(groups: Groups, name: Package, base: Package)
    requires Acyclic(BaseGraph(groups)) && name in groups && base in groups[name].bases
    ensures Depth(groups, base) < Depth(groups, name)
  {
    assert Edge(BaseGraph(groups), name, base);
    if base in groups { FewerDependencies(BaseGraph(groups), name, base); }
  }

  lemma IncludesUnfold(groups: Groups, name: Package, m: Package)
    requires name in groups
    ensures Includes(groups, name, m) <==> m == name || exists b :: b in groups[name].bases && Includes(groups, b, m)
  {
    var g := BaseGraph(groups);
    if DependsOn(g, name, m) {
      var b := FirstStep(g, name, m);
      assert b in groups[name].bases && Includes(groups, b, m);
    }
    if exists b :: b in groups[name].bases && Includes(groups, b, m) {
      var b :| b in groups[name].bases && Includes(groups, b, m);
      assert Edge(g, name, b);
      EdgeDependsOn(g, name, b);
      if b != m { DependsOnTransitive(g, name, b, m); }
    }
  }

  lemma PackageOfUnfold(groups: Groups, name: Package, p: Package)
    requires name in groups
    ensures PackageOf(groups, name, p) <==>
      p in groups[name].packages || exists b :: b in groups[name].bases && PackageOf(groups, b, p)
  {
    if PackageOf(groups, name, p) {
      var m :| Includes(groups, name, m) && m in groups && p in groups[m].packages;
      IncludesUnfold(groups, name, m);
    }
    if p in groups[name].packages { assert Includes(groups, name, name); }
    if exists b :: b in groups[name].bases && PackageOf(groups, b, p) {
      var b :| b in groups[name].bases && PackageOf(groups, b, p);
      var m :| Includes(groups, b, m) && m in groups && p in groups[m].packages;
      IncludesUnfold(groups, name, m);
    }
  }

  /** The groups in the order an import visits them: each before its base groups. */
  ghost function Visits(groups: Groups, name: Package): seq<Package>
    requires Acyclic(BaseGraph(groups))
    decreases Depth(groups, name), |if name in groups then groups[name].bases else []| + 1
  {
    if name in groups then [name] + VisitsAll(groups, name, groups[name].bases) else [name]
  }

  ghost function VisitsAll(groups: Groups, name: Package, bases: seq<Package>): seq<Package>
    requires Acyclic(BaseGraph(groups)) && name in groups && forall b :: b in bases ==> b in groups[name].bases
    decreases Depth(groups, name), |bases|
  {
    if bases == [] then []
    else
      var k := |bases| - 1;
      BaseIsShallower(groups, name, bases[k]);
      VisitsAll(groups, name, bases[..k]) + Visits(groups, bases[k])
  }

  /** The result names the first visited group that is not defined, if there is one. */
  ghost predicate FirstUndefined(groups: Groups, visits: seq<Package>, ret: ImportResult) {
    match ret
    case Imported => forall m :: m in visits ==> m in groups
    case NotFound(g) => exists i :: 0 <= i < |visits| && visits[i] == g && g !in groups
                                    && forall j :: 0 <= j < i ==> visits[j] in groups
  }

  lemma FirstUndefinedConcat(groups: Groups, a: seq<Package>, b: seq<Package>, ret: ImportResult)
    ensures FirstUndefined(groups, a, Imported) && FirstUndefined(groups, b, ret) ==> FirstUndefined(groups, a + b, ret)
    ensures FirstUndefined(groups, a, ret) && ret.NotFound? ==> FirstUndefined(groups, a + b, ret)
  {
    if ret.NotFound? {
      if FirstUndefined(groups, a, ret) {
        var i :| 0 <= i < |a| && a[i] == ret.group && ret.group !in groups && forall j :: 0 <= j < i ==> a[j] in groups;
        assert (a + b)[i] == ret.group;
      } else if FirstUndefined(groups, a, Imported) && FirstUndefined(groups, b, ret) {
        var i :| 0 <= i < |b| && b[i] == ret.group && ret.group !in groups && forall j :: 0 <= j < i ==> b[j] in groups;
        assert (a + b)[|a| + i] == ret.group;
      }
    }
  }

  lemma FirstUndefinedMeans(groups: Groups, visits: seq<Package>, ret: ImportResult)
    requires FirstUndefined(groups, visits, ret) && ret.NotFound?
    ensures exists i :: 0 <= i < |visits| && visits[i] == ret.group && forall j :: 0 <= j < i ==> visits[j] in groups
  {
  }

  lemma VisitsNext(groups: Groups, name: Package, i: nat)
    requires Acyclic(BaseGraph(groups)) && name in groups && i < |groups[name].bases|
    ensures var bases := groups[name].bases;
            VisitsAll(groups, name, bases[..i + 1]) == VisitsAll(groups, name, bases[..i]) + Visits(groups, bases[i])
  {
    var bases := groups[name].bases;
    assert bases[..i + 1][..i] == bases[..i];
  }

  lemma VisitsStart(groups: Groups, name: Package)
    requires Acyclic(BaseGraph(groups))
    ensures if name in groups then FirstUndefined(groups, [name] + VisitsAll(groups, name, groups[name].bases[..0]), Imported)
            else FirstUndefined(groups, Visits(groups, name), NotFound(name))
  {
    assert [name][0] == name;
  }

  lemma VisitsSoFar(groups: Groups, name: Package, i: nat, ret: ImportResult)
    requires Acyclic(BaseGraph(groups)) && name in groups && i < |groups[name].bases|
    requires FirstUndefined(groups, [name] + VisitsAll(groups, name, groups[name].bases[..i]), Imported)
    requires FirstUndefined(groups, Visits(groups, groups[name].bases[i]), ret)
    ensures FirstUndefined(groups, [name] + VisitsAll(groups, name, groups[name].bases[..i + 1]), ret)
    ensures ret.NotFound? ==> FirstUndefined(groups, Visits(groups, name), ret)
  {
    hide FirstUndefined, Visits, VisitsAll;
    var bases := groups[name].bases;
    var before, now := [name] + VisitsAll(groups, name, bases[..i]), [name] + VisitsAll(groups, name, bases[..i + 1]);
    VisitsNext(groups, name, i);
    assert now == before + Visits(groups, bases[i]);
    FirstUndefinedConcat(groups, before, Visits(groups, bases[i]), ret);
    VisitsRest(groups, name, i + 1);
    assert Visits(groups, name) == now + Visits(groups, name)[|now|..];
    FirstUndefinedConcat(groups, now, Visits(groups, name)[|now|..], ret);
  }

  lemma {:induction false} VisitsRest(groups: Groups, name: Package, i: nat)
    requires Acyclic(BaseGraph(groups)) && name in groups && i <= |groups[name].bases|
    ensures [name] + VisitsAll(groups, name, groups[name].bases[..i]) <= Visits(groups, name)
    decreases |groups[name].bases| - i
  {
    var bases := groups[name].bases;
    if i == |bases| {
      assert bases[..i] == bases;
    } else {
      VisitsNext(groups, name, i);
      VisitsRest(groups, name, i + 1);
    }
  }

  lemma VisitsDone(groups: Groups, name: Package)
    requires Acyclic(BaseGraph(groups)) && name in groups
    ensures [name] + VisitsAll(groups, name, groups[name].bases[..|groups[name].bases|]) == Visits(groups, name)
  {
    assert groups[name].bases[..|groups[name].bases|] == groups[name].bases;
  }

  lemma IncludesItself(groups: Groups, name: Package)
    ensures Includes(groups, name, name)
  {
  }

  /** `packages`, whose entry 'PKG' is reassigned while groups are imported. */
  class PackageSet {
    var pkg: set<Package>

    /** `do_import_build_group`: succeeds exactly when every group it includes is defined, and
        then adds exactly their packages; otherwise it names the first undefined group it visits. */
    method ImportBuildGroup(name: Package, groups: Groups) returns (ret: ImportResult)
      requires Acyclic(BaseGraph(groups))
      modifies this
      ensures ret.Imported? <==> forall m :: Includes(groups, name, m) ==> m in groups
      ensures ret.NotFound? ==> Includes(groups, name, ret.group) && ret.group !in groups
      ensures FirstUndefined(groups, Visits(groups, name), ret)
      ensures ret.NotFound? ==> exists i :: 0 <= i < |Visits(groups, name)| && Visits(groups, name)[i] == ret.group
                                            && forall j :: 0 <= j < i ==> Visits(groups, name)[j] in groups
      ensures forall p :: p in old(pkg) ==> p in pkg
      ensures forall p :: p in pkg ==> p in old(pkg) || PackageOf(groups, name, p)
      ensures ret.Imported? ==> forall p :: p in pkg <==> p in old(pkg) || PackageOf(groups, name, p)
      decreases Depth(groups, name)
    {
      hide FirstUndefined, Visits, VisitsAll, Acyclic, BaseGraph, Includes, PackageOf;
      VisitsStart(groups, name);
      IncludesItself(groups, name);
      if name !in groups {
        FirstUndefinedMeans(groups, Visits(groups, name), NotFound(name));
        return NotFound(name);
      }
      var group := groups[name];
      forall m ensures Includes(groups, name, m) <==> m == name || exists b :: b in group.bases && Includes(groups, b, m) {
        IncludesUnfold(groups, name, m);
      }
      forall p ensures PackageOf(groups, name, p) <==>
          p in group.packages || exists b :: b in group.bases && PackageOf(groups, b, p)
      {
        PackageOfUnfold(groups, name, p);
      }
      for i := 0 to |group.bases|
        invariant forall k, m :: 0 <= k < i && Includes(groups, group.bases[k], m) ==> m in groups
        invariant FirstUndefined(groups, [name] + VisitsAll(groups, name, group.bases[..i]), Imported)
        invariant forall p :: p in old(pkg) ==> p in pkg
        invariant forall p :: p in pkg <==> p in old(pkg) || exists k :: 0 <= k < i && PackageOf(groups, group.bases[k], p)
      {
        BaseIsShallower(groups, name, group.bases[i]);
        ret := ImportBuildGroup(group.bases[i], groups);
        VisitsSoFar(groups, name, i, ret);
        if !ret.Imported? {
          FirstUndefinedMeans(groups, Visits(groups, name), ret);
          return;
        }
      }
      VisitsDone(groups, name);
      pkg := pkg + group.packages;
      return Imported;
    }
  }
}
