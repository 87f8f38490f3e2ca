/** The planner's entry points, and the plan build_central makes from them. */
module BuildPlan {
  import opened Graphs
  import opened BuildOrder
  import opened BuildMerge

  // ----- the planner's entry points -----

  /** The list after `generate_build_order`. */
  ghost function OrderOf(graphs: seq<Graph>, p: Package, s: seq<Package>): seq<Package>
    requires AllSound(graphs) && NoDuplicates(s)
    requires p == ALL ==> forall i :: 0 <= i < |graphs| ==> ALL in graphs[i]
  {
    if p == ALL then AppendNew(s, AllPackages(graphs)) else AddFromGraphs(graphs, |graphs|, p, s)
  }

  /** Adding a package, or `__all__` to an empty list, keeps the list in order and adds exactly
      what the package needs. */
  lemma OrderOfFacts(graphs: seq<Graph>, p: Package, s: seq<Package>)
    requires AllSound(graphs) && Agree(graphs) && DependentsFirst(graphs, s)
    requires p == ALL ==> s == [] && forall i :: 0 <= i < |graphs| ==> ALL in graphs[i]
    ensures var r := OrderOf(graphs, p, s);
            DependentsFirst(graphs, r) && forall v :: v in r <==> v in s || NeededIn(graphs, |graphs|, p, v)
  {
    if p == ALL {
      AllPackagesFacts(graphs);
      AppendToEmpty(AllPackages(graphs));
    } else {
      AddFromGraphsFacts(graphs, |graphs|, p, s);
    }
  }

  /** The list comprehension that appends what is missing. */
  method AppendMissing(list: seq<Package>, xs: seq<Package>) returns (r: seq<Package>)
    ensures r == AppendNew(list, xs)
  {
    r := list;
    for i := 0 to |xs|
      invariant r == AppendNew(list, xs[..i])
    {
      assert xs[..i + 1][..i] == xs[..i];
      if xs[i] !in r {
        r := r + [xs[i]];
      }
    }
    assert xs[..|xs|] == xs;
  }

  /** `generate_all_build_order` */
  method GenerateAllBuildOrder(graphs: seq<Graph>, list: BuildList)
    requires AllSound(graphs) && forall i :: 0 <= i < |graphs| ==> ALL in graphs[i]
    modifies list
    ensures list.items == AppendNew(old(list.items), AllPackages(graphs))
  {
    hide Acyclic, WellFormed, SingleOrder, Settle, AppendNew, RemoveAt, Keeps, Ordered, Elements, Dependencies;
    var orderedPackages: seq<Package> := [];
    for k := 0 to |graphs|
      invariant orderedPackages == MergedOrder(graphs, k) && list.items == old(list.items)
    {
      var bp := new BuildList();
      bp.GenerateForSingleGraph(graphs[k], ALL);
      bp.items := Reverse(bp.items);
      orderedPackages := AppendMissing(orderedPackages, bp.items);
    }
    orderedPackages := Reverse(orderedPackages);
    if ALL in orderedPackages {
      orderedPackages := RemoveAt(orderedPackages, IndexOf(orderedPackages, ALL));
    }
    list.items := AppendMissing(list.items, orderedPackages);
  }

  /** `generate_build_order` */
  method GenerateBuildOrder(graphs: seq<Graph>, package: Package, list: BuildList)
    requires AllSound(graphs) && NoDuplicates(list.items)
    requires package == ALL ==> forall i :: 0 <= i < |graphs| ==> ALL in graphs[i]
    modifies list
    ensures list.items == OrderOf(graphs, package, old(list.items))
    ensures package == ALL ==> list.items == AppendNew(old(list.items), AllPackages(graphs))
    ensures package != ALL ==> list.items == AddFromGraphs(graphs, |graphs|, package, old(list.items))
  {
    if package == ALL {
      GenerateAllBuildOrder(graphs, list);
    } else {
      for k := 0 to |graphs|
        invariant list.items == AddFromGraphs(graphs, k, package, old(list.items))
      {
        if package in graphs[k] {
          list.GenerateForSingleGraph(graphs[k], package);
        }
      }
    }
  }

  // ----- build_central -----

  /** v is one of the packages, or below one of them. */
  ghost predicate Needed(graphs: seq<Graph>, packages: set<Package>, v: Package) {
    exists p :: p in packages && NeededIn(graphs, |graphs|, p, v)
  }

  /** `__all__` alone, or no `__all__` at all. */
  predicate Selectable(graphs: seq<Graph>, packages: set<Package>) {
    ALL in packages ==> packages == {ALL} && forall i :: 0 <= i < |graphs| ==> ALL in graphs[i]
  }

  /** What the loop over the packages has reached when `done` are dealt with and `rest` are not. */
  ghost predicate Accumulated(graphs: seq<Graph>, done: set<Package>, rest: set<Package>, s: seq<Package>)
    requires AllSound(graphs) && Selectable(graphs, done + rest)
  {
    NoDuplicates(s)
    && (forall v :: v in s ==> v != ALL && InSome(graphs, v))
    && (forall p :: p in done && p != ALL && InSome(graphs, p) ==> p in s)
    && (Agree(graphs) ==> DependentsFirst(graphs, s) && forall v :: v in s <==> Needed(graphs, done, v))
    && (forall p :: done + rest == {p} ==> s == if rest == {} then OrderOf(graphs, p, []) else [])
  }

  lemma OrderOfMembers(graphs: seq<Graph>, p: Package, s: seq<Package>)
    requires AllSound(graphs) && NoDuplicates(s)
    requires p == ALL ==> forall i :: 0 <= i < |graphs| ==> ALL in graphs[i]
    ensures var r := OrderOf(graphs, p, s);
            (forall v :: v in s ==> v in r) && (p != ALL && InSome(graphs, p) ==> p in r)
            && forall v :: v in r ==> v in s || (v != ALL && InSome(graphs, v))
  {
    hide InSome, AddFromGraphs, AllPackages, AppendNew;
    if p == ALL {
      var r := AppendNew(s, AllPackages(graphs));
      AllPackagesMembers(graphs);
      AppendNewFacts(s, AllPackages(graphs));
      forall v ensures v in r <==> v in s || v in AllPackages(graphs) {
        assert v in r <==> v in Elements(r);
      }
    } else {
      AddedMembers(graphs, p, s);
    }
  }

  lemma SinglePackage(done: set<Package>, rest: set<Package>, p: Package, q: Package)
    requires p in rest && done !! rest && done + rest == {q}
    ensures p == q && done == {} && rest == {p}
  {
    assert p in done + rest;
    forall x | x in done || x in rest ensures x == q {
      assert x in done + rest;
    }
  }

  lemma AccumulateNext(graphs: seq<Graph>, done: set<Package>, rest: set<Package>, s: seq<Package>, p: Package)
    requires AllSound(graphs) && Selectable(graphs, done + rest) && p in rest && done !! rest
    requires Accumulated(graphs, done, rest, s)
    ensures done + rest == (done + {p}) + (rest - {p})
    ensures Selectable(graphs, (done + {p}) + (rest - {p}))
    ensures p == ALL ==> forall i :: 0 <= i < |graphs| ==> ALL in graphs[i]
    ensures Accumulated(graphs, done + {p}, rest - {p}, OrderOf(graphs, p, s))
  {
    hide AllSound, Agree, OrderOf, DependentsFirst, Needed, NeededIn, NoDuplicates, InSome;
    assert done + rest == (done + {p}) + (rest - {p});
    forall q | done + rest == {q} ensures p == q && s == [] && rest - {p} == {} {
      SinglePackage(done, rest, p, q);
    }
    OrderOfDistinct(graphs, p, s);
    OrderOfMembers(graphs, p, s);
    if Agree(graphs) {
      OrderOfFacts(graphs, p, s);
      forall v ensures Needed(graphs, done + {p}, v) <==> Needed(graphs, done, v) || NeededIn(graphs, |graphs|, p, v) {
        NeededAdd(graphs, done, p, v);
      }
    }
  }

  lemma OrderOfDistinct(graphs: seq<Graph>, p: Package, s: seq<Package>)
    requires AllSound(graphs) && NoDuplicates(s)
    requires p == ALL ==> forall i :: 0 <= i < |graphs| ==> ALL in graphs[i]
    ensures NoDuplicates(OrderOf(graphs, p, s))
  {
    if p == ALL {
      AllPackagesMembers(graphs);
      AppendNewFacts(s, AllPackages(graphs));
    }
  }

  lemma AccumulateNone(graphs: seq<Graph>, packages: set<Package>)
    requires AllSound(graphs) && Selectable(graphs, {} + packages)
    ensures Accumulated(graphs, {}, packages, [])
  {
  }

  /** Accumulates the orders of the packages in any order, then reverses: dependencies come first.
      For `__all__` that is exactly when the merge keeps every edge. */
  method OrderPackages(graphs: seq<Graph>, packages: set<Package>) returns (ordered: seq<Package>)
    requires AllSound(graphs)
    requires ALL in packages ==> packages == {ALL} && forall i :: 0 <= i < |graphs| ==> ALL in graphs[i]
    ensures NoDuplicates(ordered)
    ensures forall v :: v in ordered ==> v != ALL && InSome(graphs, v)
    ensures forall p :: p in packages && p != ALL && InSome(graphs, p) ==> p in ordered
    ensures forall p :: packages == {p} ==> ordered == Reverse(OrderOf(graphs, p, []))
    ensures Agree(graphs) ==> DependenciesFirst(graphs, ordered) && forall v :: v in ordered <==> Needed(graphs, packages, v)
    ensures packages == {ALL} ==> (DependenciesFirst(graphs, ordered) <==> EdgesKept(graphs))
    ensures packages == {ALL} ==> forall v :: v in ordered <==> Needed(graphs, packages, v)
  {
    hide Agree, Accumulated, DependentsFirst, DependenciesFirst, OrderOf, AllPackages, EdgesKept, InSome;
    var list := new BuildList();
    var rest := packages;
    ghost var done: set<Package> := {};
    assert done + rest == packages;
    AccumulateNone(graphs, packages);
    while rest != {}
      invariant rest !! done && rest + done == done + rest == packages
      invariant NoDuplicates(list.items) && Accumulated(graphs, done, rest, list.items)
      decreases |rest|
    {
      var pkg :| pkg in rest;
      AccumulateNext(graphs, done, rest, list.items, pkg);
      OrderOfDistinct(graphs, pkg, list.items);
      GenerateBuildOrder(graphs, pkg, list);
      rest, done := rest - {pkg}, done + {pkg};
    }
    assert done == packages;
    ordered := Reverse(list.items);
    AccumulatedAll(graphs, packages, list.items);
  }

  lemma AccumulatedAll(graphs: seq<Graph>, packages: set<Package>, s: seq<Package>)
    requires AllSound(graphs) && Selectable(graphs, packages + {}) && Accumulated(graphs, packages, {}, s)
    ensures NoDuplicates(Reverse(s))
    ensures forall v :: v in Reverse(s) ==> v != ALL && InSome(graphs, v)
    ensures forall p :: p in packages && p != ALL && InSome(graphs, p) ==> p in Reverse(s)
    ensures forall p :: packages == {p} ==> s == OrderOf(graphs, p, [])
    ensures Agree(graphs) ==> DependenciesFirst(graphs, Reverse(s)) && forall v :: v in Reverse(s) <==> Needed(graphs, packages, v)
    ensures packages == {ALL} ==> (DependenciesFirst(graphs, Reverse(s)) <==> EdgesKept(graphs))
    ensures packages == {ALL} ==> forall v :: v in Reverse(s) <==> Needed(graphs, packages, v)
  {
    hide Agree, AllPackages, EdgesKept, DependentsFirst, DependenciesFirst, NeededIn, Before, InSome;
    assert packages + {} == packages;
    ReverseFacts(s);
    if DependentsFirst(graphs, s) { ReverseOrder(graphs, s); }
    if DependenciesFirst(graphs, Reverse(s)) { ReverseBack(graphs, s); }
    forall v ensures v in Reverse(s) <==> v in s {
      assert v in Elements(Reverse(s)) <==> v in Elements(s);
    }
    if packages == {ALL} {
      AllPackagesMembers(graphs);
      AppendToEmpty(AllPackages(graphs));
      MergeRespectsIff(graphs);
    }
  }

  lemma NeededAdd(graphs: seq<Graph>, packages: set<Package>, p: Package, v: Package)
    ensures Needed(graphs, packages + {p}, v) <==> Needed(graphs, packages, v) || NeededIn(graphs, |graphs|, p, v)
  {
    if NeededIn(graphs, |graphs|, p, v) { assert p in packages + {p}; }
    if Needed(graphs, packages, v) {
      var q :| q in packages && NeededIn(graphs, |graphs|, q, v);
      assert q in packages + {p};
    }
  }

  /** t is a tool of one of the packages. */
  ghost predicate ToolOf(toolsOf: map<Package, set<Package>>, packages: seq<Package>, t: Package) {
    exists p :: p in packages && p != ALL && p in toolsOf && t in toolsOf[p]
  }

  /** `get_tools` */
  method GetTools(toolsOf: map<Package, set<Package>>, packages: seq<Package>) returns (tools: set<Package>)
    ensures forall t :: t in tools <==> ToolOf(toolsOf, packages, t)
    ensures forall t :: t in tools <==> exists p :: p in packages && p != ALL && p in toolsOf && t in toolsOf[p]
  {
    tools := {};
    for i := 0 to |packages|
      invariant forall t :: t in tools <==> ToolOf(toolsOf, packages[..i], t)
    {
      var pkg := packages[i];
      assert packages[..i + 1] == packages[..i] + [pkg];
      forall t ensures ToolOf(toolsOf, packages[..i + 1], t) <==>
          ToolOf(toolsOf, packages[..i], t) || (pkg != ALL && pkg in toolsOf && t in toolsOf[pkg])
      {
        ToolOfSnoc(toolsOf, packages[..i], pkg, t);
      }
      if pkg != ALL && pkg in toolsOf {
        tools := tools + (toolsOf[pkg] - tools);
      }
    }
    assert packages[..|packages|] == packages;
  }

  lemma ToolOfSnoc(toolsOf: map<Package, set<Package>>, packages: seq<Package>, p: Package, t: Package)
    ensures ToolOf(toolsOf, packages + [p], t) <==>
      ToolOf(toolsOf, packages, t) || (p != ALL && p in toolsOf && t in toolsOf[p])
  {
    if ToolOf(toolsOf, packages, t) {
      var q :| q in packages && q != ALL && q in toolsOf && t in toolsOf[q];
      assert q in packages + [p];
    }
    assert p in packages + [p];
  }

  /** The members of s that keep(x) holds of, in order. */
  function Filter(s: seq<Package>, keep: Package -> bool): (r: seq<Package>)
    ensures forall x :: x in r <==> x in s && keep(x)
  {
    if s == [] then []
    else
      var t := Filter(s[..|s| - 1], keep);
      var x := s[|s| - 1];
      assert s == s[..|s| - 1] + [x];
      if keep(x) then t + [x] else t
  }

  lemma {:induction false} FilterOrder(s: seq<Package>, keep: Package -> bool)
    requires NoDuplicates(s)
    ensures NoDuplicates(Filter(s, keep))
    ensures forall u, v :: keep(u) && keep(v) && Before(s, u, v) ==> Before(Filter(s, keep), u, v)
    decreases |s|
  {
    if s != [] {
      var init, x := s[..|s| - 1], s[|s| - 1];
      assert s == init + [x];
      FilterOrder(init, keep);
      FilterSnoc(init, x, keep, Filter(init, keep));
    }
  }

  lemma FilterSnoc(s: seq<Package>, x: Package, keep: Package -> bool, t: seq<Package>)
    requires NoDuplicates(s + [x]) && NoDuplicates(t)
    requires forall y :: y in t <==> y in s && keep(y)
    requires forall u, v :: keep(u) && keep(v) && Before(s, u, v) ==> Before(t, u, v)
    ensures var r := if keep(x) then t + [x] else t;
            NoDuplicates(r) && forall u, v :: keep(u) && keep(v) && Before(s + [x], u, v) ==> Before(r, u, v)
  {
    var r := if keep(x) then t + [x] else t;
    assert x !in s by {
      forall j | 0 <= j < |s| ensures s[j] != x {
        assert (s + [x])[j] == s[j] && (s + [x])[|s|] == x;
      }
    }
    if keep(x) { AppendFacts(t, x); }
    forall u, v | keep(u) && keep(v) && Before(s + [x], u, v) ensures Before(r, u, v) {
      var i, j :| 0 <= i < j < |s + [x]| && (s + [x])[i] == u && (s + [x])[j] == v;
      if j < |s| { BeforeAt(s, i, j); }
    }
  }

  lemma ConcatBefore(a: seq<Package>, b: seq<Package>, u: Package, v: Package)
    ensures Before(a, u, v) || Before(b, u, v) || (u in a && v in b) ==> Before(a + b, u, v)
  {
    var s := a + b;
    if Before(a, u, v) {
      var i, j :| 0 <= i < j < |a| && a[i] == u && a[j] == v;
      BeforeAt(s, i, j);
    } else if Before(b, u, v) {
      var i, j :| 0 <= i < j < |b| && b[i] == u && b[j] == v;
      BeforeAt(s, |a| + i, |a| + j);
    } else if u in a && v in b {
      var i :| 0 <= i < |a| && a[i] == u;
      var j :| 0 <= j < |b| && b[j] == v;
      BeforeAt(s, i, |a| + j);
    }
  }

  function IsIn(s: set<Package>): Package -> bool {
    x => x in s
  }

  /** Packages the host tools did not already cover. */
  function NotIn(s: seq<Package>): Package -> bool {
    x => x !in s
  }

  lemma ConcatDistinct(a: seq<Package>, b: seq<Package>)
    requires NoDuplicates(a) && NoDuplicates(b) && forall x :: x in b ==> x !in a
    ensures NoDuplicates(a + b)
  {
    forall i, j | 0 <= i < j < |a + b| ensures (a + b)[i] != (a + b)[j] {
      if i < |a| <= j { assert a[i] in a && b[j - |a|] in b; }
    }
  }

  lemma HostToolsEdge(pg: seq<Graph>, tg: seq<Graph>, t: seq<Package>, p: seq<Package>, i: nat, u: Package, v: Package)
    requires Agree(pg + tg) && DependenciesFirst(tg, t) && DependenciesFirst(pg, p)
    requires i < |pg + tg| && Edge((pg + tg)[i], u, v) && u in t + Filter(p, NotIn(t))
    ensures Before(t + Filter(p, NotIn(t)), v, u)
  {
    var r := Filter(p, NotIn(t));
    ConcatBefore(t, r, v, u);
    if u in t {
      var j :| 0 <= j < |tg| && u in tg[j];
      assert (pg + tg)[|pg| + j] == tg[j];
      AgreedEdge(pg + tg, |pg| + j, i, u, v);
      assert Before(t, v, u);
    } else {
      assert u in p;
      var j :| 0 <= j < |pg| && u in pg[j];
      assert (pg + tg)[j] == pg[j];
      AgreedEdge(pg + tg, j, i, u, v);
      BeforeMembers(p, v, u);
      FilterOrder(p, NotIn(t));
    }
  }

  /** When target and host are the same, building the tools first and then the packages they do
      not cover builds each package once, after everything it depends on in any graph. */
  lemma HostToolsFirst(pg: seq<Graph>, tg: seq<Graph>, t: seq<Package>, p: seq<Package>)
    requires Agree(pg + tg) && DependenciesFirst(tg, t) && DependenciesFirst(pg, p)
    ensures DependenciesFirst(pg + tg, t + Filter(p, NotIn(t)))
    ensures forall v :: v in t + Filter(p, NotIn(t)) <==> v in t || v in p
  {
    var r := Filter(p, NotIn(t));
    FilterOrder(p, NotIn(t));
    ConcatDistinct(t, r);
    forall v ensures v in t + r <==> v in t || v in p {
      assert v in t + r <==> v in t || v in r;
    }
    forall u | u in t + r ensures u != ALL && InSome(pg + tg, u) {
      if u in t {
        var j :| 0 <= j < |tg| && u in tg[j];
        assert u in (pg + tg)[|pg| + j];
      } else {
        var j :| 0 <= j < |pg| && u in pg[j];
        assert u in (pg + tg)[j];
      }
    }
    forall i, u, v | 0 <= i < |pg + tg| && u in t + r && Edge((pg + tg)[i], u, v) ensures Before(t + r, v, u) {
      HostToolsEdge(pg, tg, t, p, i, u, v);
    }
  }

  /** In such an order a package comes after everything it depends on, however indirectly. */
  lemma AfterAllDependencies(graphs: seq<Graph>, s: seq<Package>, i: nat, u: Package, v: Package)
    requires DependenciesFirst(graphs, s) && i < |graphs| && u in s && DependsOn(graphs[i], u, v)
    ensures Before(s, v, u)
  {
    var path :| WalkFromTo(graphs[i], path, u, v);
    assert Edge(graphs[i], path[0], path[1]);
    for k := 1 to |path| - 1
      invariant Before(s, path[k], u)
    {
      BeforeMembers(s, path[k], u);
      assert Edge(graphs[i], path[k], path[k + 1]);
      BeforeTransitive(s, path[k + 1], path[k], u);
    }
  }

  /** v is a tool of some needed package, or below such a tool. */
  ghost predicate NeededTool(graphs: seq<Graph>, packages: set<Package>, toolsOf: map<Package, set<Package>>,
                             toolsGraphs: seq<Graph>, v: Package)
  {
    exists p, t :: Needed(graphs, packages, p) && p in toolsOf && t in toolsOf[p]
                   && NeededIn(toolsGraphs, |toolsGraphs|, t, v)
  }

  lemma ToolsOfNeeded(graphs: seq<Graph>, packages: set<Package>, toolsOf: map<Package, set<Package>>,
                      s: seq<Package>, tools: set<Package>, toolsGraphs: seq<Graph>)
    requires forall p :: p in s <==> Needed(graphs, packages, p)
    requires DependenciesFirst(graphs, s)
    requires forall t :: t in tools <==> ToolOf(toolsOf, s, t)
    ensures forall v :: Needed(toolsGraphs, tools, v) <==> NeededTool(graphs, packages, toolsOf, toolsGraphs, v)
  {
    forall v ensures Needed(toolsGraphs, tools, v) <==> NeededTool(graphs, packages, toolsOf, toolsGraphs, v) {
      if Needed(toolsGraphs, tools, v) {
        var t :| t in tools && NeededIn(toolsGraphs, |toolsGraphs|, t, v);
        var p :| p in s && p != ALL && p in toolsOf && t in toolsOf[p];
        assert Needed(graphs, packages, p);
      }
      if NeededTool(graphs, packages, toolsOf, toolsGraphs, v) {
        var p, t :| Needed(graphs, packages, p) && p in toolsOf && t in toolsOf[p] && NeededIn(toolsGraphs, |toolsGraphs|, t, v);
        assert p in s;
        assert t in tools;
      }
    }
  }

  /** The build that build_central carries out: host tools, then packages. */
  method PlanBuild(packageGraphs: seq<Graph>, toolsGraphs: seq<Graph>, packageList: set<Package>, depOption: bool,
                   toolsOf: map<Package, set<Package>>, targetIsHost: bool)
    returns (toolsBuildList: seq<Package>, packageBuildList: seq<Package>, dep: bool)
    requires AllSound(packageGraphs) && AllSound(toolsGraphs)
    requires ALL in packageList ==> packageList == {ALL} && forall i :: 0 <= i < |packageGraphs| ==> ALL in packageGraphs[i]
    requires forall p :: p in toolsOf ==> ALL !in toolsOf[p]
    ensures dep <==> depOption || packageList == {ALL}
    ensures NoDuplicates(toolsBuildList) && NoDuplicates(packageBuildList)
    // the tools, before their dependents and complete
    ensures Agree(toolsGraphs) ==> DependenciesFirst(toolsGraphs, toolsBuildList)
    ensures dep && Agree(packageGraphs) && Agree(toolsGraphs) ==> forall v ::
      v in toolsBuildList <==> NeededTool(packageGraphs, packageList, toolsOf, toolsGraphs, v)
    // all dependencies, cross-compiling: the list is complete and in order
    ensures dep && !targetIsHost && Agree(packageGraphs) ==>
      DependenciesFirst(packageGraphs, packageBuildList)
      && forall v :: v in packageBuildList <==> Needed(packageGraphs, packageList, v)
    // every package, cross-compiling: in order exactly when the merge keeps every edge
    ensures packageList == {ALL} && !targetIsHost ==>
      (DependenciesFirst(packageGraphs, packageBuildList) <==> EdgesKept(packageGraphs))
      && forall v :: v in packageBuildList <==> Needed(packageGraphs, packageList, v)
    // all dependencies, native: what the tools do not cover, in order
    ensures dep && targetIsHost && Agree(packageGraphs) ==>
      (forall i, u, v ::
        (0 <= i < |packageGraphs| && u in packageBuildList && v in packageBuildList && DependsOn(packageGraphs[i], u, v))
        ==> Before(packageBuildList, v, u))
      && forall v :: v in packageBuildList <==> v !in toolsBuildList && Needed(packageGraphs, packageList, v)
    // all dependencies, native, packages and tools agreeing: tools then packages are one list in order
    ensures dep && targetIsHost && Agree(packageGraphs + toolsGraphs) ==>
      DependenciesFirst(packageGraphs + toolsGraphs, toolsBuildList + packageBuildList)
    // only the selected packages
    ensures !dep ==> toolsBuildList == []
    ensures !dep ==> forall v :: v in packageBuildList <==>
      v in packageList && exists i :: 0 <= i < |packageGraphs| && v in packageGraphs[i]
    ensures !dep && Agree(packageGraphs) ==>
      forall i, u, v ::
        (0 <= i < |packageGraphs| && u in packageBuildList && v in packageBuildList && DependsOn(packageGraphs[i], u, v))
        ==> Before(packageBuildList, v, u)
    // one package or `__all__`, graphs agreeing or not: the order of its own call, reversed, less the tools
    ensures dep && !targetIsHost ==> forall p :: packageList == {p} ==>
      packageBuildList == Reverse(OrderOf(packageGraphs, p, []))
    ensures dep && targetIsHost ==> forall p :: packageList == {p} ==>
      packageBuildList == Filter(Reverse(OrderOf(packageGraphs, p, [])), NotIn(toolsBuildList))
    ensures packageList == {ALL} && targetIsHost ==>
      forall v :: v in packageBuildList <==> v !in toolsBuildList && Needed(packageGraphs, packageList, v)
  {
    hide Agree, DependenciesFirst, AllSound, EdgesKept, Needed, NeededTool, NoDuplicates, InSome, OrderOf, Before, DependsOn;
    dep := depOption || packageList == {ALL};
    var depList := OrderPackages(packageGraphs, packageList);
    toolsBuildList := [];
    NoTools(packageGraphs, packageList, toolsOf, toolsGraphs);
    if !dep {
      packageBuildList := Filter(depList, IsIn(packageList));
      FilterOrder(depList, IsIn(packageList));
      SelectedMembers(packageGraphs, packageList, depList, IsIn(packageList));
      if Agree(packageGraphs) {
        FilterKeeps(packageGraphs, depList, IsIn(packageList));
      }
    } else {
      packageBuildList := depList;
      if toolsGraphs != [] {
        var tools := GetTools(toolsOf, packageBuildList);
        NoToolIsAll(toolsOf, packageBuildList, tools);
        toolsBuildList := OrderPackages(toolsGraphs, tools);
        if Agree(packageGraphs) {
          ToolsOfNeeded(packageGraphs, packageList, toolsOf, packageBuildList, tools, toolsGraphs);
        }
      }
    }
    if targetIsHost {
      ghost var before := packageBuildList;
      packageBuildList := Filter(packageBuildList, NotIn(toolsBuildList));
      FilterOrder(before, NotIn(toolsBuildList));
      if !dep {
        FilterAll(before, NotIn(toolsBuildList));
      } else {
        if Agree(packageGraphs) { FilterKeeps(packageGraphs, before, NotIn(toolsBuildList)); }
        if Agree(packageGraphs + toolsGraphs) {
          AgreeParts(packageGraphs, toolsGraphs);
          HostToolsFirst(packageGraphs, toolsGraphs, toolsBuildList, before);
        }
      }
    }
  }

  lemma NoTools(graphs: seq<Graph>, packages: set<Package>, toolsOf: map<Package, set<Package>>, toolsGraphs: seq<Graph>)
    ensures NoDuplicates<Package>([]) && DependenciesFirst(toolsGraphs, [])
    ensures toolsGraphs == [] ==> forall v :: !NeededTool(graphs, packages, toolsOf, toolsGraphs, v)
  {
  }

  lemma NoToolIsAll(toolsOf: map<Package, set<Package>>, s: seq<Package>, tools: set<Package>)
    requires forall p :: p in toolsOf ==> ALL !in toolsOf[p]
    requires forall t :: t in tools <==> ToolOf(toolsOf, s, t)
    ensures ALL !in tools
  {
  }

  lemma AgreeParts(a: seq<Graph>, b: seq<Graph>)
    requires Agree(a + b)
    ensures Agree(a) && Agree(b)
  {
    forall i, j, u | 0 <= i < |a| && 0 <= j < |a| && u in a[i] && u in a[j] && u != ALL
      ensures Elements(a[i][u]) == Elements(a[j][u])
    {
      assert (a + b)[i] == a[i] && (a + b)[j] == a[j];
    }
    forall i, j, u | 0 <= i < |b| && 0 <= j < |b| && u in b[i] && u in b[j] && u != ALL
      ensures Elements(b[i][u]) == Elements(b[j][u])
    {
      assert (a + b)[|a| + i] == b[i] && (a + b)[|a| + j] == b[j];
    }
  }

  lemma FilterKeeps(graphs: seq<Graph>, s: seq<Package>, keep: Package -> bool)
    requires DependenciesFirst(graphs, s)
    ensures NoDuplicates(Filter(s, keep))
    ensures forall i, u, v ::
      (0 <= i < |graphs| && u in Filter(s, keep) && v in Filter(s, keep) && DependsOn(graphs[i], u, v))
      ==> Before(Filter(s, keep), v, u)
  {
    var r := Filter(s, keep);
    FilterOrder(s, keep);
    forall i, u, v | 0 <= i < |graphs| && u in r && v in r && DependsOn(graphs[i], u, v) ensures Before(r, v, u) {
      AfterAllDependencies(graphs, s, i, u, v);
    }
  }

  lemma {:induction false} FilterAll(s: seq<Package>, keep: Package -> bool)
    requires forall x :: x in s ==> keep(x)
    ensures Filter(s, keep) == s
    decreases |s|
  {
    if s != [] {
      FilterAll(s[..|s| - 1], keep);
      assert s == s[..|s| - 1] + [s[|s| - 1]];
    }
  }

  /** Filtering for the selected packages keeps exactly those that some graph has, agreeing or not. */
  lemma SelectedMembers(graphs: seq<Graph>, packages: set<Package>, s: seq<Package>, keep: Package -> bool)
    requires ALL !in packages && forall v :: keep(v) <==> v in packages
    requires forall v :: v in s ==> v != ALL && InSome(graphs, v)
    requires forall p :: p in packages && p != ALL && InSome(graphs, p) ==> p in s
    ensures forall v :: v in Filter(s, keep) <==> v in packages && exists i :: 0 <= i < |graphs| && v in graphs[i]
  {
  }
}
