/** Orders that combine several graphs, and exactly when they respect all of them. */
module BuildMerge {
  import opened Graphs
  import opened BuildOrder
  import opened PackageGraphs

  // ----- families of graphs -----

  ghost predicate AllSound(graphs: seq<Graph>) {
    forall i :: 0 <= i < |graphs| ==> Sound(graphs[i])
  }

  /** Graphs that share a package list the same dependencies for it. */
  predicate Agree(graphs: seq<Graph>) {
    forall i, j, u :: 0 <= i < |graphs| && 0 <= j < |graphs| && u in graphs[i] && u in graphs[j] && u != ALL
      ==> Elements(graphs[i][u]) == Elements(graphs[j][u])
  }

  /** Agreement is about edges: the order of neighbours may differ. */
  lemma AgreeIff(graphs: seq<Graph>)
    ensures Agree(graphs) <==>
      forall i, j, u, v :: 0 <= i < |graphs| && 0 <= j < |graphs| && u != ALL && u in graphs[i] && Edge(graphs[j], u, v)
        ==> Edge(graphs[i], u, v)
  {
    if Agree(graphs) {
      forall i, j, u, v | 0 <= i < |graphs| && 0 <= j < |graphs| && u != ALL && u in graphs[i] && Edge(graphs[j], u, v)
        ensures Edge(graphs[i], u, v)
      {
        AgreedEdge(graphs, i, j, u, v);
      }
    } else {
      var i, j, u :| 0 <= i < |graphs| && 0 <= j < |graphs| && u in graphs[i] && u in graphs[j] && u != ALL
        && Elements(graphs[i][u]) != Elements(graphs[j][u]);
      if v :| v in graphs[i][u] && v !in graphs[j][u] {
        assert Edge(graphs[i], u, v) && !Edge(graphs[j], u, v);
      } else {
        var w :| w in graphs[j][u] && w !in graphs[i][u];
        assert Edge(graphs[j], u, w) && !Edge(graphs[i], u, w);
      }
    }
  }

  predicate InSome(graphs: seq<Graph>, u: Package) {
    exists i :: 0 <= i < |graphs| && u in graphs[i]
  }

  /** A duplicate-free list of packages, each before everything it depends on in any graph. */
  ghost predicate DependentsFirst(graphs: seq<Graph>, s: seq<Package>) {
    NoDuplicates(s) && (forall u :: u in s ==> u != ALL && InSome(graphs, u))
    && forall i, u, v :: 0 <= i < |graphs| && u in s && Edge(graphs[i], u, v) ==> Before(s, u, v)
  }

  /** A duplicate-free list of packages, each after everything it depends on in any graph. */
  ghost predicate DependenciesFirst(graphs: seq<Graph>, s: seq<Package>) {
    NoDuplicates(s) && (forall u :: u in s ==> u != ALL && InSome(graphs, u))
    && forall i, u, v :: 0 <= i < |graphs| && u in s && Edge(graphs[i], u, v) ==> Before(s, v, u)
  }

  lemma ReverseOrder(graphs: seq<Graph>, s: seq<Package>)
    requires DependentsFirst(graphs, s)
    ensures DependenciesFirst(graphs, Reverse(s))
  {
    ReverseFacts(s);
    forall u | u in Reverse(s) ensures u in s {
      assert u in Elements(Reverse(s));
    }
    forall i, u, v | 0 <= i < |graphs| && u in Reverse(s) && Edge(graphs[i], u, v) ensures Before(Reverse(s), v, u) {
      ReverseBefore(s, v, u);
    }
  }

  lemma ReverseBack(graphs: seq<Graph>, s: seq<Package>)
    requires DependenciesFirst(graphs, Reverse(s))
    ensures DependentsFirst(graphs, s)
  {
    var r := Reverse(s);
    forall i, j | 0 <= i < j < |s| ensures s[i] != s[j] {
      assert r[|s| - 1 - j] != r[|s| - 1 - i];
    }
    forall u | u in s ensures u in r {
      var i :| 0 <= i < |s| && s[i] == u;
      assert r[|s| - 1 - i] == u;
    }
    forall i, u, v | 0 <= i < |graphs| && u in s && Edge(graphs[i], u, v) ensures Before(s, u, v) {
      ReverseBefore(s, v, u);
    }
  }

  lemma AgreedEdge(graphs: seq<Graph>, i: nat, j: nat, u: Package, v: Package)
    requires Agree(graphs) && i < |graphs| && j < |graphs| && u != ALL
    requires u in graphs[i] && Edge(graphs[j], u, v)
    ensures Edge(graphs[i], u, v)
  {
    assert v in Elements(graphs[j][u]);
    assert v in Elements(graphs[i][u]);
  }

  lemma DependencyIsPackage(g: Graph, u: Package, v: Package)
    requires Sound(g) && DependsOn(g, u, v)
    ensures v in g && v != ALL
  {
    var w := LastStep(g, u, v);
    assert v in g[w];
  }

  /** Such a list contains whatever its members depend on. */
  lemma ClosedUnderDependencies(graphs: seq<Graph>, s: seq<Package>, i: nat, u: Package, v: Package)
    requires DependentsFirst(graphs, s) && i < |graphs| && u in s && DependsOn(graphs[i], u, v)
    ensures v in s
  {
    var path :| WalkFromTo(graphs[i], path, u, v);
    for k := 0 to |path| - 1
      invariant path[k] in s
    {
      assert Edge(graphs[i], path[k], path[k + 1]);
      BeforeMembers(s, path[k], path[k + 1]);
    }
  }

  // ----- one package, one graph of the family -----

  lemma AddFromGraph(graphs: seq<Graph>, i: nat, p: Package, s: seq<Package>)
    requires AllSound(graphs) && Agree(graphs) && i < |graphs| && p in graphs[i] && p != ALL
    requires DependentsFirst(graphs, s)
    ensures var r := SingleOrder(graphs[i], p, s);
            DependentsFirst(graphs, r) && Elements(r) == Elements(s) + {p} + Dependencies(graphs[i], p)
  {
    var g := graphs[i];
    if p in s {
      forall v | v in Dependencies(g, p) ensures v in s {
        ClosedUnderDependencies(graphs, s, i, p, v);
      }
    } else {
      AppendFacts(s, p);
      AddedOrder(graphs, i, p, s, Settle(g, p, s + [p]));
    }
  }

  lemma AddedOrder(graphs: seq<Graph>, i: nat, p: Package, s: seq<Package>, r: seq<Package>)
    requires AllSound(graphs) && Agree(graphs) && i < |graphs| && p in graphs[i] && p != ALL
    requires DependentsFirst(graphs, s)
    requires NoDuplicates(r) && Elements(r) == Elements(s) + {p} + Dependencies(graphs[i], p)
    requires Keeps(s, r, Dependencies(graphs[i], p)) && Ordered(graphs[i], {p} + Dependencies(graphs[i], p), r)
    ensures DependentsFirst(graphs, r)
  {
    var g := graphs[i];
    forall u | u in r ensures u != ALL && InSome(graphs, u) {
      assert u in Elements(r);
      if u in Dependencies(g, p) { DependencyIsPackage(g, p, u); }
    }
    forall j, u, v | 0 <= j < |graphs| && u in r && Edge(graphs[j], u, v) ensures Before(r, u, v) {
      assert u in Elements(r);
      if u in {p} + Dependencies(g, p) {
        AgreedEdge(graphs, i, j, u, v);
      } else {
        assert u in s;
      }
    }
  }

  // ----- one package, all graphs -----

  /** The list after `generate_build_order` visited the first k graphs for a package other than `__all__`. */
  ghost function AddFromGraphs(graphs: seq<Graph>, k: nat, p: Package, s: seq<Package>): (r: seq<Package>)
    requires AllSound(graphs) && k <= |graphs| && NoDuplicates(s)
    ensures NoDuplicates(r)
  {
    if k == 0 then s
    else
      var t := AddFromGraphs(graphs, k - 1, p, s);
      if p in graphs[k - 1] then SingleOrder(graphs[k - 1], p, t) else t
  }

  /** v is p itself or something p depends on, in one of the first k graphs. */
  ghost predicate NeededIn(graphs: seq<Graph>, k: nat, p: Package, v: Package)
    requires k <= |graphs|
  {
    exists i :: 0 <= i < k && p in graphs[i] && ((v == p && p != ALL) || DependsOn(graphs[i], p, v))
  }

  /** t is s with what p needs in the first k graphs. */
  ghost predicate AddedFrom(graphs: seq<Graph>, k: nat, p: Package, s: seq<Package>, t: seq<Package>)
    requires k <= |graphs|
  {
    DependentsFirst(graphs, t) && forall v :: v in t <==> v in s || NeededIn(graphs, k, p, v)
  }

  lemma AddedFromNext(graphs: seq<Graph>, k: nat, p: Package, s: seq<Package>, t: seq<Package>)
    requires AllSound(graphs) && Agree(graphs) && k < |graphs| && p != ALL && AddedFrom(graphs, k, p, s, t)
    ensures AddedFrom(graphs, k + 1, p, s, if p in graphs[k] then SingleOrder(graphs[k], p, t) else t)
  {
    hide SingleOrder, Agree, NeededIn, Acyclic, WellFormed;
    forall v ensures NeededIn(graphs, k + 1, p, v) <==>
        NeededIn(graphs, k, p, v) || (p in graphs[k] && (v == p || DependsOn(graphs[k], p, v)))
    {
      NeededInStep(graphs, k, p, v);
    }
    if p in graphs[k] {
      var r := SingleOrder(graphs[k], p, t);
      AddFromGraph(graphs, k, p, t);
      forall v ensures v in r <==> v in t || v == p || DependsOn(graphs[k], p, v) {
        assert v in r <==> v in Elements(r);
        assert Sound(graphs[k]);
        SoundDependencies(graphs[k], p, v);
      }
    }
  }

  lemma SoundDependencies(g: Graph, u: Package, v: Package)
    requires Sound(g)
    ensures v in Dependencies(g, u) <==> DependsOn(g, u, v)
  {
    InDependencies(g, u, v);
  }

  lemma {:induction false} AddFromGraphsFacts(graphs: seq<Graph>, k: nat, p: Package, s: seq<Package>)
    requires AllSound(graphs) && Agree(graphs) && k <= |graphs| && p != ALL && DependentsFirst(graphs, s)
    ensures AddedFrom(graphs, k, p, s, AddFromGraphs(graphs, k, p, s))
  {
    hide SingleOrder, Agree, Acyclic, WellFormed;
    if k != 0 {
      AddFromGraphsFacts(graphs, k - 1, p, s);
      AddedFromNext(graphs, k - 1, p, s, AddFromGraphs(graphs, k - 1, p, s));
    }
  }

  lemma NeededInStep(graphs: seq<Graph>, k: nat, p: Package, v: Package)
    requires k < |graphs|
    ensures NeededIn(graphs, k + 1, p, v) <==>
      NeededIn(graphs, k, p, v) || (p in graphs[k] && ((v == p && p != ALL) || DependsOn(graphs[k], p, v)))
  {
  }

  /** The first graph that holds p. */
  predicate FirstHolder(graphs: seq<Graph>, i: nat, p: Package) {
    i < |graphs| && p in graphs[i] && forall k :: 0 <= k < i ==> p !in graphs[k]
  }

  /** Whether the graphs agree or not, only the first graph that holds p adds anything for p. */
  lemma {:induction false} OnlyFirstHolder(graphs: seq<Graph>, k: nat, i: nat, p: Package, s: seq<Package>)
    requires AllSound(graphs) && k <= |graphs| && NoDuplicates(s) && FirstHolder(graphs, i, p)
    ensures AddFromGraphs(graphs, k, p, s) == if i < k then SingleOrder(graphs[i], p, s) else s
    decreases k
  {
    hide Acyclic, WellFormed, NoDuplicates;
    if k > 0 {
      OnlyFirstHolder(graphs, k - 1, i, p, s);
      if i < k - 1 {
        assert p in Elements(SingleOrder(graphs[i], p, s));
      }
    }
  }

  lemma SingleContents(g: Graph, p: Package, s: seq<Package>, v: Package)
    requires Sound(g) && p in g && NoDuplicates(s)
    ensures v in SingleOrder(g, p, s) <==> v in s || (p !in s && (v == p || DependsOn(g, p, v)))
  {
    var r := SingleOrder(g, p, s);
    InDependencies(g, p, v);
    assert v in r <==> v in Elements(r);
    if p !in s {
      AppendFacts(s, p);
      assert Elements(r) == Elements(s + [p]) + Dependencies(g, p);
    }
  }

  /** The exact contents of the list after p: what the first graph that holds p puts below it. */
  lemma AddedContents(graphs: seq<Graph>, i: nat, p: Package, s: seq<Package>)
    requires AllSound(graphs) && NoDuplicates(s) && FirstHolder(graphs, i, p)
    ensures forall v :: v in AddFromGraphs(graphs, |graphs|, p, s) <==>
      v in s || (p !in s && (v == p || DependsOn(graphs[i], p, v)))
  {
    hide Acyclic, WellFormed, NoDuplicates, SingleOrder, AddFromGraphs;
    OnlyFirstHolder(graphs, |graphs|, i, p, s);
    assert Sound(graphs[i]);
    forall v ensures v in SingleOrder(graphs[i], p, s) <==> v in s || (p !in s && (v == p || DependsOn(graphs[i], p, v))) {
      SingleContents(graphs[i], p, s, v);
    }
  }

  /** The first graph that holds p, among the first k + 1. */
  lemma {:induction false} FindHolder(graphs: seq<Graph>, k: nat, p: Package) returns (i: nat)
    requires k < |graphs| && p in graphs[k]
    ensures i <= k && FirstHolder(graphs, i, p)
    decreases k
  {
    if j :| 0 <= j < k && p in graphs[j] {
      i := FindHolder(graphs, j, p);
    } else {
      i := k;
    }
  }

  lemma {:induction false} NoHolder(graphs: seq<Graph>, k: nat, p: Package, s: seq<Package>)
    requires AllSound(graphs) && k <= |graphs| && NoDuplicates(s) && !InSome(graphs, p)
    ensures AddFromGraphs(graphs, k, p, s) == s
    decreases k
  {
    if k > 0 { NoHolder(graphs, k - 1, p, s); }
  }

  /** The list only grows, by packages of the graphs, and p is in it if any graph holds p. */
  lemma AddedMembers(graphs: seq<Graph>, p: Package, s: seq<Package>)
    requires AllSound(graphs) && NoDuplicates(s) && p != ALL
    ensures var r := AddFromGraphs(graphs, |graphs|, p, s);
            (forall v :: v in s ==> v in r) && (InSome(graphs, p) ==> p in r)
            && forall v :: v in r ==> v in s || (v != ALL && InSome(graphs, v))
  {
    hide Acyclic, WellFormed, AddFromGraphs;
    if InSome(graphs, p) {
      var k :| 0 <= k < |graphs| && p in graphs[k];
      var i := FindHolder(graphs, k, p);
      AddedContents(graphs, i, p, s);
      assert Sound(graphs[i]);
      forall v | DependsOn(graphs[i], p, v) ensures v != ALL && InSome(graphs, v) {
        DependencyIsPackage(graphs[i], p, v);
      }
    } else {
      NoHolder(graphs, |graphs|, p, s);
    }
  }

  /** s holds whatever its members depend on in any graph. */
  ghost predicate Complete(graphs: seq<Graph>, s: seq<Package>) {
    forall i, u, v :: 0 <= i < |graphs| && u in s && Edge(graphs[i], u, v) ==> v in s
  }

  /** Starting from nothing, building p omits no dependency if and only if whatever p or a package
      below it needs in any graph is below p in the first graph that holds p. */
  lemma NothingMissingIff(graphs: seq<Graph>, i: nat, p: Package)
    requires AllSound(graphs) && FirstHolder(graphs, i, p)
    ensures Complete(graphs, AddFromGraphs(graphs, |graphs|, p, [])) <==>
      forall e, u, v :: 0 <= e < |graphs| && (u == p || DependsOn(graphs[i], p, u)) && Edge(graphs[e], u, v) ==>
        v == p || DependsOn(graphs[i], p, v)
  {
    hide Acyclic, WellFormed, AllSound, AddFromGraphs, DependsOn;
    AddedContents(graphs, i, p, []);
    var r := AddFromGraphs(graphs, |graphs|, p, []);
    if Complete(graphs, r) {
      forall e, u, v | 0 <= e < |graphs| && (u == p || DependsOn(graphs[i], p, u)) && Edge(graphs[e], u, v)
        ensures v == p || DependsOn(graphs[i], p, v)
      {
        assert u in r;
        assert v in r;
      }
    }
  }

  // ----- `__all__`: merging the orders of all graphs -----

  /** Appends each element that is not in the list yet. */
  function AppendNew(s: seq<Package>, xs: seq<Package>): (r: seq<Package>)
    decreases |xs|
  {
    if xs == [] then s
    else
      var t := AppendNew(s, xs[..|xs| - 1]);
      if xs[|xs| - 1] in t then t else t + [xs[|xs| - 1]]
  }

  /** s comes first and unchanged, then the new elements of xs in their order. */
  ghost predicate Merged(s: seq<Package>, xs: seq<Package>, r: seq<Package>) {
    NoDuplicates(r) && Elements(r) == Elements(s) + Elements(xs) && Keeps(s, r, {})
    && forall u, v :: u !in s && Before(xs, v, u) ==> Before(r, v, u)
  }

  lemma MergedSnoc(s: seq<Package>, xs: seq<Package>, t: seq<Package>, x: Package)
    requires NoDuplicates(xs + [x]) && Merged(s, xs, t)
    ensures Merged(s, xs + [x], if x in t then t else t + [x])
  {
    var r := if x in t then t else t + [x];
    assert Elements(xs + [x]) == Elements(xs) + {x};
    assert x !in xs by {
      forall j | 0 <= j < |xs| ensures xs[j] != x {
        assert (xs + [x])[j] == xs[j] && (xs + [x])[|xs|] == x;
      }
    }
    if x !in t { AppendFacts(t, x); }
    forall u, v | u !in s && Before(xs + [x], v, u) ensures Before(r, v, u) {
      var i, j :| 0 <= i < j < |xs + [x]| && (xs + [x])[i] == v && (xs + [x])[j] == u;
      if j < |xs| {
        BeforeAt(xs, i, j);
      } else {
        assert v in Elements(t) && x !in Elements(s) + Elements(xs);
      }
    }
  }

  lemma {:induction false} AppendNewFacts(s: seq<Package>, xs: seq<Package>)
    requires NoDuplicates(s) && NoDuplicates(xs)
    ensures Merged(s, xs, AppendNew(s, xs))
    decreases |xs|
  {
    if xs != [] {
      var init, x := xs[..|xs| - 1], xs[|xs| - 1];
      AppendNewFacts(s, init);
      assert xs == init + [x];
      MergedSnoc(s, init, AppendNew(s, init), x);
    }
  }

  /** `ordered_packages` after k graphs: dependencies first. */
  ghost function MergedOrder(graphs: seq<Graph>, k: nat): seq<Package>
    requires AllSound(graphs) && k <= |graphs| && forall i :: 0 <= i < |graphs| ==> ALL in graphs[i]
  {
    if k == 0 then []
    else AppendNew(MergedOrder(graphs, k - 1), Reverse(SingleOrder(graphs[k - 1], ALL, [])))
  }

  /** The order of one graph from `__all__`: everything below it, dependents first. */
  lemma OrderFromAll(g: Graph)
    requires Sound(g) && ALL in g
    ensures var bp := SingleOrder(g, ALL, []);
            NoDuplicates(bp) && Elements(bp) == {ALL} + Dependencies(g, ALL) && Ordered(g, Elements(bp), bp)
  {
    AppendFacts([], ALL);
    assert [] + [ALL] == [ALL];
  }

  /** The list without the first occurrence of x: `list.remove`, when x is there. */
  function Without(s: seq<Package>, x: Package): seq<Package> {
    if x in s then RemoveAt(s, IndexOf(s, x)) else s
  }

  lemma RemoveAtElements(s: seq<Package>, k: nat)
    requires NoDuplicates(s) && k < |s|
    ensures forall u :: u in RemoveAt(s, k) <==> u in s && u != s[k]
  {
    var r := RemoveAt(s, k);
    forall u | u in s && u != s[k] ensures u in r {
      var j :| 0 <= j < |s| && s[j] == u;
      assert r[if j < k then j else j - 1] == u;
    }
    forall u | u in r ensures u in s && u != s[k] {
      var j :| 0 <= j < |r| && r[j] == u;
      assert u == s[if j < k then j else j + 1];
    }
  }

  lemma RemoveAtBefore(s: seq<Package>, k: nat, u: Package, v: Package)
    requires k < |s| && u != s[k] && v != s[k] && Before(s, u, v)
    ensures Before(RemoveAt(s, k), u, v)
  {
    var a, b :| 0 <= a < b < |s| && s[a] == u && s[b] == v;
    BeforeAt(RemoveAt(s, k), if a < k then a else a - 1, if b < k then b else b - 1);
  }

  lemma WithoutFacts(s: seq<Package>, x: Package)
    requires NoDuplicates(s)
    ensures NoDuplicates(Without(s, x)) && forall u :: u in Without(s, x) <==> u in s && u != x
    ensures forall u, v :: u != x && v != x && Before(s, u, v) ==> Before(Without(s, x), u, v)
  {
    if x in s {
      RemoveDistinct(s, IndexOf(s, x));
      RemoveAtElements(s, IndexOf(s, x));
      forall u, v | u != x && v != x && Before(s, u, v) ensures Before(Without(s, x), u, v) {
        RemoveAtBefore(s, IndexOf(s, x), u, v);
      }
    }
  }

  /** What `generate_all_build_order` contributes to a list. */
  ghost function AllPackages(graphs: seq<Graph>): seq<Package>
    requires AllSound(graphs) && forall i :: 0 <= i < |graphs| ==> ALL in graphs[i]
  {
    Without(Reverse(MergedOrder(graphs, |graphs|)), ALL)
  }

  // ----- what the merge contains -----

  lemma {:induction false} AppendNewPrefix(s: seq<Package>, xs: seq<Package>)
    ensures s <= AppendNew(s, xs)
    decreases |xs|
  {
    if xs != [] { AppendNewPrefix(s, xs[..|xs| - 1]); }
  }

  lemma ReversedFromAll(g: Graph, v: Package)
    requires Sound(g) && ALL in g
    ensures NoDuplicates(Reverse(SingleOrder(g, ALL, [])))
    ensures v in Reverse(SingleOrder(g, ALL, [])) <==> v == ALL || DependsOn(g, ALL, v)
  {
    var bp := SingleOrder(g, ALL, []);
    OrderFromAll(g);
    ReverseFacts(bp);
    InDependencies(g, ALL, v);
    assert v in Reverse(bp) <==> v in Elements(Reverse(bp));
  }

  lemma LaterThanPrefix(s: seq<Package>, r: seq<Package>, u: Package, v: Package)
    requires s <= r && u in s && v in r && v !in s
    ensures Before(r, u, v)
  {
    var i :| 0 <= i < |s| && s[i] == u;
    var j :| 0 <= j < |r| && r[j] == v;
    assert r[i] == u;
    assert forall k :: 0 <= k < |s| ==> r[k] == s[k] && s[k] != v;
    BeforeAt(r, i, j);
  }

  /** s holds `__all__` and everything below it in one of the first k graphs. */
  ghost predicate MergedFrom(graphs: seq<Graph>, k: nat, s: seq<Package>)
    requires k <= |graphs|
  {
    NoDuplicates(s) && forall v :: v in s <==> (v == ALL && k > 0) || NeededIn(graphs, k, ALL, v)
  }

  lemma MergeNext(graphs: seq<Graph>, k: nat, s: seq<Package>)
    requires AllSound(graphs) && k < |graphs| && ALL in graphs[k] && MergedFrom(graphs, k, s)
    ensures MergedFrom(graphs, k + 1, AppendNew(s, Reverse(SingleOrder(graphs[k], ALL, []))))
  {
    hide SingleOrder, NeededIn, Acyclic, WellFormed, AppendNew;
    var xs := Reverse(SingleOrder(graphs[k], ALL, []));
    var r := AppendNew(s, xs);
    assert Sound(graphs[k]);
    ReversedFromAll(graphs[k], ALL);
    AppendNewFacts(s, xs);
    forall v ensures v in r <==> v in s || v == ALL || DependsOn(graphs[k], ALL, v) {
      ReversedFromAll(graphs[k], v);
      assert v in r <==> v in Elements(r);
    }
    forall v ensures NeededIn(graphs, k + 1, ALL, v) <==> NeededIn(graphs, k, ALL, v) || DependsOn(graphs[k], ALL, v) {
      NeededInStep(graphs, k, ALL, v);
    }
  }

  lemma MergedNothing(graphs: seq<Graph>)
    ensures MergedFrom(graphs, 0, [])
  {
  }

  lemma {:induction false} MergedMembers(graphs: seq<Graph>, k: nat)
    requires AllSound(graphs) && k <= |graphs| && forall i :: 0 <= i < |graphs| ==> ALL in graphs[i]
    ensures MergedFrom(graphs, k, MergedOrder(graphs, k))
  {
    hide Acyclic, WellFormed, SingleOrder, AppendNew, MergedFrom;
    if k == 0 {
      MergedNothing(graphs);
    } else {
      MergedMembers(graphs, k - 1);
      MergeNext(graphs, k - 1, MergedOrder(graphs, k - 1));
    }
  }

  /** Later graphs only add to the end. */
  lemma {:induction false} MergedPrefix(graphs: seq<Graph>, k: nat, m: nat)
    requires AllSound(graphs) && k <= m <= |graphs| && forall i :: 0 <= i < |graphs| ==> ALL in graphs[i]
    ensures MergedOrder(graphs, k) <= MergedOrder(graphs, m)
    decreases m
  {
    hide Acyclic, WellFormed, SingleOrder, AppendNew;
    if k < m {
      MergedPrefix(graphs, k, m - 1);
      AppendNewPrefix(MergedOrder(graphs, m - 1), Reverse(SingleOrder(graphs[m - 1], ALL, [])));
    }
  }

  // ----- the order of the merge -----

  /** Graph i is the first in which u is below `__all__`. */
  ghost predicate FirstBelow(graphs: seq<Graph>, i: nat, u: Package) {
    i < |graphs| && DependsOn(graphs[i], ALL, u) && forall k :: 0 <= k < i ==> !DependsOn(graphs[k], ALL, u)
  }

  /** Some graph is the first, among the first k + 1, in which u is below `__all__`. */
  lemma {:induction false} FirstGraph(graphs: seq<Graph>, k: nat, u: Package) returns (i: nat)
    requires k < |graphs| && DependsOn(graphs[k], ALL, u)
    ensures i <= k && FirstBelow(graphs, i, u)
    decreases k
  {
    if j :| 0 <= j < k && DependsOn(graphs[j], ALL, u) {
      i := FirstGraph(graphs, j, u);
    } else {
      i := k;
    }
  }

  lemma MergedWhen(graphs: seq<Graph>, i: nat, u: Package, k: nat)
    requires AllSound(graphs) && k <= |graphs| && FirstBelow(graphs, i, u)
    requires forall i :: 0 <= i < |graphs| ==> ALL in graphs[i]
    ensures u in MergedOrder(graphs, k) <==> i < k
  {
    hide MergedOrder, Acyclic, WellFormed;
    MergedMembers(graphs, k);
    assert u != ALL by {
      assert Sound(graphs[i]);
      DependencyIsPackage(graphs[i], ALL, u);
    }
  }

  lemma EarlierGraphFirst(graphs: seq<Graph>, k: nat, i: nat, j: nat, u: Package, v: Package)
    requires AllSound(graphs) && k <= |graphs| && forall i :: 0 <= i < |graphs| ==> ALL in graphs[i]
    requires FirstBelow(graphs, i, u) && FirstBelow(graphs, j, v) && j < i < k
    ensures Before(MergedOrder(graphs, k), v, u)
  {
    hide MergedOrder, FirstBelow, Acyclic, WellFormed;
    MergedWhen(graphs, i, u, i);
    MergedWhen(graphs, i, u, k);
    MergedWhen(graphs, j, v, i);
    MergedPrefix(graphs, i, k);
    LaterThanPrefix(MergedOrder(graphs, i), MergedOrder(graphs, k), v, u);
  }

  lemma SameGraphOrder(graphs: seq<Graph>, k: nat, i: nat, u: Package, v: Package)
    requires AllSound(graphs) && k <= |graphs| && forall i :: 0 <= i < |graphs| ==> ALL in graphs[i]
    requires FirstBelow(graphs, i, u) && FirstBelow(graphs, i, v) && i < k
    requires Before(SingleOrder(graphs[i], ALL, []), u, v)
    ensures Before(MergedOrder(graphs, k), v, u)
  {
    hide FirstBelow, Acyclic, WellFormed, SingleOrder, AppendNew;
    var s, bp := MergedOrder(graphs, i), SingleOrder(graphs[i], ALL, []);
    var r := MergedOrder(graphs, i + 1);
    assert Sound(graphs[i]);
    MergedMembers(graphs, i);
    MergedWhen(graphs, i, u, i);
    ReversedFromAll(graphs[i], u);
    AppendNewFacts(s, Reverse(bp));
    assert r == AppendNew(s, Reverse(bp));
    ReverseBefore(bp, v, u);
    MergedPrefix(graphs, i + 1, k);
    BeforeInPrefix(r, MergedOrder(graphs, k), v, u);
  }

  lemma BeforeInPrefix(s: seq<Package>, r: seq<Package>, u: Package, v: Package)
    requires s <= r && Before(s, u, v)
    ensures Before(r, u, v)
  {
    var i, j :| 0 <= i < j < |s| && s[i] == u && s[j] == v;
    BeforeAt(r, i, j);
  }

  lemma BeforeTotal(s: seq<Package>, u: Package, v: Package)
    requires u in s && v in s && u != v
    ensures Before(s, u, v) || Before(s, v, u)
  {
    var i :| 0 <= i < |s| && s[i] == u;
    var j :| 0 <= j < |s| && s[j] == v;
    if i < j { BeforeAt(s, i, j); } else { BeforeAt(s, j, i); }
  }

  /** The merge orders two packages by the graphs that first bring them below `__all__`, and within
      one graph by the order of that graph. */
  lemma MergedBefore(graphs: seq<Graph>, k: nat, i: nat, j: nat, u: Package, v: Package)
    requires AllSound(graphs) && k <= |graphs| && forall i :: 0 <= i < |graphs| ==> ALL in graphs[i]
    requires FirstBelow(graphs, i, u) && FirstBelow(graphs, j, v) && i < k && j < k
    ensures Before(MergedOrder(graphs, k), v, u) <==> j < i || (j == i && Before(SingleOrder(graphs[i], ALL, []), u, v))
  {
    hide MergedOrder, FirstBelow, Acyclic, WellFormed, SingleOrder;
    var s := MergedOrder(graphs, k);
    MergedMembers(graphs, k);
    if j < i {
      EarlierGraphFirst(graphs, k, i, j, u, v);
    } else if i < j {
      EarlierGraphFirst(graphs, k, j, i, v, u);
      BeforeAsymmetric(s, u, v);
    } else {
      BelowInOrder(graphs, i, u);
      BelowInOrder(graphs, i, v);
      var bp := SingleOrder(graphs[i], ALL, []);
      if u == v {
        NotBeforeItself(s, u);
        NotBeforeItself(bp, u);
      } else if Before(bp, u, v) {
        SameGraphOrder(graphs, k, i, u, v);
      } else {
        BeforeTotal(bp, u, v);
        SameGraphOrder(graphs, k, i, v, u);
        BeforeAsymmetric(s, u, v);
      }
    }
  }

  lemma NotBeforeItself(s: seq<Package>, u: Package)
    requires NoDuplicates(s)
    ensures !Before(s, u, u)
  {
  }

  lemma BelowInOrder(graphs: seq<Graph>, i: nat, u: Package)
    requires AllSound(graphs) && FirstBelow(graphs, i, u) && ALL in graphs[i]
    ensures NoDuplicates(SingleOrder(graphs[i], ALL, [])) && u in SingleOrder(graphs[i], ALL, [])
  {
    var g := graphs[i];
    OrderFromAll(g);
    InDependencies(g, ALL, u);
    assert u in Elements(SingleOrder(g, ALL, []));
  }

  // ----- the list that is handed on -----

  lemma ReversedWithout(s: seq<Package>, u: Package, v: Package)
    requires NoDuplicates(s) && u != ALL && v != ALL
    ensures Before(Without(Reverse(s), ALL), u, v) <==> Before(s, v, u)
  {
    var t, r := Reverse(s), Without(Reverse(s), ALL);
    ReverseFacts(s);
    ReverseBefore(s, u, v);
    WithoutFacts(t, ALL);
    if Before(r, u, v) {
      BeforeMembers(r, u, v);
      BeforeAsymmetric(r, u, v);
      if u == v { NotBeforeItself(r, u); }
      BeforeTotal(t, u, v);
    }
  }

  /** The merged order holds each package below any `__all__` once, whether the graphs agree or not. */
  lemma AllPackagesMembers(graphs: seq<Graph>)
    requires AllSound(graphs) && forall i :: 0 <= i < |graphs| ==> ALL in graphs[i]
    ensures NoDuplicates(AllPackages(graphs))
    ensures forall v :: v in AllPackages(graphs) <==> NeededIn(graphs, |graphs|, ALL, v)
    ensures forall v :: v in AllPackages(graphs) ==> v != ALL && InSome(graphs, v)
  {
    var s := MergedOrder(graphs, |graphs|);
    MergedMembers(graphs, |graphs|);
    ReverseFacts(s);
    WithoutFacts(Reverse(s), ALL);
    forall v ensures v in Reverse(s) <==> v in s {
      assert v in Elements(Reverse(s)) <==> v in Elements(s);
    }
    forall v | NeededIn(graphs, |graphs|, ALL, v) ensures v != ALL && InSome(graphs, v) {
      var i :| 0 <= i < |graphs| && ALL in graphs[i] && DependsOn(graphs[i], ALL, v);
      DependencyIsPackage(graphs[i], ALL, v);
    }
  }

  lemma FirstOfMember(graphs: seq<Graph>, u: Package) returns (i: nat)
    requires AllSound(graphs) && (forall i :: 0 <= i < |graphs| ==> ALL in graphs[i]) && u in AllPackages(graphs)
    ensures FirstBelow(graphs, i, u)
  {
    AllPackagesMembers(graphs);
    var k :| 0 <= k < |graphs| && ALL in graphs[k] && DependsOn(graphs[k], ALL, u);
    i := FirstGraph(graphs, k, u);
  }

  lemma AllPackagesBefore(graphs: seq<Graph>, i: nat, j: nat, u: Package, v: Package)
    requires AllSound(graphs) && forall i :: 0 <= i < |graphs| ==> ALL in graphs[i]
    requires FirstBelow(graphs, i, u) && FirstBelow(graphs, j, v)
    ensures u in AllPackages(graphs) && v in AllPackages(graphs)
    ensures Before(AllPackages(graphs), u, v) <==> j < i || (j == i && Before(SingleOrder(graphs[i], ALL, []), u, v))
  {
    hide Acyclic, WellFormed, SingleOrder, MergedOrder;
    AllPackagesMembers(graphs);
    MergedMembers(graphs, |graphs|);
    MergedBefore(graphs, |graphs|, i, j, u, v);
    ReversedWithout(MergedOrder(graphs, |graphs|), u, v);
  }

  /** Packages that a later graph brings in end up before everything of the earlier ones. */
  lemma LateComesFirst(graphs: seq<Graph>, i: nat, j: nat, u: Package, v: Package)
    requires AllSound(graphs) && forall i :: 0 <= i < |graphs| ==> ALL in graphs[i]
    requires FirstBelow(graphs, i, u) && FirstBelow(graphs, j, v) && i < j
    ensures Before(AllPackages(graphs), v, u) && !Before(AllPackages(graphs), u, v)
  {
    AllPackagesBefore(graphs, i, j, u, v);
    AllPackagesBefore(graphs, j, i, v, u);
  }

  // ----- exactly when the merge respects every graph -----

  /** v is first brought in by a graph before i, or by i itself, whose own order puts u before v. */
  ghost predicate KeptFrom(graphs: seq<Graph>, i: nat, u: Package, v: Package)
    requires AllSound(graphs) && i < |graphs| && ALL in graphs[i]
  {
    exists j: nat :: FirstBelow(graphs, j, v) && (j < i || (j == i && Before(SingleOrder(graphs[i], ALL, []), u, v)))
  }

  /** The merge puts u before v, if it contains u. */
  ghost predicate EdgeKept(graphs: seq<Graph>, u: Package, v: Package)
    requires AllSound(graphs) && forall i :: 0 <= i < |graphs| ==> ALL in graphs[i]
  {
    forall i: nat :: FirstBelow(graphs, i, u) ==> KeptFrom(graphs, i, u, v)
  }

  ghost predicate EdgesKept(graphs: seq<Graph>)
    requires AllSound(graphs) && forall i :: 0 <= i < |graphs| ==> ALL in graphs[i]
  {
    forall e, u, v :: 0 <= e < |graphs| && u != ALL && Edge(graphs[e], u, v) ==> EdgeKept(graphs, u, v)
  }

  lemma EdgeKeptIff(graphs: seq<Graph>, u: Package, v: Package)
    requires AllSound(graphs) && forall i :: 0 <= i < |graphs| ==> ALL in graphs[i]
    ensures EdgeKept(graphs, u, v) <==> (u in AllPackages(graphs) ==> Before(AllPackages(graphs), u, v))
  {
    hide Acyclic, WellFormed, SingleOrder, AllPackages;
    if EdgeKept(graphs, u, v) && u in AllPackages(graphs) {
      var i := FirstOfMember(graphs, u);
      var j: nat :| FirstBelow(graphs, j, v) && (j < i || (j == i && Before(SingleOrder(graphs[i], ALL, []), u, v)));
      AllPackagesBefore(graphs, i, j, u, v);
    }
    if u in AllPackages(graphs) ==> Before(AllPackages(graphs), u, v) {
      forall i: nat | i < |graphs| && FirstBelow(graphs, i, u)
        ensures KeptFrom(graphs, i, u, v)
      {
        AllPackagesBefore(graphs, i, i, u, u);
        BeforeMembers(AllPackages(graphs), u, v);
        var j := FirstOfMember(graphs, v);
        AllPackagesBefore(graphs, i, j, u, v);
      }
    }
  }

  /** The merged order respects every graph if and only if each edge is kept. */
  lemma MergeRespectsIff(graphs: seq<Graph>)
    requires AllSound(graphs) && forall i :: 0 <= i < |graphs| ==> ALL in graphs[i]
    ensures DependentsFirst(graphs, AllPackages(graphs)) <==> EdgesKept(graphs)
  {
    hide Acyclic, WellFormed, AllPackages, EdgeKept;
    AllPackagesMembers(graphs);
    forall u, v ensures EdgeKept(graphs, u, v) <==> (u in AllPackages(graphs) ==> Before(AllPackages(graphs), u, v)) {
      EdgeKeptIff(graphs, u, v);
    }
  }

  /** Whatever u depends on in any graph, u depends on it in the graph that first brings in u, or an
      earlier graph brings it in. */
  ghost predicate Covered(graphs: seq<Graph>) {
    forall e, i: nat, u, v :: 0 <= e < |graphs| && u != ALL && Edge(graphs[e], u, v) && FirstBelow(graphs, i, u) ==>
      DependsOn(graphs[i], u, v) || exists j: nat :: j < i && FirstBelow(graphs, j, v)
  }

  lemma OrderedBelow(g: Graph, s: seq<Package>, u: Package, v: Package)
    requires NoDuplicates(s) && Ordered(g, Elements(s), s) && u in s && DependsOn(g, u, v)
    ensures Before(s, u, v)
  {
    var path :| WalkFromTo(g, path, u, v);
    assert Edge(g, path[0], path[1]);
    for k := 1 to |path| - 1
      invariant Before(s, u, path[k])
    {
      BeforeMembers(s, u, path[k]);
      assert Edge(g, path[k], path[k + 1]);
      BeforeTransitive(s, u, path[k], path[k + 1]);
    }
  }

  lemma DependencyKept(graphs: seq<Graph>, i: nat, u: Package, v: Package) returns (j: nat)
    requires AllSound(graphs) && forall i :: 0 <= i < |graphs| ==> ALL in graphs[i]
    requires FirstBelow(graphs, i, u) && DependsOn(graphs[i], u, v)
    ensures FirstBelow(graphs, j, v) && (j < i || (j == i && Before(SingleOrder(graphs[i], ALL, []), u, v)))
  {
    var g := graphs[i];
    DependsOnTransitive(g, ALL, u, v);
    j := FirstGraph(graphs, i, v);
    BelowInOrder(graphs, i, u);
    OrderFromAll(g);
    OrderedBelow(g, SingleOrder(g, ALL, []), u, v);
  }

  lemma CoveredKeepsEdges(graphs: seq<Graph>)
    requires AllSound(graphs) && (forall i :: 0 <= i < |graphs| ==> ALL in graphs[i]) && Covered(graphs)
    ensures EdgesKept(graphs)
  {
    hide Acyclic, WellFormed, SingleOrder;
    forall e, u, v, i: nat | 0 <= e < |graphs| && u != ALL && Edge(graphs[e], u, v) && i < |graphs| && FirstBelow(graphs, i, u)
      ensures KeptFrom(graphs, i, u, v)
    {
      if DependsOn(graphs[i], u, v) {
        var j := DependencyKept(graphs, i, u, v);
      }
    }
  }

  /** Covered graphs, which need not agree, are all respected. */
  lemma CoveredMerge(graphs: seq<Graph>)
    requires AllSound(graphs) && (forall i :: 0 <= i < |graphs| ==> ALL in graphs[i]) && Covered(graphs)
    ensures DependentsFirst(graphs, AllPackages(graphs))
  {
    CoveredKeepsEdges(graphs);
    MergeRespectsIff(graphs);
  }

  /** Agreement is more than enough. */
  lemma AgreeCovers(graphs: seq<Graph>)
    requires AllSound(graphs) && Agree(graphs)
    ensures Covered(graphs)
  {
    hide Agree, Acyclic, WellFormed;
    forall e, i: nat, u, v | 0 <= e < |graphs| && u != ALL && Edge(graphs[e], u, v) && FirstBelow(graphs, i, u)
      ensures DependsOn(graphs[i], u, v)
    {
      assert Sound(graphs[i]);
      DependencyIsPackage(graphs[i], ALL, u);
      AgreedEdge(graphs, i, e, u, v);
      EdgeDependsOn(graphs[i], u, v);
    }
  }

  /** Graphs that the loader makes from one configuration are covered as soon as the group whose graph
      first brings in a package lists that package, within its one level of dependencies. */
  lemma LoadedCovered(deps: Graph, groups: seq<set<Package>>, graphs: seq<Graph>)
    requires |groups| == |graphs| && forall i :: 0 <= i < |graphs| ==> Loaded(deps, groups[i], graphs[i])
    requires forall i: nat, u :: i < |graphs| && FirstBelow(graphs, i, u) ==>
      u in OneLevel(deps, groups[i]) || forall v :: !Edge(deps, u, v)
    ensures AllSound(graphs) && Covered(graphs)
  {
    hide Loaded, OneLevel, Acyclic, WellFormed;
    forall i | 0 <= i < |graphs|
      ensures Sound(graphs[i])
      ensures forall u, v :: u != ALL ==> (Edge(graphs[i], u, v) <==> u in OneLevel(deps, groups[i]) && Edge(deps, u, v))
    {
      LoadedFacts(deps, groups[i], graphs[i]);
    }
    forall e, i: nat, u, v | 0 <= e < |graphs| && u != ALL && Edge(graphs[e], u, v) && FirstBelow(graphs, i, u)
      ensures DependsOn(graphs[i], u, v)
    {
      EdgeDependsOn(graphs[i], u, v);
    }
  }

  /** Merging the orders of graphs that agree lists each package below any `__all__` once, before
      everything it depends on in any of the graphs. */
  lemma AllPackagesFacts(graphs: seq<Graph>)
    requires AllSound(graphs) && Agree(graphs) && forall i :: 0 <= i < |graphs| ==> ALL in graphs[i]
    ensures DependentsFirst(graphs, AllPackages(graphs))
    ensures forall v :: v in AllPackages(graphs) <==> NeededIn(graphs, |graphs|, ALL, v)
  {
    AllPackagesMembers(graphs);
    AgreeCovers(graphs);
    CoveredMerge(graphs);
  }

  /** When everything in each graph is below its `__all__`, as linking the roots makes it, the
      merged order omits no package of any graph. */
  lemma NothingOmitted(graphs: seq<Graph>)
    requires AllSound(graphs) && forall i :: 0 <= i < |graphs| ==> ALL in graphs[i]
    requires forall i, v :: 0 <= i < |graphs| && v in graphs[i] && v != ALL ==> DependsOn(graphs[i], ALL, v)
    ensures forall v :: v in AllPackages(graphs) <==> v != ALL && InSome(graphs, v)
  {
    AllPackagesMembers(graphs);
    forall v | v != ALL && InSome(graphs, v) ensures NeededIn(graphs, |graphs|, ALL, v) {
      var i :| 0 <= i < |graphs| && v in graphs[i];
      assert DependsOn(graphs[i], ALL, v);
    }
  }

  /** The order built from `__all__` in a graph whose roots and isolated packages were linked to
      it holds every package once, before everything it depends on. */
  lemma LinkedOrderComplete(g0: Graph, g: Graph, packageList: set<Package>, linked: set<Package>)
    requires WellFormed(g0) && Acyclic(g0) && ALL !in g0 && ALL !in packageList
    requires Linked(g0, g, linked) && RootsAndIsolated(g0, packageList, linked)
    requires g0 != map[] || packageList != {}
    ensures AllSound([g]) && ALL in g && DependentsFirst([g], AllPackages([g]))
    ensures forall v :: v in AllPackages([g]) <==> v in g0 || v in packageList
  {
    hide AllPackages, DependentsFirst, DependsOn, Acyclic, WellFormed, Linked, IsRoot, RootsAndIsolated;
    LinkFacts(g0, g, packageList, linked);
    assert [g][0] == g;
    AllPackagesFacts([g]);
    NothingOmitted([g]);
    forall v ensures v != ALL && InSome([g], v) <==> v in g0 || v in packageList {
      if v in g { assert v in [g][0]; }
    }
  }

  lemma {:induction false} AppendToEmpty(xs: seq<Package>)
    requires NoDuplicates(xs)
    ensures AppendNew([], xs) == xs
    decreases |xs|
  {
    if xs != [] {
      var init, x := xs[..|xs| - 1], xs[|xs| - 1];
      AppendToEmpty(init);
      assert xs == init + [x];
    }
  }

  // ----- a configuration whose merged order is wrong -----

  lemma AcyclicByRank(g: Graph, rank: map<Package, nat>)
    requires forall u, v :: Edge(g, u, v) ==> u in rank && v in rank && rank[u] > rank[v]
    ensures Acyclic(g)
  {
    forall u ensures !DependsOn(g, u, u) {
      forall path: seq<Package> ensures !WalkFromTo(g, path, u, u) {
        if |path| >= 2 && Walk(g, path) { RankFalls(g, rank, path); }
      }
    }
  }

  lemma RankFalls(g: Graph, rank: map<Package, nat>, path: seq<Package>)
    requires forall u, v :: Edge(g, u, v) ==> u in rank && v in rank && rank[u] > rank[v]
    requires |path| >= 2 && Walk(g, path)
    ensures path[0] in rank && path[|path| - 1] in rank && rank[path[0]] > rank[path[|path| - 1]]
  {
    assert Edge(g, path[0], path[1]);
    for k := 1 to |path| - 1
      invariant path[0] in rank && path[k] in rank && rank[path[0]] > rank[path[k]]
    {
      assert Edge(g, path[k], path[k + 1]);
    }
  }

  /** Four packages, and the graphs that the loader makes for the groups {x} and {a}. */
  datatype Configuration = Configuration(x: Package, y: Package, a: Package, c: Package) {
    predicate Distinct() {
      y != x && a !in {x, y} && c !in {x, y, a} && ALL !in {x, y, a, c}
    }

    /** x needs y, y needs a, a needs c. */
    function Deps(): Graph {
      map[x := [y], y := [a], a := [c], c := []]
    }

    /** The dependencies of x and, one level down, of y: those of a stay out. */
    function Edges0(): Graph {
      map[x := [y], y := [a], a := []]
    }

    function Edges1(): Graph {
      map[a := [c], c := []]
    }

    function Graph0(): Graph {
      Edges0()[ALL := [x]]
    }

    function Graph1(): Graph {
      Edges1()[ALL := [a]]
    }

    function Rank(): map<Package, nat> {
      map[x := 3, y := 2, a := 1, c := 0]
    }
  }

  lemma FirstEdges(k: Configuration)
    requires k.Distinct()
    ensures OneLevel(k.Deps(), {k.x}) == {k.x, k.y}
    ensures HoldsDependencies(k.Deps(), {k.x, k.y}, k.Edges0()) && Acyclic(k.Edges0())
  {
    hide Acyclic;
    var deps, g0 := k.Deps(), k.Edges0();
    OneLevelNext(deps, {}, k.x);
    assert {} + {k.x} == {k.x} && deps[k.x] == [k.y] && Elements([k.y]) == {k.y};
    AcyclicByRank(g0, k.Rank());
    assert Edge(g0, k.x, k.y) && Edge(g0, k.y, k.a);
  }

  lemma FirstLoaded(k: Configuration)
    requires k.Distinct()
    ensures Loaded(k.Deps(), {k.x}, k.Graph0())
  {
    hide Acyclic, OneLevel, HoldsDependencies;
    FirstEdges(k);
    assert k.y in k.Edges0()[k.x] && k.a in k.Edges0()[k.y];
    assert LoadedFrom(k.Deps(), {k.x}, k.Edges0(), {k.x}, k.Graph0());
  }

  lemma SecondEdges(k: Configuration)
    requires k.Distinct()
    ensures OneLevel(k.Deps(), {k.a}) == {k.a, k.c}
    ensures HoldsDependencies(k.Deps(), {k.a, k.c}, k.Edges1()) && Acyclic(k.Edges1())
  {
    hide Acyclic;
    var deps, g0 := k.Deps(), k.Edges1();
    OneLevelNext(deps, {}, k.a);
    assert {} + {k.a} == {k.a} && deps[k.a] == [k.c] && Elements([k.c]) == {k.c};
    AcyclicByRank(g0, k.Rank());
    assert Edge(g0, k.a, k.c);
  }

  lemma SecondLoaded(k: Configuration)
    requires k.Distinct()
    ensures Loaded(k.Deps(), {k.a}, k.Graph1())
  {
    hide Acyclic, OneLevel, HoldsDependencies;
    SecondEdges(k);
    assert k.c in k.Edges1()[k.a];
    assert LoadedFrom(k.Deps(), {k.a}, k.Edges1(), {k.a}, k.Graph1());
  }

  /** Two groups of one configuration that list different dependencies of a: the second graph alone
      brings in c, and the merge puts c before a, which needs it. */
  lemma DisagreementBreaksOrder() returns (deps: Graph, groups: seq<set<Package>>, graphs: seq<Graph>)
    ensures |groups| == |graphs| == 2 && forall i :: 0 <= i < 2 ==> Loaded(deps, groups[i], graphs[i])
    ensures AllSound(graphs) && forall i :: 0 <= i < |graphs| ==> ALL in graphs[i]
    ensures !DependentsFirst(graphs, AllPackages(graphs))
  {
    hide Loaded, AllPackages, Acyclic, WellFormed, Before, OneLevel;
    var k := Configuration(Package("x"), Package("y"), Package("a"), Package("c"));
    assert k.x.name[0] == 'x' && k.y.name[0] == 'y' && k.a.name[0] == 'a' && k.c.name[0] == 'c' && ALL.name[0] == '_';
    deps, groups, graphs := k.Deps(), [{k.x}, {k.a}], [k.Graph0(), k.Graph1()];
    FirstLoaded(k);
    SecondLoaded(k);
    LoadedFacts(deps, groups[0], graphs[0]);
    LoadedFacts(deps, groups[1], graphs[1]);
    assert Sound(graphs[0]) && Sound(graphs[1]);
    NotBelow(graphs[0], k.c);
    assert FirstBelow(graphs, 0, k.a) && FirstBelow(graphs, 1, k.c);
    LateComesFirst(graphs, 0, 1, k.a, k.c);
    AllPackagesMembers(graphs);
    BeforeMembers(AllPackages(graphs), k.c, k.a);
    assert Edge(graphs[1], k.a, k.c);
  }

  /** In that configuration a dependency build of x omits c, which a needs. */
  lemma DisagreementOmits(k: Configuration) returns (graphs: seq<Graph>)
    requires k.Distinct()
    ensures graphs == [k.Graph0(), k.Graph1()] && AllSound(graphs)
    ensures forall v :: v in AddFromGraphs(graphs, 2, k.x, []) <==> v in {k.x, k.y, k.a}
    ensures Edge(graphs[1], k.a, k.c)
  {
    hide Loaded, Acyclic, WellFormed, OneLevel, AddFromGraphs, DependsOn;
    var g := k.Graph0();
    graphs := [g, k.Graph1()];
    FirstLoaded(k);
    SecondLoaded(k);
    LoadedFacts(k.Deps(), {k.x}, g);
    LoadedFacts(k.Deps(), {k.a}, graphs[1]);
    assert Sound(graphs[0]) && Sound(graphs[1]);
    AddedContents(graphs, 0, k.x, []);
    assert Edge(g, k.x, k.y) && Edge(g, k.y, k.a);
    EdgeDependsOn(g, k.x, k.y);
    EdgeDependsOn(g, k.y, k.a);
    DependsOnTransitive(g, k.x, k.y, k.a);
    forall v | DependsOn(g, k.x, v) ensures v in {k.x, k.y, k.a} {
      DependencyIsPackage(g, k.x, v);
    }
  }

  lemma NotBelow(g: Graph, v: Package)
    requires Sound(g) && v !in g
    ensures !DependsOn(g, ALL, v)
  {
    if DependsOn(g, ALL, v) {
      DependencyIsPackage(g, ALL, v);
    }
  }
}
