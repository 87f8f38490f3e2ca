/** Dependency graphs, the packages below a package, and lists in dependency order. */
module Graphs {

  datatype Package = Package(name: string)

  /** The name that stands for every package. */
  const ALL := Package("__all__")

  /** Each node with its out-neighbours, the packages it depends on, in iteration order. */
  type Graph = map<Package, seq<Package>>

  // ----- lists -----

  predicate NoDuplicates<T(==)>(s: seq<T>) {
    forall i, j :: 0 <= i < j < |s| ==> s[i] != s[j]
  }

  function Elements<T>(s: seq<T>): set<T> {
    set x | x in s
  }

  /** Some occurrence of u comes before some occurrence of v. */
  ghost predicate Before<T>(s: seq<T>, u: T, v: T) {
    exists i, j :: 0 <= i < j < |s| && s[i] == u && s[j] == v
  }

  lemma BeforeAt<T>(s: seq<T>, i: nat, j: nat)
    requires i < j < |s|
    ensures Before(s, s[i], s[j])
  {
  }

  lemma BeforeMembers<T>(s: seq<T>, u: T, v: T)
    requires Before(s, u, v)
    ensures u in s && v in s
  {
  }

  lemma BeforeTransitive<T>(s: seq<T>, u: T, v: T, w: T)
    requires NoDuplicates(s) && Before(s, u, v) && Before(s, v, w)
    ensures Before(s, u, w)
  {
    var i, j :| 0 <= i < j < |s| && s[i] == u && s[j] == v;
    var k, l :| 0 <= k < l < |s| && s[k] == v && s[l] == w;
    assert j == k;
  }

  lemma BeforeAsymmetric<T>(s: seq<T>, u: T, v: T)
    requires NoDuplicates(s) && Before(s, u, v)
    ensures !Before(s, v, u)
  {
    var i, j :| 0 <= i < j < |s| && s[i] == u && s[j] == v;
    forall k, l | 0 <= k < l < |s| && s[k] == v ensures s[l] != u {
      assert k == j;
    }
  }

  function Reverse<T>(s: seq<T>): (r: seq<T>)
    ensures |r| == |s| && forall i :: 0 <= i < |s| ==> r[i] == s[|s| - 1 - i]
  {
    seq(|s|, i requires 0 <= i < |s| => s[|s| - 1 - i])
  }

  lemma ReverseFacts<T>(s: seq<T>)
    ensures Elements(Reverse(s)) == Elements(s)
    ensures NoDuplicates(s) ==> NoDuplicates(Reverse(s))
    ensures Reverse(Reverse(s)) == s
  {
    var r := Reverse(s);
    forall x | x in s ensures x in r {
      var i :| 0 <= i < |s| && s[i] == x;
      assert r[|s| - 1 - i] == x;
    }
    forall x | x in r ensures x in s {
      var i :| 0 <= i < |r| && r[i] == x;
      assert s[|s| - 1 - i] == x;
    }
    assert forall i :: 0 <= i < |s| ==> Reverse(r)[i] == s[i];
  }

  lemma ReverseBefore<T>(s: seq<T>, u: T, v: T)
    ensures Before(Reverse(s), u, v) <==> Before(s, v, u)
  {
    var r := Reverse(s);
    if Before(s, v, u) {
      var i, j :| 0 <= i < j < |s| && s[i] == v && s[j] == u;
      BeforeAt(r, |s| - 1 - j, |s| - 1 - i);
    }
    if Before(r, u, v) {
      var i, j :| 0 <= i < j < |r| && r[i] == u && r[j] == v;
      BeforeAt(s, |s| - 1 - j, |s| - 1 - i);
    }
  }

  // ----- graphs -----

  predicate Edge(g: Graph, u: Package, v: Package) {
    u in g && v in g[u]
  }

  /** Out-neighbours are nodes, each listed once. */
  predicate WellFormed(g: Graph) {
    forall u :: u in g ==> NoDuplicates(g[u]) && forall v :: v in g[u] ==> v in g
  }

  predicate Walk(g: Graph, path: seq<Package>) {
    forall i :: 0 <= i < |path| - 1 ==> Edge(g, path[i], path[i + 1])
  }

  predicate WalkFromTo(g: Graph, path: seq<Package>, u: Package, v: Package) {
    |path| >= 2 && path[0] == u && path[|path| - 1] == v && Walk(g, path)
  }

  /** u depends on v, directly or through other packages. */
  ghost predicate DependsOn(g: Graph, u: Package, v: Package) {
    exists path :: WalkFromTo(g, path, u, v)
  }

  /** What the search for simple cycles establishes. */
  ghost predicate Acyclic(g: Graph) {
    forall u :: !DependsOn(g, u, u)
  }

  /** The graph passed the loader's checks, and no package depends on `__all__`. */
  ghost predicate Sound(g: Graph) {
    WellFormed(g) && Acyclic(g) && forall u :: !Edge(g, u, ALL)
  }

  lemma EdgeDependsOn(g: Graph, u: Package, v: Package)
    requires Edge(g, u, v)
    ensures DependsOn(g, u, v)
  {
    assert WalkFromTo(g, [u, v], u, v);
  }

  lemma DependsOnTransitive(g: Graph, u: Package, v: Package, w: Package)
    requires DependsOn(g, u, v) && DependsOn(g, v, w)
    ensures DependsOn(g, u, w)
  {
    var p :| WalkFromTo(g, p, u, v);
    var q :| WalkFromTo(g, q, v, w);
    var path := p + q[1..];
    forall i | 0 <= i < |path| - 1 ensures Edge(g, path[i], path[i + 1]) {
      if i < |p| - 1 {
        assert Edge(g, p[i], p[i + 1]);
      } else {
        assert Edge(g, q[i - (|p| - 1)], q[i - (|p| - 1) + 1]);
      }
    }
    assert WalkFromTo(g, path, u, w);
  }

  /** The first step of a dependency. */
  lemma FirstStep(g: Graph, u: Package, v: Package) returns (w: Package)
    requires DependsOn(g, u, v)
    ensures Edge(g, u, w) && (w == v || DependsOn(g, w, v))
  {
    var path :| WalkFromTo(g, path, u, v);
    w := path[1];
    assert Edge(g, path[0], path[1]);
    if w != v {
      var rest := path[1..];
      forall i | 0 <= i < |rest| - 1 ensures Edge(g, rest[i], rest[i + 1]) {
        assert Edge(g, path[i + 1], path[i + 2]);
      }
      assert WalkFromTo(g, rest, w, v);
    }
  }

  /** The last step of a dependency. */
  lemma LastStep(g: Graph, u: Package, v: Package) returns (w: Package)
    requires DependsOn(g, u, v)
    ensures Edge(g, w, v) && (w == u || DependsOn(g, u, w))
  {
    var path :| WalkFromTo(g, path, u, v);
    w := path[|path| - 2];
    assert Edge(g, path[|path| - 2], path[|path| - 1]);
    if w != u {
      var init := path[..|path| - 1];
      forall i | 0 <= i < |init| - 1 ensures Edge(g, init[i], init[i + 1]) {
        assert Edge(g, path[i], path[i + 1]);
      }
      assert WalkFromTo(g, init, u, w);
    }
  }

  /** Everything a package depends on. */
  ghost function Dependencies(g: Graph, u: Package): set<Package> {
    set v | v in g.Keys && DependsOn(g, u, v)
  }

  lemma InDependencies(g: Graph, u: Package, v: Package)
    requires WellFormed(g)
    ensures v in Dependencies(g, u) <==> DependsOn(g, u, v)
  {
    if DependsOn(g, u, v) {
      var w := LastStep(g, u, v);
      assert v in g[w];
    }
  }

  /** Everything some package of a list depends on. */
  ghost function DependenciesOf(g: Graph, us: seq<Package>): set<Package> {
    set v | v in g.Keys && exists u :: u in us && DependsOn(g, u, v)
  }

  lemma DependenciesUnfold(g: Graph, u: Package)
    requires WellFormed(g) && u in g
    ensures Dependencies(g, u) == Elements(g[u]) + DependenciesOf(g, g[u])
  {
    forall v | v in Dependencies(g, u) ensures v in Elements(g[u]) + DependenciesOf(g, g[u]) {
      var w := FirstStep(g, u, v);
      if w != v { assert w in g[u] && DependsOn(g, w, v); }
    }
    forall v | v in Elements(g[u]) + DependenciesOf(g, g[u]) ensures v in Dependencies(g, u) {
      if v in g[u] {
        EdgeDependsOn(g, u, v);
      } else {
        var w :| w in g[u] && DependsOn(g, w, v);
        EdgeDependsOn(g, u, w);
        DependsOnTransitive(g, u, w, v);
      }
    }
  }

  lemma SubsetSize<T>(a: set<T>, b: set<T>)
    requires a < b
    ensures |a| < |b|
  {
    var x :| x in b && x !in a;
    SubsetCard(a, b - {x});
  }

  lemma {:induction false} SubsetCard<T>(a: set<T>, b: set<T>)
    requires a <= b
    ensures |a| <= |b|
    decreases a
  {
    if a != {} {
      var x :| x in a;
      SubsetCard(a - {x}, b - {x});
    }
  }

  /** In an acyclic graph a dependency has fewer dependencies: the measure of every recursion. */
  lemma FewerDependencies(g: Graph, u: Package, v: Package)
    requires Acyclic(g) && Edge(g, u, v) && v in g
    ensures |Dependencies(g, v)| < |Dependencies(g, u)|
  {
    EdgeDependsOn(g, u, v);
    assert v in Dependencies(g, u) && v !in Dependencies(g, v);
    forall w | w in Dependencies(g, v) ensures w in Dependencies(g, u) {
      DependsOnTransitive(g, u, v, w);
    }
    SubsetSize(Dependencies(g, v), Dependencies(g, u));
  }
}
