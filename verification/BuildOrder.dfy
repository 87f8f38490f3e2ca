/** The build-order planner: the recursive in-place reordering of one list, proved against a
    specification that never uses a stale index, and the order that specification reaches. */
module BuildOrder {
  import opened Graphs

  // ----- Python list operations -----

  /** The position of the first occurrence: `list.index`. */
  function IndexOf<T(==)>(s: seq<T>, x: T): (i: nat)
    requires x in s
    ensures i < |s| && s[i] == x && forall j :: 0 <= j < i ==> s[j] != x
  {
    if s[0] == x then 0 else 1 + IndexOf(s[1..], x)
  }

  lemma IndexUnique<T>(s: seq<T>, x: T, i: nat)
    requires NoDuplicates(s) && i < |s| && s[i] == x
    ensures IndexOf(s, x) == i
  {
  }

  /** `del` */
  function RemoveAt<T>(s: seq<T>, i: nat): (r: seq<T>)
    requires i < |s|
    ensures |r| == |s| - 1 && forall j :: 0 <= j < |r| ==> r[j] == if j < i then s[j] else s[j + 1]
  {
    s[..i] + s[i + 1..]
  }

  /** `list.insert` */
  function InsertAt<T>(s: seq<T>, i: nat, x: T): (r: seq<T>)
    requires i <= |s|
    ensures |r| == |s| + 1 && forall j :: 0 <= j < |r| ==> r[j] == if j < i then s[j] else if j == i then x else s[j - 1]
  {
    s[..i] + [x] + s[i..]
  }

  // ----- one neighbour, all neighbours, all packages below -----

  /** The list with the element at k moved just behind the later position i. */
  function MoveBehind<T>(s: seq<T>, k: nat, i: nat): (r: seq<T>)
    requires k < i < |s|
    ensures |r| == |s|
    ensures forall j :: 0 <= j < |s| ==> r[j] == if j < k then s[j] else if j < i then s[j + 1] else if j == i then s[k] else s[j]
  {
    s[..k] + s[k + 1..i + 1] + [s[k]] + s[i + 1..]
  }

  /** What a neighbour n of p does to the list: an earlier n moves just behind p, an absent n
      goes to the end, a later n stays. */
  function PlaceOne(s: seq<Package>, p: Package, n: Package): (r: seq<Package>)
    requires p in s && n != p
    ensures p in r
    ensures n !in s ==> r == s + [n]
    ensures n in s && IndexOf(s, n) < IndexOf(s, p) ==> r == MoveBehind(s, IndexOf(s, n), IndexOf(s, p))
    ensures n in s && IndexOf(s, n) > IndexOf(s, p) ==> r == s
  {
    if n !in s then
      s + [n]
    else
      var k, i := IndexOf(s, n), IndexOf(s, p);
      if k < i then
        var r := MoveBehind(s, k, i);
        assert r[i - 1] == p;
        r
      else s
  }

  function PlaceAll(s: seq<Package>, p: Package, ns: seq<Package>): (r: seq<Package>)
    requires p in s && p !in ns
    ensures p in r
    decreases |ns|
  {
    if ns == [] then s
    else
      var k := |ns| - 1;
      PlaceOne(PlaceAll(s, p, ns[..k]), p, ns[k])
  }

  // ----- what stays in order -----

  /** Only the packages in `moved` may have fallen behind packages they preceded. */
  ghost predicate Keeps(s: seq<Package>, r: seq<Package>, moved: set<Package>) {
    forall u, v :: u !in moved && Before(s, u, v) ==> Before(r, u, v)
  }

  /** Every package of `us` that is a node precedes what it depends on directly. */
  ghost predicate Ordered(g: Graph, us: set<Package>, s: seq<Package>) {
    forall u, v :: u in us && Edge(g, u, v) ==> Before(s, u, v)
  }

  /** Where MoveBehind takes the element at position j. */
  function NewPosition(k: nat, i: nat, j: nat): nat
    requires k < i
  {
    if j < k then j else if j == k then i else if j <= i then j - 1 else j
  }

  lemma MoveBehindAt<T>(s: seq<T>, k: nat, i: nat, j: nat)
    requires k < i < |s| && j < |s|
    ensures NewPosition(k, i, j) < |s| && MoveBehind(s, k, i)[NewPosition(k, i, j)] == s[j]
  {
  }

  lemma MoveBehindElements<T>(s: seq<T>, k: nat, i: nat)
    requires k < i < |s|
    ensures Elements(MoveBehind(s, k, i)) == Elements(s)
  {
    var r := MoveBehind(s, k, i);
    forall x | x in s ensures x in r {
      var j :| 0 <= j < |s| && s[j] == x;
      MoveBehindAt(s, k, i, j);
    }
    assert forall x :: x in r ==> x in s;
  }

  lemma MoveBehindKeeps(s: seq<Package>, k: nat, i: nat)
    requires k < i < |s|
    ensures Keeps(s, MoveBehind(s, k, i), {s[k]})
  {
    forall u, v | u !in {s[k]} && Before(s, u, v) ensures Before(MoveBehind(s, k, i), u, v) {
      var a, b :| 0 <= a < b < |s| && s[a] == u && s[b] == v;
      MoveBehindAt(s, k, i, a);
      MoveBehindAt(s, k, i, b);
      BeforeAt(MoveBehind(s, k, i), NewPosition(k, i, a), NewPosition(k, i, b));
    }
  }

  lemma MoveBehindDistinct<T>(s: seq<T>, k: nat, i: nat)
    requires NoDuplicates(s) && k < i < |s|
    ensures NoDuplicates(MoveBehind(s, k, i))
  {
  }

  lemma MoveBehindFacts(s: seq<Package>, k: nat, i: nat)
    requires NoDuplicates(s) && k < i < |s|
    ensures var r := MoveBehind(s, k, i);
            NoDuplicates(r) && Elements(r) == Elements(s) && Before(r, s[i], s[k]) && Keeps(s, r, {s[k]})
  {
    MoveBehindElements(s, k, i);
    MoveBehindKeeps(s, k, i);
    MoveBehindDistinct(s, k, i);
    BeforeAt(MoveBehind(s, k, i), i - 1, i);
  }

  lemma AppendFacts(s: seq<Package>, n: Package)
    requires NoDuplicates(s) && n !in s
    ensures NoDuplicates(s + [n]) && Elements(s + [n]) == Elements(s) + {n} && Keeps(s, s + [n], {})
    ensures forall u :: u in s ==> Before(s + [n], u, n)
  {
    var r := s + [n];
    forall u, v | Before(s, u, v) ensures Before(r, u, v) {
      var a, b :| 0 <= a < b < |s| && s[a] == u && s[b] == v;
      BeforeAt(r, a, b);
    }
    forall u | u in s ensures Before(r, u, n) {
      var a :| 0 <= a < |s| && s[a] == u;
      BeforeAt(r, a, |s|);
    }
  }

  lemma PlaceOneFacts(s: seq<Package>, p: Package, n: Package)
    requires NoDuplicates(s) && p in s && n != p
    ensures var r := PlaceOne(s, p, n);
            NoDuplicates(r) && Elements(r) == Elements(s) + {n} && Before(r, p, n) && Keeps(s, r, {n})
  {
    if n !in s {
      AppendFacts(s, n);
    } else {
      var k, i := IndexOf(s, n), IndexOf(s, p);
      if k < i { MoveBehindFacts(s, k, i); } else { BeforeAt(s, i, k); }
    }
  }

  lemma KeepsTransitive(s: seq<Package>, t: seq<Package>, r: seq<Package>, a: set<Package>, b: set<Package>)
    requires Keeps(s, t, a) && Keeps(t, r, b)
    ensures Keeps(s, r, a + b)
  {
  }

  /** p settled above its neighbours ns, on the way from s to r. */
  ghost predicate Placed(s: seq<Package>, p: Package, ns: seq<Package>, r: seq<Package>) {
    NoDuplicates(r) && Elements(r) == Elements(s) + Elements(ns) && Keeps(s, r, Elements(ns))
    && forall n :: n in ns ==> Before(r, p, n)
  }

  lemma PlacedSnoc(s: seq<Package>, p: Package, ns: seq<Package>, t: seq<Package>, n: Package)
    requires Placed(s, p, ns, t) && p in t && n != p && p !in ns
    ensures Placed(s, p, ns + [n], PlaceOne(t, p, n))
  {
    PlaceOneFacts(t, p, n);
    KeepsTransitive(s, t, PlaceOne(t, p, n), Elements(ns), {n});
    assert Elements(ns + [n]) == Elements(ns) + {n};
  }

  lemma {:induction false} PlaceAllFacts(s: seq<Package>, p: Package, ns: seq<Package>)
    requires NoDuplicates(s) && p in s && p !in ns
    ensures Placed(s, p, ns, PlaceAll(s, p, ns))
    decreases |ns|
  {
    if ns != [] {
      var init, n := ns[..|ns| - 1], ns[|ns| - 1];
      PlaceAllFacts(s, p, init);
      PlacedSnoc(s, p, init, PlaceAll(s, p, init), n);
      assert ns == init + [n];
    }
  }

  // ----- the specification of the whole reordering -----

  /** The list after `figure_out_build_order` on p. */
  ghost function Settle(g: Graph, p: Package, s: seq<Package>): (r: seq<Package>)
    requires WellFormed(g) && Acyclic(g) && p in g && NoDuplicates(s) && p in s
    ensures NoDuplicates(r) && Elements(r) == Elements(s) + Dependencies(g, p)
    ensures Keeps(s, r, Dependencies(g, p))
    ensures Ordered(g, {p} + Dependencies(g, p), r)
    decreases |Dependencies(g, p)|, |g[p]| + 1
  {
    NotItsOwnNeighbour(g, p);
    PlaceAllFacts(s, p, g[p]);
    DependenciesUnfold(g, p);
    SettleAll(g, p, g[p], PlaceAll(s, p, g[p]))
  }

  /** Settles some neighbours of p, in order. */
  ghost function SettleAll(g: Graph, p: Package, ns: seq<Package>, s: seq<Package>): (r: seq<Package>)
    requires WellFormed(g) && Acyclic(g) && p in g && NoDuplicates(s)
    requires forall n :: n in ns ==> n in g[p] && n in s
    ensures NoDuplicates(r) && Elements(r) == Elements(s) + DependenciesOf(g, ns)
    ensures Keeps(s, r, DependenciesOf(g, ns))
    ensures Ordered(g, Elements(ns) + DependenciesOf(g, ns), r)
    decreases |Dependencies(g, p)|, |ns|
  {
    if ns == [] then s
    else
      FewerDependencies(g, p, ns[0]);
      var t := Settle(g, ns[0], s);
      assert forall n :: n in ns[1..] ==> n in Elements(t);
      SettleAll(g, p, ns[1..], t)
  }

  /** Neighbours are placed in order and then settled in order, one after another. */
  lemma SettleSteps(g: Graph, p: Package, s: seq<Package>)
    requires WellFormed(g) && Acyclic(g) && p in g && NoDuplicates(s) && p in s
    ensures p !in g[p] && NoDuplicates(PlaceAll(s, p, g[p])) && forall n :: n in g[p] ==> n in PlaceAll(s, p, g[p])
    ensures Settle(g, p, s) == SettleAll(g, p, g[p], PlaceAll(s, p, g[p]))
  {
    NotItsOwnNeighbour(g, p);
    PlaceAllFacts(s, p, g[p]);
    forall n | n in g[p] ensures n in PlaceAll(s, p, g[p]) {
      assert n in Elements(PlaceAll(s, p, g[p]));
    }
  }

  lemma {:induction false} SettleAllConcat(g: Graph, p: Package, ns: seq<Package>, ms: seq<Package>, s: seq<Package>)
    requires WellFormed(g) && Acyclic(g) && p in g && NoDuplicates(s)
    requires (forall n :: n in ns ==> n in g[p] && n in s) && forall n :: n in ms ==> n in g[p] && n in s
    ensures NoDuplicates(SettleAll(g, p, ns, s)) && forall n :: n in ms ==> n in SettleAll(g, p, ns, s)
    ensures SettleAll(g, p, ns + ms, s) == SettleAll(g, p, ms, SettleAll(g, p, ns, s))
    decreases |ns|
  {
    hide Acyclic, Keeps, Ordered, DependenciesOf, Dependencies, WellFormed, NoDuplicates;
    if ns == [] {
      assert ns + ms == ms;
    } else {
      StillThere(g, p, ns[0], ns + ms, s);
      var t := Settle(g, ns[0], s);
      assert (ns + ms)[1..] == ns[1..] + ms;
      SettleAllConcat(g, p, ns[1..], ms, t);
      SettleFirst(g, p, ns, s);
      SettleFirst(g, p, ns + ms, s);
    }
  }

  lemma StillThere(g: Graph, p: Package, n: Package, ns: seq<Package>, s: seq<Package>)
    requires WellFormed(g) && Acyclic(g) && p in g && NoDuplicates(s)
    requires n in ns && forall m :: m in ns ==> m in g[p] && m in s
    ensures n in g && NoDuplicates(Settle(g, n, s)) && forall m :: m in ns ==> m in Settle(g, n, s)
  {
    forall m | m in ns ensures m in Settle(g, n, s) {
      assert m in Elements(Settle(g, n, s));
    }
  }

  lemma SettleFirst(g: Graph, p: Package, ns: seq<Package>, s: seq<Package>)
    requires WellFormed(g) && Acyclic(g) && p in g && NoDuplicates(s)
    requires ns != [] && forall m :: m in ns ==> m in g[p] && m in s
    ensures ns[0] in g && NoDuplicates(Settle(g, ns[0], s)) && forall m :: m in ns[1..] ==> m in Settle(g, ns[0], s)
    ensures SettleAll(g, p, ns, s) == SettleAll(g, p, ns[1..], Settle(g, ns[0], s))
  {
    FewerDependencies(g, p, ns[0]);
    StillThere(g, p, ns[0], ns, s);
  }

  lemma SettleAllOne(g: Graph, p: Package, n: Package, s: seq<Package>)
    requires WellFormed(g) && Acyclic(g) && p in g && NoDuplicates(s) && n in g[p] && n in s
    ensures SettleAll(g, p, [n], s) == Settle(g, n, s) && SettleAll(g, p, [], s) == s
  {
    FewerDependencies(g, p, n);
    assert [n][1..] == [];
  }

  lemma NotItsOwnNeighbour(g: Graph, p: Package)
    requires Acyclic(g) && p in g
    ensures p !in g[p]
  {
    if p in g[p] { EdgeDependsOn(g, p, p); }
  }

  // ----- the list that the planner updates in place -----

  /** Where the list stands after some neighbours of p were placed with the index idx that p had
      at the start: p has moved left, and exactly the neighbours moved so far fill the places
      from p to idx. */
  ghost predicate StaleIndex(items: seq<Package>, p: Package, idx: nat, placed: seq<Package>) {
    p in items && IndexOf(items, p) <= idx < |items|
    && forall j :: IndexOf(items, p) < j <= idx ==> items[j] in placed
  }

  /** For a neighbour not placed yet, the stale index decides as a fresh one would. */
  lemma StaleIndexDecides(items: seq<Package>, p: Package, idx: nat, placed: seq<Package>, n: Package)
    requires StaleIndex(items, p, idx, placed) && n != p && n !in placed
    ensures n in items[..idx] <==> n in items && IndexOf(items, n) < IndexOf(items, p)
    ensures n !in items[..idx] ==> (n in items[idx..] <==> n in items)
  {
    if n in items[..idx] {
      var j :| 0 <= j < idx && items[..idx][j] == n;
      assert items[j] == n;
    }
    if n in items {
      var j := IndexOf(items, n);
      if j < idx { assert items[..idx][j] == n; } else { assert items[idx..][j - idx] == n; }
    }
  }

  lemma SpliceIsMove<T>(s: seq<T>, k: nat, i: nat)
    requires k < i < |s|
    ensures InsertAt(RemoveAt(s, k), i, s[k]) == MoveBehind(s, k, i)
    ensures RemoveAt(s, k)[i - 1] == s[i]
  {
  }

  lemma RemoveDistinct<T>(s: seq<T>, k: nat)
    requires NoDuplicates(s) && k < |s|
    ensures NoDuplicates(RemoveAt(s, k))
  {
  }

  /** Deleting and reinserting by fresh positions is the move behind p. */
  lemma DeleteAndInsert(items: seq<Package>, p: Package, n: Package)
    requires NoDuplicates(items) && p in items && n in items && IndexOf(items, n) < IndexOf(items, p)
    ensures var t := RemoveAt(items, IndexOf(items, n));
            p in t && InsertAt(t, IndexOf(t, p) + 1, n) == PlaceOne(items, p, n)
  {
    hide MoveBehind, RemoveAt, InsertAt, PlaceOne;
    var k, i := IndexOf(items, n), IndexOf(items, p);
    SpliceIsMove(items, k, i);
    RemoveDistinct(items, k);
    IndexUnique(RemoveAt(items, k), p, i - 1);
  }

  lemma StaleIndexKept(items: seq<Package>, p: Package, idx: nat, placed: seq<Package>, n: Package)
    requires NoDuplicates(items) && StaleIndex(items, p, idx, placed) && n != p && n !in placed
    ensures StaleIndex(PlaceOne(items, p, n), p, idx, placed + [n])
  {
    hide Keeps, Before, IndexOf, Elements;
    PlaceOneFacts(items, p, n);
    var r := PlaceOne(items, p, n);
    var i := IndexOf(items, p);
    if n !in items {
      IndexUnique(r, p, i);
      assert forall j :: i < j <= idx ==> r[j] == items[j];
    } else {
      var k := IndexOf(items, n);
      if k < i {
        IndexUnique(r, p, i - 1);
        assert forall j :: i < j <= idx ==> r[j] == items[j];
        assert r[i] == n;
      }
    }
  }

  lemma PlaceNone(items: seq<Package>, p: Package, ns: seq<Package>)
    requires NoDuplicates(items) && p in items && p !in ns
    ensures StaleIndex(items, p, IndexOf(items, p), ns[..0]) && items == PlaceAll(items, p, ns[..0])
  {
  }

  lemma FreshNeighbor(ns: seq<Package>, p: Package, i: nat)
    requires NoDuplicates(ns) && p !in ns && i < |ns|
    ensures ns[i] != p && ns[i] !in ns[..i] && p !in ns[..i] && p !in ns[..i + 1]
  {
  }

  lemma PlaceNext(s: seq<Package>, p: Package, ns: seq<Package>, i: nat)
    requires p in s && p !in ns && i < |ns|
    ensures ns[i] != p && PlaceAll(s, p, ns[..i + 1]) == PlaceOne(PlaceAll(s, p, ns[..i]), p, ns[i])
    ensures ns[..i + 1] == ns[..i] + [ns[i]]
  {
    assert ns[..i + 1][..i] == ns[..i];
  }

  /** The three branches of the loop, decided by the stale index, are the three of the specification. */
  lemma OneNeighbor(items: seq<Package>, p: Package, idx: nat, placed: seq<Package>, n: Package)
    requires NoDuplicates(items) && StaleIndex(items, p, idx, placed) && n != p && n !in placed
    ensures idx < |items|
    ensures var r := PlaceOne(items, p, n);
            NoDuplicates(r) && StaleIndex(r, p, idx, placed + [n])
            && (if n in items[..idx] then
                  n in items && p in RemoveAt(items, IndexOf(items, n))
                  && r == InsertAt(RemoveAt(items, IndexOf(items, n)), IndexOf(RemoveAt(items, IndexOf(items, n)), p) + 1, n)
                else if n !in items[idx..] then r == items + [n]
                else r == items)
  {
    StaleIndexDecides(items, p, idx, placed, n);
    StaleIndexKept(items, p, idx, placed, n);
    PlaceOneFacts(items, p, n);
    if n in items[..idx] { DeleteAndInsert(items, p, n); }
  }

  class BuildList {
    var items: seq<Package>

    constructor ()
      ensures items == []
    {
      items := [];
    }

    /** `figure_out_build_order` */
    method FigureOutBuildOrder(g: Graph, package: Package)
      requires WellFormed(g) && Acyclic(g) && package in g
      requires NoDuplicates(items) && package in items
      modifies this
      ensures items == Settle(g, package, old(items))
      decreases |Dependencies(g, package)|
    {
      hide Acyclic, Keeps, Ordered, PlaceAll, DependenciesOf;
      var neighbors := g[package];
      NotItsOwnNeighbour(g, package);
      PlaceNeighbors(package, neighbors);
      PlaceAllFacts(old(items), package, neighbors);
      ghost var settled := SettleAll(g, package, neighbors, items);
      for i := 0 to |neighbors|
        invariant NoDuplicates(items)
        invariant forall n :: n in neighbors ==> n in items
        invariant SettleAll(g, package, neighbors[i..], items) == settled
      {
        FewerDependencies(g, package, neighbors[i]);
        ghost var before := items;
        FigureOutBuildOrder(g, neighbors[i]);
        forall n | n in neighbors ensures n in items {
          assert n in Elements(before) && n in Elements(items);
        }
        assert neighbors[i..][1..] == neighbors[i + 1..];
      }
    }

    /** The first loop of `figure_out_build_order`, with the index taken before it. */
    method PlaceNeighbors(package: Package, neighbors: seq<Package>)
      requires NoDuplicates(items) && package in items
      requires NoDuplicates(neighbors) && package !in neighbors
      modifies this
      ensures items == PlaceAll(old(items), package, neighbors)
    {
      hide *;
      var idx := IndexOf(items, package);
      PlaceNone(items, package, neighbors);
      for i := 0 to |neighbors|
        invariant NoDuplicates(items) && StaleIndex(items, package, idx, neighbors[..i])
        invariant items == PlaceAll(old(items), package, neighbors[..i])
      {
        var neighbor := neighbors[i];
        ghost var placed := neighbors[..i];
        FreshNeighbor(neighbors, package, i);
        OneNeighbor(items, package, idx, placed, neighbor);
        PlaceNext(old(items), package, neighbors, i);
        if neighbor in items[..idx] {
          items := RemoveAt(items, IndexOf(items, neighbor));
          items := InsertAt(items, IndexOf(items, package) + 1, neighbor);
        } else if neighbor !in items[idx..] {
          items := items + [neighbor];
        }
      }
      assert neighbors[..|neighbors|] == neighbors;
    }

    /** `generate_build_order_for_single_graph` */
    method GenerateForSingleGraph(g: Graph, package: Package)
      requires WellFormed(g) && Acyclic(g) && package in g && NoDuplicates(items)
      modifies this
      ensures items == SingleOrder(g, package, old(items))
      ensures package in old(items) ==> items == old(items)
      ensures package !in old(items) ==> NoDuplicates(old(items) + [package]) && items == Settle(g, package, old(items) + [package])
    {
      AppendDistinct(items, package);
      if package !in items {
        AppendFacts(items, package);
        items := items + [package];
        FigureOutBuildOrder(g, package);
      }
    }
  }

  lemma AppendDistinct(s: seq<Package>, n: Package)
    requires NoDuplicates(s)
    ensures n !in s ==> NoDuplicates(s + [n])
  {
  }

  /** The list after `generate_build_order_for_single_graph`. */
  ghost function SingleOrder(g: Graph, p: Package, s: seq<Package>): (r: seq<Package>)
    requires WellFormed(g) && Acyclic(g) && p in g && NoDuplicates(s)
    ensures NoDuplicates(r) && Elements(r) >= Elements(s) + {p}
  {
    if p in s then s
    else
      AppendFacts(s, p);
      Settle(g, p, s + [p])
  }
}
