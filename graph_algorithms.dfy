/**
 * The graph algorithms of `graph-tasks/algorithmics.py`, run on a `Graph`
 * through its sorted adjacency list: breadth-first and depth-first visit
 * orders, weakly connected components, and per-component statistics.
 */
module GraphAlgorithms {
  import opened Errors
  import opened Paths
  import opened Sorting
  import opened Sweep
  import opened GraphAbc

  /** Rows with the same entries have the same neighbours. */
  lemma SameTargets(a: seq<Entry>, b: seq<Entry>, v: int)
    requires multiset(a) == multiset(b)
    ensures v in Targets(a) <==> v in Targets(b)
  {
    if v in Targets(a) {
      var k :| 0 <= k < |a| && a[k].0 == v;
      assert a[k] in multiset(b);
      var j :| 0 <= j < |b| && b[j] == a[k];
      assert Targets(b)[j] == v;
    }
    if v in Targets(b) {
      var k :| 0 <= k < |b| && b[k].0 == v;
      assert b[k] in multiset(a);
      var j :| 0 <= j < |a| && a[j] == b[k];
      assert Targets(a)[j] == v;
    }
  }

  /** The adjacency list has the edges of the store. */
  lemma SameSucc(n: int, store: seq<seq<Entry>>, adj: seq<seq<Entry>>)
    requires |store| == n && |adj| == n
    requires forall u :: 0 <= u < n ==> multiset(adj[u]) == multiset(store[u])
    ensures forall u, v :: Succ(adj)(u, v) <==> Succ(store)(u, v)
  {
    forall u, v | 0 <= u < n
      ensures v in Targets(adj[u]) <==> v in Targets(store[u])
    {
      SameTargets(adj[u], store[u], v);
    }
  }

  /**
   * The neighbour lists of the sorted adjacency list: every neighbour is a
   * vertex, and they hold the stored edges.
   */
  lemma TargetRows(n: int, store: seq<seq<Entry>>, adj: seq<seq<Entry>>, rows: seq<seq<int>>)
    requires WellFormed(n, store) && WellFormed(n, adj)
    requires forall u :: 0 <= u < n ==> multiset(adj[u]) == multiset(store[u])
    requires |rows| == n && forall u :: 0 <= u < n ==> rows[u] == Targets(adj[u])
    ensures ListsWithin(rows, n)
    ensures forall u, v :: Lists(rows)(u, v) <==> Succ(store)(u, v)
  {
    SameSucc(n, store, adj);
  }

  /**
   * For a relation with the stored edges, the component of `s` among all
   * vertices is what `s` reaches along the stored edges.
   */
  lemma ReachedAll(n: int, E: (int, int) -> bool, store: seq<seq<Entry>>, s: int, v: int)
    requires WellFormed(n, store) && 0 <= s < n
    requires forall a, b :: E(a, b) <==> Succ(store)(a, b)
    ensures v in Component(E, Below(n), s) <==> Reachable(Succ(store), s, v)
  {
    forall a, b | E(a, b)
      ensures a in Below(n) && b in Below(n)
    {
      var k :| 0 <= k < |store[a]| && store[a][k].0 == b;
    }
    ComponentOfAll(E, Below(n), s, v);
    if Reachable(E, s, v) {
      ReachMono(E, Succ(store), s, v);
    }
    if Reachable(Succ(store), s, v) {
      ReachMono(Succ(store), E, s, v);
    }
  }

  /**
   * `bfs(graph, start)`: `IndexError` for a start outside the vertices;
   * otherwise the vertices in the order the FIFO sweep takes them from the
   * queue: `start` first, none twice, exactly the vertices `start` reaches
   * along stored edges, and each after the first is a neighbour of one
   * taken before it.
   */
  method Bfs(g: Graph, start: int) returns (r: Result<seq<int>>)
    requires g.Valid()
    ensures r.Err? <==> !(0 <= start < g.vertices)
    ensures r.Err? ==> r.error == IndexError
    ensures r.Ok? ==> r.value != [] && r.value[0] == start && Distinct(r.value)
    ensures r.Ok? ==> forall v :: v in r.value <==> Reachable(Succ(g.store), start, v)
    ensures r.Ok? ==> Discovered(Succ(g.store), r.value, |r.value|)
  {
    if !(0 <= start < g.vertices) {
      return Err(IndexError);
    }
    var adj := g.GetAdjacencyList();
    var n := g.vertices;
    var rows := seq(n, u requires 0 <= u < n => Targets(adj[u]));
    TargetRows(n, g.store, adj, rows);
    var order, visited := SweepFrom(rows, n, start, {});
    assert Below(n) - {} == Below(n);
    forall v
      ensures v in order <==> Reachable(Succ(g.store), start, v)
    {
      ReachedAll(n, Lists(rows), g.store, start, v);
    }
    DiscoveredSame(Lists(rows), Succ(g.store), order, |order|);
    return Ok(order);
  }

  /** The `i`-th listed vertex is a successor of one listed before it at position `lo` or later. */
  ghost predicate FoundAfter(E: (int, int) -> bool, all: seq<int>, lo: int, i: int)
  {
    0 <= lo <= i < |all| && exists j :: lo <= j < i && E(all[j], all[i])
  }

  /** Every listed vertex after position `lo` was found from one listed between `lo` and it. */
  ghost predicate Preorder(E: (int, int) -> bool, all: seq<int>, lo: int)
  {
    forall i :: lo < i < |all| ==> FoundAfter(E, all, lo, i)
  }

  /** The visit of a successor `v` of `u` appends a list found from `v`, itself a successor of `u`. */
  lemma PreorderExtend(E: (int, int) -> bool, p: seq<int>, q: seq<int>, lo: int, v: int)
    requires Preorder(E, p, lo) && 0 <= lo < |p| && E(p[lo], v)
    requires |q| > |p| && q[..|p|] == p && q[|p|] == v && Preorder(E, q, |p|)
    ensures Preorder(E, q, lo)
  {
    forall i | lo < i < |q|
      ensures FoundAfter(E, q, lo, i)
    {
      if i < |p| {
        assert FoundAfter(E, p, lo, i);
        var j :| lo <= j < i && E(p[j], p[i]);
        var a, b := q[j], q[i];
        assert a == p[j] && b == p[i];
        assert E(a, b);
      } else if i == |p| {
        var a, b := q[lo], q[i];
        assert a == p[lo];
        assert E(a, b);
      } else {
        assert FoundAfter(E, q, |p|, i);
      }
    }
  }

  /**
   * `all[i..e]` is the block a recursive visit of `all[i]` appends before
   * control returns to its caller: it lists exactly what `all[i]` reaches
   * through the vertices not listed before it, and each vertex in it after
   * `all[i]` is a successor of one listed earlier in the block.
   */
  ghost predicate Block(E: (int, int) -> bool, n: int, all: seq<int>, i: int, e: int)
  {
    0 <= i < e <= |all| &&
    Elems(all[i..e]) == Component(E, Below(n) - Elems(all[..i]), all[i]) &&
    Preorder(E, all[..e], i)
  }

  /** The vertex at position `i` heads a block. */
  ghost predicate Heads(E: (int, int) -> bool, n: int, all: seq<int>, i: int)
  {
    0 <= i < |all| && exists e :: Block(E, n, all, i, e)
  }

  /** Depth-first nesting: every vertex listed from position `lo` on heads its block. */
  ghost predicate Nested(E: (int, int) -> bool, n: int, all: seq<int>, lo: int)
  {
    forall i :: lo <= i < |all| ==> Heads(E, n, all, i)
  }

  /** A block stays a block when the list is extended. */
  lemma HeadsExtend(E: (int, int) -> bool, n: int, p: seq<int>, q: seq<int>, i: int)
    requires Heads(E, n, p, i) && |q| >= |p| && q[..|p|] == p
    ensures Heads(E, n, q, i)
  {
    var e :| Block(E, n, p, i, e);
    forall k | 0 <= k < |p|
      ensures q[k] == p[k]
    {
      assert q[..|p|][k] == q[k];
    }
    assert q[i..e] == p[i..e] && q[..i] == p[..i] && q[..e] == p[..e];
    assert Block(E, n, q, i, e);
  }

  /** Relations with the same steps give the same blocks. */
  lemma NestedSame(E1: (int, int) -> bool, E2: (int, int) -> bool, n: int, all: seq<int>, lo: int)
    requires Nested(E1, n, all, lo)
    requires forall u, v :: E1(u, v) <==> E2(u, v)
    ensures Nested(E2, n, all, lo)
  {
    forall i | lo <= i < |all|
      ensures Heads(E2, n, all, i)
    {
      assert Heads(E1, n, all, i);
      var e :| Block(E1, n, all, i, e);
      var U, x := Below(n) - Elems(all[..i]), all[i];
      forall u, v
        ensures E1(u, v) <==> E2(u, v)
      {
      }
      ComponentAgree(E1, E2, U, x);
      assert Elems(all[i..e]) == Component(E2, U, x);
      PreorderSame(E1, E2, all[..e], i);
      assert Block(E2, n, all, i, e);
    }
  }

  /** A list without repeats splits at `k` into two disjoint parts. */
  lemma ElemsSplit(s: seq<int>, k: int)
    requires Distinct(s) && 0 <= k <= |s|
    ensures Elems(s) == Elems(s[..k]) + Elems(s[k..])
    ensures Elems(s[..k]) !! Elems(s[k..])
  {
    assert s == s[..k] + s[k..];
    forall x | x in Elems(s[k..])
      ensures x !in Elems(s[..k])
    {
      var j :| 0 <= j < |s| - k && s[k..][j] == x;
      assert s[k + j] == x;
      forall i | 0 <= i < k
        ensures s[..k][i] != x
      {
        assert s[..k][i] == s[i];
      }
    }
  }

  /**
   * The state of `_dfs_recursive(u)` while it runs through `u`'s list, the
   * visit having started from marks `visited0` and order `order0`: the
   * current marks are what the order holds, without repeats; the order
   * extends `order0` with `u` and vertices each found from one recorded
   * after `order0`, each after `u` heading its block (`Block`); and the search explores from `u` within the component
   * of `u` among the vertices unmarked at the start, with the successors in
   * `P` still to be examined.
   */
  ghost predicate Visiting(rows: seq<seq<int>>, n: int, visited0: set<int>, order0: seq<int>, u: int,
                           visited: set<int>, order: seq<int>, P: set<int>)
  {
    && visited <= Below(n) && u in visited
    && Exploring(Lists(rows), Below(n) - visited0, Below(n) - visited, u, P)
    && visited == Elems(order) && Distinct(order)
    && |order| > |order0| && order[..|order0|] == order0 && order[|order0|] == u
    && Preorder(Lists(rows), order, |order0|)
    && Nested(Lists(rows), n, order, |order0| + 1)
  }

  /**
   * What `_dfs_recursive(u)` achieves, from marks `visited0` and order
   * `order0` to marks `visited` and order `order`: the marks gain exactly
   * the vertices that `u` reaches through unmarked vertices, the order is
   * the marks without repeats, and it extends `order0` by `u` and then
   * vertices each found from one recorded before it in this visit; each
   * vertex from `u` on heads its block (depth-first nesting, `Block`).
   */
  ghost predicate Visited(rows: seq<seq<int>>, n: int, u: int, visited0: set<int>, order0: seq<int>,
                          visited: set<int>, order: seq<int>)
  {
    && visited == visited0 + Component(Lists(rows), Below(n) - visited0, u)
    && visited == Elems(order) && Distinct(order)
    && |order| > |order0| && order[..|order0|] == order0 && order[|order0|] == u
    && Preorder(Lists(rows), order, |order0|)
    && Nested(Lists(rows), n, order, |order0|)
  }

  lemma VisitStart(rows: seq<seq<int>>, n: int, visited0: set<int>, order0: seq<int>, u: int)
    requires ListsWithin(rows, n)
    requires visited0 <= Below(n) && 0 <= u < n && u !in visited0
    requires visited0 == Elems(order0) && Distinct(order0)
    ensures Visiting(rows, n, visited0, order0, u, visited0 + {u}, order0 + [u], Pending(rows[u], 0))
  {
    ExtendDistinct(order0, u);
    PendingEnds(rows[u]);
    ExploreStart(Lists(rows), Below(n) - visited0, u, Pending(rows[u], 0));
    assert (Below(n) - visited0) - {u} == Below(n) - (visited0 + {u});
    assert (order0 + [u])[..|order0|] == order0;
  }

  /** While visiting `u`, fewer vertices are unmarked than at the start. */
  lemma VisitMeasure(rows: seq<seq<int>>, n: int, visited0: set<int>, order0: seq<int>, u: int,
                     visited: set<int>, order: seq<int>, P: set<int>)
    requires Visiting(rows, n, visited0, order0, u, visited, order, P)
    ensures |Below(n) - visited| < |Below(n) - visited0|
  {
    SubsetSmaller(Below(n) - visited, Below(n) - visited0);
  }

  /** The successor `v`, unmarked, has been visited: its component is marked and its order appended. */
  lemma VisitChild(rows: seq<seq<int>>, n: int, visited0: set<int>, order0: seq<int>, u: int,
                   visited: set<int>, order: seq<int>, P: set<int>, v: int,
                   visited': set<int>, order': seq<int>)
    requires Visiting(rows, n, visited0, order0, u, visited, order, P)
    requires Lists(rows)(u, v) && 0 <= v < n && v !in visited
    requires Visited(rows, n, v, visited, order, visited', order')
    ensures Visiting(rows, n, visited0, order0, u, visited', order', P - {v})
  {
    var E := Lists(rows);
    var U := Below(n) - visited;
    ExploreVisit(E, Below(n) - visited0, U, u, P, v);
    ComponentBasics(E, U, v);
    assert Below(n) - visited' == U - Component(E, U, v);
    PreorderExtend(E, order, order', |order0|, v);
    assert order'[..|order0|] == order'[..|order|][..|order0|];
    assert order'[|order0|] == order'[..|order|][|order0|];
    forall i | |order0| + 1 <= i < |order|
      ensures Heads(E, n, order', i)
    {
      HeadsExtend(E, n, order, order', i);
    }
  }

  lemma VisitSkip(rows: seq<seq<int>>, n: int, visited0: set<int>, order0: seq<int>, u: int,
                  visited: set<int>, order: seq<int>, P: set<int>, v: int)
    requires Visiting(rows, n, visited0, order0, u, visited, order, P)
    requires v in visited
    ensures Visiting(rows, n, visited0, order0, u, visited, order, P - {v})
  {
    ExploreSkip(Lists(rows), Below(n) - visited0, Below(n) - visited, u, P, v);
  }

  lemma VisitWeaken(rows: seq<seq<int>>, n: int, visited0: set<int>, order0: seq<int>, u: int,
                    visited: set<int>, order: seq<int>, P: set<int>, P': set<int>)
    requires Visiting(rows, n, visited0, order0, u, visited, order, P) && P <= P'
    ensures Visiting(rows, n, visited0, order0, u, visited, order, P')
  {
    ExploreWeaken(Lists(rows), Below(n) - visited0, Below(n) - visited, u, P, P');
  }

  /** Every successor examined: the marks gained the component of `u` among the vertices unmarked at the start. */
  lemma VisitDone(rows: seq<seq<int>>, n: int, visited0: set<int>, order0: seq<int>, u: int,
                  visited: set<int>, order: seq<int>)
    requires visited0 <= Below(n) && visited0 == Elems(order0)
    requires Visiting(rows, n, visited0, order0, u, visited, order, {})
    ensures Visited(rows, n, u, visited0, order0, visited, order)
  {
    var E := Lists(rows);
    var K := Component(E, Below(n) - visited0, u);
    ExploreDone(E, Below(n) - visited0, Below(n) - visited, u);
    ComponentBasics(E, Below(n) - visited0, u);
    assert visited == visited0 + K;
    assert order[..|order0|] == order0;
    ElemsSplit(order, |order0|);
    assert Elems(order[..|order0|]) == visited0;
    assert K !! visited0;
    assert Elems(order[|order0|..]) == visited - visited0;
    assert Elems(order[|order0|..]) == K;
    assert Block(E, n, order, |order0|, |order|) by {
      assert order[|order0|..|order|] == order[|order0|..];
      assert order[..|order|] == order;
    }
  }

  /**
   * `_dfs_recursive(u)` with the closed-over `visited` and `visit_order`
   * passed in and handed back: `u` is marked and recorded, then each listed
   * successor of `u` still unmarked, in list order, is visited in turn.
   * The marks gain exactly the vertices that `u` reaches through unmarked
   * vertices; the order is extended by them, `u` first, each found from a
   * vertex recorded before it in this visit, each heading the block of the
   * vertices it reaches through those not yet recorded, each found inside
   * its block, and still repeats nothing.
   */
  method DfsVisit(rows: seq<seq<int>>, n: int, u: int, visited0: set<int>, order0: seq<int>)
    returns (visited: set<int>, order: seq<int>)
    requires ListsWithin(rows, n)
    requires visited0 <= Below(n) && 0 <= u < n && u !in visited0
    requires visited0 == Elems(order0) && Distinct(order0)
    ensures Visited(rows, n, u, visited0, order0, visited, order)
    decreases |Below(n) - visited0|
  {
    visited := visited0 + {u};
    order := order0 + [u];
    VisitStart(rows, n, visited0, order0, u);
    var k := 0;
    while k < |rows[u]|
      invariant 0 <= k <= |rows[u]|
      invariant Visiting(rows, n, visited0, order0, u, visited, order, Pending(rows[u], k))
    {
      var v := rows[u][k];
      PendingStep(rows[u], k);
      if v !in visited {
        VisitMeasure(rows, n, visited0, order0, u, visited, order, Pending(rows[u], k));
        var visited', order' := DfsVisit(rows, n, v, visited, order);
        VisitChild(rows, n, visited0, order0, u, visited, order, Pending(rows[u], k), v, visited', order');
        visited, order := visited', order';
      } else {
        VisitSkip(rows, n, visited0, order0, u, visited, order, Pending(rows[u], k), v);
      }
      VisitWeaken(rows, n, visited0, order0, u, visited, order, Pending(rows[u], k) - {v}, Pending(rows[u], k + 1));
      k := k + 1;
    }
    PendingEnds(rows[u]);
    VisitDone(rows, n, visited0, order0, u, visited, order);
  }

  /** A new vertex appended to a list without repeats. */
  lemma ExtendDistinct(s: seq<int>, x: int)
    requires Distinct(s) && x !in Elems(s)
    ensures Distinct(s + [x]) && Elems(s + [x]) == Elems(s) + {x}
  {
    forall i, j | 0 <= i < j < |s + [x]|
      ensures (s + [x])[i] != (s + [x])[j]
    {
      if j == |s| {
        assert (s + [x])[i] == s[i] && s[i] in Elems(s);
      } else {
        assert (s + [x])[i] == s[i] && (s + [x])[j] == s[j];
      }
    }
  }

  /**
   * `dfs(graph, start)`: `IndexError` for a start outside the vertices;
   * otherwise the order of the recursive search: `start` first, none
   * twice, exactly the vertices `start` reaches along stored edges, each
   * after the first a neighbour of one recorded before it, and each
   * heading a block of exactly the vertices it reaches through those not
   * recorded before it, each of them found inside the block (breadth-first
   * orders can fail this: see `BreadthOrderNotNested` and
   * `CrossOrderNotNested`).
   */
  method Dfs(g: Graph, start: int) returns (r: Result<seq<int>>)
    requires g.Valid()
    ensures r.Err? <==> !(0 <= start < g.vertices)
    ensures r.Err? ==> r.error == IndexError
    ensures r.Ok? ==> r.value != [] && r.value[0] == start && Distinct(r.value)
    ensures r.Ok? ==> forall v :: v in r.value <==> Reachable(Succ(g.store), start, v)
    ensures r.Ok? ==> Preorder(Succ(g.store), r.value, 0)
    ensures r.Ok? ==> Nested(Succ(g.store), g.vertices, r.value, 0)
  {
    if !(0 <= start < g.vertices) {
      return Err(IndexError);
    }
    var adj := g.GetAdjacencyList();
    var n := g.vertices;
    var rows := seq(n, u requires 0 <= u < n => Targets(adj[u]));
    TargetRows(n, g.store, adj, rows);
    assert Elems([]) == {};
    var visited, order := DfsVisit(rows, n, start, {}, []);
    assert Below(n) - {} == Below(n);
    forall v
      ensures v in order <==> Reachable(Succ(g.store), start, v)
    {
      ReachedAll(n, Lists(rows), g.store, start, v);
    }
    PreorderSame(Lists(rows), Succ(g.store), order, 0);
    NestedSame(Lists(rows), Succ(g.store), n, order, 0);
    return Ok(order);
  }

  lemma PreorderSame(E1: (int, int) -> bool, E2: (int, int) -> bool, all: seq<int>, lo: int)
    requires Preorder(E1, all, lo)
    requires forall u, v :: E1(u, v) ==> E2(u, v)
    ensures Preorder(E2, all, lo)
  {
    forall i | lo < i < |all|
      ensures FoundAfter(E2, all, lo, i)
    {
      assert FoundAfter(E1, all, lo, i);
      var j :| lo <= j < i && E1(all[j], all[i]);
      var a, b := all[j], all[i];
      assert E1(a, b);
    }
  }

  /**
   * Nesting rules out orders the predecessor condition lets through: on the store 0 -> 1,
   * 0 -> 2, 1 -> 3 the breadth-first order [0, 1, 2, 3] lists each vertex
   * after a predecessor, yet 1 heads no block, since what 1 reaches beyond
   * 0 is {1, 3}.
   */
  lemma BreadthOrderNotNested()
    ensures Preorder(Lists([[1, 2], [3], [], []]), [0, 1, 2, 3], 0)
    ensures !Nested(Lists([[1, 2], [3], [], []]), 4, [0, 1, 2, 3], 0)
  {
    var rows: seq<seq<int>> := [[1, 2], [3], [], []];
    var E := Lists(rows);
    var all := [0, 1, 2, 3];
    assert E(all[0], all[1]) && E(all[0], all[2]) && E(all[1], all[3]);
    assert FoundAfter(E, all, 0, 1) && FoundAfter(E, all, 0, 2) && FoundAfter(E, all, 0, 3);
    assert all[..1] == [0] && Elems([0]) == {0};
    var U := Below(4) - Elems(all[..1]);
    assert U == {1, 2, 3};
    var F := Restrict(E, U);
    assert F(1, 3);
    ReachRefl(F, 1);
    ReachStep(F, 1, 1, 3);
    assert Closed(F, {1, 3}) by {
      forall u, v | u in {1, 3} && F(u, v)
        ensures v in {1, 3}
      {
        assert v in rows[u];
      }
    }
    if Reachable(F, 1, 2) {
      ClosedContains(F, {1, 3}, 1, 2);
    }
    assert 3 in Component(E, U, 1) && 2 !in Component(E, U, 1);
    forall e | 1 < e <= 4
      ensures Elems(all[1..e]) != Component(E, U, 1)
    {
      if e == 2 {
        assert 3 !in Elems(all[1..e]);
      } else {
        assert all[1..e][1] == 2;
      }
    }
    assert !Heads(E, 4, all, 1);
  }

  /**
   * The predecessor condition inside each block is needed too: on the store
   * 0 -> 1, 0 -> 2, 1 -> 3, 3 -> 2 the breadth-first order [0, 1, 2, 3]
   * lists each vertex after a predecessor and `all[1..4]` holds exactly
   * what 1 reaches beyond 0, yet 2 has no predecessor inside that block.
   */
  lemma CrossOrderNotNested()
    ensures Preorder(Lists([[1, 2], [3], [], [2]]), [0, 1, 2, 3], 0)
    ensures Elems([1, 2, 3]) == Component(Lists([[1, 2], [3], [], [2]]), Below(4) - {0}, 1)
    ensures !Nested(Lists([[1, 2], [3], [], [2]]), 4, [0, 1, 2, 3], 0)
  {
    var rows: seq<seq<int>> := [[1, 2], [3], [], [2]];
    var E := Lists(rows);
    var all := [0, 1, 2, 3];
    assert E(all[0], all[1]) && E(all[0], all[2]) && E(all[1], all[3]);
    assert FoundAfter(E, all, 0, 1) && FoundAfter(E, all, 0, 2) && FoundAfter(E, all, 0, 3);
    assert all[..1] == [0] && Elems([0]) == {0};
    var U := Below(4) - Elems(all[..1]);
    assert U == {1, 2, 3};
    var F := Restrict(E, U);
    assert F(1, 3) && F(3, 2);
    ReachRefl(F, 1);
    ReachStep(F, 1, 1, 3);
    ReachStep(F, 1, 3, 2);
    ComponentBasics(E, U, 1);
    assert Elems([1, 2, 3]) == {1, 2, 3};
    assert Component(E, U, 1) == {1, 2, 3};
    assert !E(all[1], all[2]);
    forall e | 1 < e <= 4
      ensures !Block(E, 4, all, 1, e)
    {
      if e == 2 {
        assert 3 !in Elems(all[1..e]);
      } else if e == 3 {
        assert 3 !in Elems(all[1..e]);
      } else {
        assert !FoundAfter(E, all[..e], 1, 2);
      }
    }
    assert !Heads(E, 4, all, 1);
  }

  /** Along a list in which each vertex after position `lo` follows a predecessor, `all[lo]` reaches every later vertex through the listed ones. */
  lemma {:induction false} PreorderReach(E: (int, int) -> bool, U: set<int>, all: seq<int>, lo: int, k: int)
    requires Preorder(E, all, lo) && 0 <= lo <= k < |all| && Elems(all[lo..]) <= U
    ensures Reachable(Restrict(E, U), all[lo], all[k])
    decreases k
  {
    if k == lo {
      ReachRefl(Restrict(E, U), all[lo]);
    } else {
      assert FoundAfter(E, all, lo, k);
      var j :| lo <= j < k && E(all[j], all[k]);
      PreorderReach(E, U, all, lo, j);
      assert all[lo..][j - lo] == all[j] && all[lo..][k - lo] == all[k];
      ReachStep(Restrict(E, U), all[lo], all[j], all[k]);
    }
  }

  /** In a list of all the vertices, a vertex each later one follows heads the block running to the end. */
  lemma LastBlock(E: (int, int) -> bool, n: int, all: seq<int>, i: int)
    requires 0 <= i < |all| && Distinct(all) && Elems(all) == Below(n) && Preorder(E, all, i)
    ensures Block(E, n, all, i, |all|)
  {
    var U := Below(n) - Elems(all[..i]);
    ElemsSplit(all, i);
    assert U == Elems(all[i..]);
    assert all[i..|all|] == all[i..] && all[..|all|] == all;
    ComponentBasics(E, U, all[i]);
    forall v | v in Elems(all[i..])
      ensures v in Component(E, U, all[i])
    {
      var k :| 0 <= k < |all| - i && all[i..][k] == v;
      PreorderReach(E, U, all, i, i + k);
    }
  }

  /**
   * The order the source's recursion yields on that store, [0, 1, 3, 2],
   * is nested: each vertex heads the block after it.
   */
  lemma DepthOrderNested()
    ensures Nested(Lists([[1, 2], [3], [], [2]]), 4, [0, 1, 3, 2], 0)
  {
    var rows: seq<seq<int>> := [[1, 2], [3], [], [2]];
    var E := Lists(rows);
    var all := [0, 1, 3, 2];
    assert E(0, 1) && E(1, 3) && E(3, 2) && E(0, 2);
    assert FoundAfter(E, all, 0, 1) && FoundAfter(E, all, 1, 2) && FoundAfter(E, all, 2, 3);
    assert FoundAfter(E, all, 0, 2) && FoundAfter(E, all, 0, 3) && FoundAfter(E, all, 1, 3);
    assert Elems(all) == Below(4) by {
      forall v | v in Below(4)
        ensures v in Elems(all)
      {
        assert v == all[0] || v == all[1] || v == all[2] || v == all[3];
      }
    }
    LastBlock(E, 4, all, 0);
    LastBlock(E, 4, all, 1);
    LastBlock(E, 4, all, 2);
    LastBlock(E, 4, all, 3);
  }



  /** `<` on vertices, the order `sorted` and `sort()` use on lists of vertices. */
  function IntLess(): (int, int) -> bool
  {
    (a: int, b: int) => a < b
  }

  function IntLe(): (int, int) -> bool
  {
    (a: int, b: int) => a <= b
  }

  lemma IntOrders()
    ensures StrictTotalOrder(IntLess()) && TotalPreorder(IntLe())
  {
  }

  /**
   * The stored edge from `a` to `b` has been mirrored by the loop of
   * `connected_components` that has gone through the lists of the vertices
   * before `u` and the first `k` entries of `u`'s list.
   */
  ghost predicate Seen(adj: seq<seq<Entry>>, u: int, k: int, a: int, b: int)
  {
    && 0 <= a < |adj|
    && ((a < u && b in Targets(adj[a])) || (a == u && 0 <= k <= |adj[a]| && b in Targets(adj[a])[..k]))
  }

  /** The mirrored lists so far: `b` is listed for `a` just when an edge between them has been seen. */
  ghost predicate MirroredSoFar(adj: seq<seq<Entry>>, n: int, u: int, k: int, rows: seq<seq<int>>)
  {
    |rows| == n && forall a, b :: 0 <= a < n ==> (b in rows[a] <==> Seen(adj, u, k, a, b) || Seen(adj, u, k, b, a))
  }

  /** The inner loop over `u`'s list: `search_adj[u].append(v)`, `search_adj[v].append(u)`. */
  method MirrorRow(adj: seq<seq<Entry>>, n: int, u: int, rows0: seq<seq<int>>) returns (rows: seq<seq<int>>)
    requires WellFormed(n, adj) && 0 <= u < n
    requires MirroredSoFar(adj, n, u, 0, rows0)
    ensures MirroredSoFar(adj, n, u + 1, 0, rows)
  {
    rows := rows0;
    var neighbours := adj[u];
    for k := 0 to |neighbours|
      invariant MirroredSoFar(adj, n, u, k, rows)
    {
      var v := neighbours[k].0;
      SeenStep(adj, u, k);
      rows := rows[u := rows[u] + [v]];
      rows := rows[v := rows[v] + [u]];
    }
    SeenRow(adj, u);
  }

  lemma SeenStep(adj: seq<seq<Entry>>, u: int, k: int)
    requires 0 <= u < |adj| && 0 <= k < |adj[u]|
    ensures forall a, b :: Seen(adj, u, k + 1, a, b) <==> Seen(adj, u, k, a, b) || (a == u && b == adj[u][k].0)
  {
    assert Targets(adj[u])[..k + 1] == Targets(adj[u])[..k] + [adj[u][k].0];
    forall a, b
      ensures Seen(adj, u, k + 1, a, b) <==> Seen(adj, u, k, a, b) || (a == u && b == adj[u][k].0)
    {
      if a == u {
        assert b in Targets(adj[u])[..k + 1] <==> b in Targets(adj[u])[..k] || b == adj[u][k].0;
      }
    }
  }

  lemma SeenRow(adj: seq<seq<Entry>>, u: int)
    requires 0 <= u < |adj|
    ensures forall a, b :: Seen(adj, u + 1, 0, a, b) <==> Seen(adj, u, |adj[u]|, a, b)
  {
    assert Targets(adj[u])[..|adj[u]|] == Targets(adj[u]);
  }

  /**
   * `search_adj` of a directed graph: each stored edge added at both ends,
   * then each list replaced by `sorted(list(set(...)))`. Every list holds
   * exactly the vertices joined to its vertex by an edge in either
   * direction, in increasing order.
   */
  method MirrorRows(adj: seq<seq<Entry>>, n: int) returns (rows: seq<seq<int>>)
    requires WellFormed(n, adj)
    ensures ListsWithin(rows, n)
    ensures forall a, b :: Lists(rows)(a, b) <==> Weak(adj)(a, b)
    ensures forall a :: 0 <= a < n ==> Increasing(rows[a], IntLess())
  {
    rows := seq(n, _ => []);
    for u := 0 to n
      invariant MirroredSoFar(adj, n, u, 0, rows)
    {
      rows := MirrorRow(adj, n, u, rows);
    }
    IntOrders();
    ghost var rows0 := rows;
    for u := 0 to n
      invariant |rows| == n
      invariant forall a :: 0 <= a < n ==> Elems(rows[a]) == Elems(rows0[a])
      invariant forall a :: 0 <= a < u ==> Increasing(rows[a], IntLess())
    {
      rows := rows[u := SortedSet(Elems(rows[u]), IntLess())];
    }
    MirrorDone(adj, n, rows0, rows);
  }

  lemma MirrorDone(adj: seq<seq<Entry>>, n: int, rows0: seq<seq<int>>, rows: seq<seq<int>>)
    requires WellFormed(n, adj) && MirroredSoFar(adj, n, n, 0, rows0)
    requires |rows| == n && forall a :: 0 <= a < n ==> Elems(rows[a]) == Elems(rows0[a])
    ensures ListsWithin(rows, n)
    ensures forall a, b :: Lists(rows)(a, b) <==> Weak(adj)(a, b)
  {
    forall a, b
      ensures Lists(rows)(a, b) <==> Weak(adj)(a, b)
    {
      assert Seen(adj, n, 0, a, b) <==> Succ(adj)(a, b);
      assert Seen(adj, n, 0, b, a) <==> Succ(adj)(b, a);
      if 0 <= a < n {
        assert b in rows[a] <==> b in Elems(rows0[a]);
      }
    }
    forall a, k | 0 <= a < n && 0 <= k < |rows[a]|
      ensures 0 <= rows[a][k] < n
    {
      var b := rows[a][k];
      assert b in Elems(rows0[a]);
      if Seen(adj, n, 0, a, b) {
        var j :| 0 <= j < |adj[a]| && adj[a][j].0 == b;
      } else {
        assert Seen(adj, n, 0, b, a);
      }
    }
  }

  /** The number of vertices the components hold between them. */
  function TotalSize(comps: seq<seq<int>>): int
  {
    if comps == [] then 0 else TotalSize(comps[..|comps| - 1]) + |comps[|comps| - 1]|
  }

  /** The vertex `x` is in one of the components. */
  ghost predicate Covered(comps: seq<seq<int>>, x: int)
  {
    exists c :: 0 <= c < |comps| && x in comps[c]
  }

  /**
   * The state of `connected_components`' loop before vertex `i`, over the
   * search lists `rows`: the earlier vertices are visited, no listed edge
   * leaves the visited vertices, which are exactly those of the components
   * found; the components are disjoint, non-empty, increasing, started
   * before `i` and in increasing order of their first vertices, and hold
   * as many vertices as are visited; and when the lists are symmetric each
   * component is everything its first vertex reaches.
   */
  ghost predicate Gathered(rows: seq<seq<int>>, n: int, i: int, visited: set<int>, comps: seq<seq<int>>)
  {
    && 0 <= i <= n && visited <= Below(n)
    && (forall x :: 0 <= x < i ==> x in visited)
    && Closed(Restrict(Lists(rows), Below(n)), visited)
    && (forall x :: x in visited <==> Covered(comps, x))
    && (forall c, d, x :: 0 <= c < d < |comps| && x in comps[c] ==> x !in comps[d])
    && (forall c :: 0 <= c < |comps| ==> comps[c] != [] && Increasing(comps[c], IntLess()) && comps[c][0] < i)
    && (forall c, d :: 0 <= c < d < |comps| ==> comps[c][0] < comps[d][0])
    && TotalSize(comps) == |visited|
    && (Symmetric(Lists(rows)) ==>
          forall c :: 0 <= c < |comps| ==> Elems(comps[c]) == Component(Lists(rows), Below(n), comps[c][0]))
  }

  lemma GatherStart(rows: seq<seq<int>>, n: nat)
    ensures Gathered(rows, n, 0, {}, [])
  {
  }

  /** A sorted list without repeats is increasing. */
  lemma SortIncreasing(s: seq<int>)
    requires Distinct(s)
    ensures Increasing(Sort(s, IntLe()), IntLess())
    ensures Elems(Sort(s, IntLe())) == Elems(s)
  {
    IntOrders();
    SortSorted(s, IntLe());
    SortDistinct(s, IntLe());
    var t := Sort(s, IntLe());
    forall x
      ensures x in t <==> x in s
    {
      assert x in t <==> x in multiset(t);
      assert x in s <==> x in multiset(s);
    }
  }

  /** An increasing list starts with its least member. */
  lemma FirstIsLeast(s: seq<int>, i: int)
    requires Increasing(s, IntLess()) && i in s && forall x :: x in s ==> i <= x
    ensures s[0] == i
  {
    var k :| 0 <= k < |s| && s[k] == i;
    assert s[0] in s;
    forall j | 0 <= j < |s|
      ensures s[0] <= s[j]
    {
      if j > 0 {
        assert IntLess()(s[0], s[j]);
      }
    }
  }

  /** An unvisited vertex: its sweep adds a new component, sorted. */
  lemma GatherNew(rows: seq<seq<int>>, n: int, i: int, visited: set<int>, comps: seq<seq<int>>, comp: seq<int>)
    requires ListsWithin(rows, n)
    requires Gathered(rows, n, i, visited, comps) && i < n && i !in visited
    requires Elems(comp) == Component(Lists(rows), Below(n) - visited, i) && Distinct(comp)
    ensures Gathered(rows, n, i + 1, visited + Elems(comp), comps + [Sort(comp, IntLe())])
  {
    var S := Lists(rows);
    ComponentBasics(S, Below(n) - visited, i);
    ClosedGrows(S, Below(n), visited, i);
    SortIncreasing(comp);
    GatherNewCover(rows, n, i, visited, comps, comp);
    GatherNewSize(visited, comps, comp);
    GatherNewComps(rows, n, i, visited, comps, comp);
  }

  /** The components with the new one appended keep their order, shape and disjointness. */
  lemma GatherNewComps(rows: seq<seq<int>>, n: int, i: int, visited: set<int>, comps: seq<seq<int>>, comp: seq<int>)
    requires ListsWithin(rows, n)
    requires Gathered(rows, n, i, visited, comps) && i < n && i !in visited
    requires Elems(comp) == Component(Lists(rows), Below(n) - visited, i) && Distinct(comp)
    ensures var comps' := comps + [Sort(comp, IntLe())];
      && (forall c, d, x :: 0 <= c < d < |comps'| && x in comps'[c] ==> x !in comps'[d])
      && (forall c :: 0 <= c < |comps'| ==> comps'[c] != [] && Increasing(comps'[c], IntLess()) && comps'[c][0] < i + 1)
      && (forall c, d :: 0 <= c < d < |comps'| ==> comps'[c][0] < comps'[d][0])
      && (Symmetric(Lists(rows)) ==>
            forall c :: 0 <= c < |comps'| ==> Elems(comps'[c]) == Component(Lists(rows), Below(n), comps'[c][0]))
  {
    var sorted := Sort(comp, IntLe());
    var comps' := comps + [sorted];
    SortIncreasing(comp);
    GatherNewFirst(rows, n, i, visited, comps, comp);
    GatherNewSymmetric(rows, n, i, visited, comps, comp);
    forall c, d, x | 0 <= c < d < |comps'| && x in comps'[c]
      ensures x !in comps'[d]
    {
      assert comps'[c] == comps[c];
      if d < |comps| {
        assert comps'[d] == comps[d];
      }
    }
    forall c | 0 <= c < |comps'|
      ensures comps'[c] != [] && Increasing(comps'[c], IntLess()) && comps'[c][0] < i + 1
    {
      if c < |comps| {
        assert comps'[c] == comps[c];
      }
    }
    forall c, d | 0 <= c < d < |comps'|
      ensures comps'[c][0] < comps'[d][0]
    {
      assert comps'[c] == comps[c];
      if d < |comps| {
        assert comps'[d] == comps[d];
      }
    }
    if Symmetric(Lists(rows)) {
      forall c | 0 <= c < |comps'|
        ensures Elems(comps'[c]) == Component(Lists(rows), Below(n), comps'[c][0])
      {
        if c < |comps| {
          assert comps'[c] == comps[c];
        }
      }
    }
  }

  /** The new component starts with `i`, after the first vertices of the earlier ones, and shares no vertex with them. */
  lemma GatherNewFirst(rows: seq<seq<int>>, n: int, i: int, visited: set<int>, comps: seq<seq<int>>, comp: seq<int>)
    requires Gathered(rows, n, i, visited, comps) && i < n && i !in visited
    requires Elems(comp) == Component(Lists(rows), Below(n) - visited, i) && Distinct(comp)
    ensures Sort(comp, IntLe()) != [] && Sort(comp, IntLe())[0] == i
    ensures forall c :: 0 <= c < |comps| ==> comps[c][0] < i
    ensures forall c, x :: 0 <= c < |comps| && x in comps[c] ==> x !in Sort(comp, IntLe())
  {
    var sorted := Sort(comp, IntLe());
    ComponentBasics(Lists(rows), Below(n) - visited, i);
    SortIncreasing(comp);
    assert i in sorted;
    forall x | x in sorted
      ensures i <= x
    {
      assert x in Elems(comp);
    }
    FirstIsLeast(sorted, i);
    forall c, x | 0 <= c < |comps| && x in comps[c]
      ensures x !in sorted
    {
      assert Covered(comps, x);
    }
  }

  lemma GatherNewCover(rows: seq<seq<int>>, n: int, i: int, visited: set<int>, comps: seq<seq<int>>, comp: seq<int>)
    requires Gathered(rows, n, i, visited, comps)
    requires Elems(comp) == Elems(Sort(comp, IntLe()))
    ensures forall x :: x in visited + Elems(comp) <==> Covered(comps + [Sort(comp, IntLe())], x)
  {
    var comps' := comps + [Sort(comp, IntLe())];
    forall x
      ensures x in visited + Elems(comp) <==> Covered(comps', x)
    {
      if x in visited {
        var c :| 0 <= c < |comps| && x in comps[c];
        assert comps'[c] == comps[c];
      } else if x in Elems(comp) {
        assert comps'[|comps|] == Sort(comp, IntLe());
      }
      if Covered(comps', x) {
        var c :| 0 <= c < |comps'| && x in comps'[c];
        if c < |comps| {
          assert comps'[c] == comps[c];
          assert Covered(comps, x);
        }
      }
    }
  }

  lemma GatherNewSize(visited: set<int>, comps: seq<seq<int>>, comp: seq<int>)
    requires TotalSize(comps) == |visited| && visited !! Elems(comp) && Distinct(comp)
    ensures TotalSize(comps + [Sort(comp, IntLe())]) == |visited + Elems(comp)|
  {
    var comps' := comps + [Sort(comp, IntLe())];
    assert comps'[..|comps|] == comps;
    ElemsSize(comp);
  }

  lemma GatherNewSymmetric(rows: seq<seq<int>>, n: int, i: int, visited: set<int>, comps: seq<seq<int>>, comp: seq<int>)
    requires ListsWithin(rows, n)
    requires Gathered(rows, n, i, visited, comps) && i < n && i !in visited
    requires Elems(comp) == Component(Lists(rows), Below(n) - visited, i) && Distinct(comp)
    ensures Symmetric(Lists(rows)) ==> Elems(comp) == Component(Lists(rows), Below(n), i)
  {
    if Symmetric(Lists(rows)) {
      ComponentAfterRemoval(Lists(rows), Below(n), visited, i);
    }
  }

  /** A visited vertex: nothing is added. */
  lemma GatherOld(rows: seq<seq<int>>, n: int, i: int, visited: set<int>, comps: seq<seq<int>>)
    requires Gathered(rows, n, i, visited, comps) && i < n && i in visited
    ensures Gathered(rows, n, i + 1, visited, comps)
  {
  }

  /**
   * The key of `components.sort(key=lambda comp: comp[0])`: lists compared
   * by their first vertex. It is false when either list is empty, so it is
   * a total preorder only on nonempty lists; every component is nonempty.
   */
  function ByFirst(): (seq<int>, seq<int>) -> bool
  {
    (a: seq<int>, b: seq<int>) => |a| > 0 && |b| > 0 && a[0] <= b[0]
  }

  /** After the last vertex: the components cover exactly the vertices and come in order of their first vertices. */
  lemma GatherDone(rows: seq<seq<int>>, n: nat, visited: set<int>, comps: seq<seq<int>>)
    requires Gathered(rows, n, n, visited, comps)
    ensures forall x :: Covered(comps, x) <==> 0 <= x < n
    ensures TotalSize(comps) == n
    ensures SortedBy(comps, ByFirst())
  {
    assert visited == Below(n);
    BelowSize(n);
  }

  /** With search lists that hold the edges in either direction, each component is what any of its vertices reaches. */
  lemma WeakComponents(rows: seq<seq<int>>, n: nat, store: seq<seq<Entry>>, visited: set<int>, comps: seq<seq<int>>)
    requires WellFormed(n, store) && ListsWithin(rows, n)
    requires Gathered(rows, n, n, visited, comps)
    requires forall a, b :: Lists(rows)(a, b) <==> Weak(store)(a, b)
    ensures forall c, x, y :: 0 <= c < |comps| && x in comps[c] ==>
      (y in comps[c] <==> Reachable(Weak(store), x, y))
    ensures forall u, v :: Succ(store)(u, v) ==>
      exists c :: 0 <= c < |comps| && u in comps[c] && v in comps[c]
  {
    var S := Lists(rows);
    var B := Below(n);
    assert Symmetric(S);
    forall a, b | S(a, b)
      ensures a in B && b in B
    {
      var k :| 0 <= k < |rows[a]| && rows[a][k] == b;
    }
    forall c, x, y | 0 <= c < |comps| && x in comps[c]
      ensures y in comps[c] <==> Reachable(Weak(store), x, y)
    {
      assert x in Elems(comps[c]);
      ComponentSame(S, B, comps[c][0], x);
      ComponentOfAll(S, B, x, y);
      assert y in comps[c] <==> y in Elems(comps[c]);
      if Reachable(S, x, y) {
        ReachMono(S, Weak(store), x, y);
      }
      if Reachable(Weak(store), x, y) {
        ReachMono(Weak(store), S, x, y);
      }
    }
    forall u, v | Succ(store)(u, v)
      ensures exists c :: 0 <= c < |comps| && u in comps[c] && v in comps[c]
    {
      assert Covered(comps, u);
      var c :| 0 <= c < |comps| && u in comps[c];
      ReachRefl(Weak(store), u);
      ReachStep(Weak(store), u, u, v);
    }
  }

  /**
   * The search lists of `connected_components` hold the edges in either
   * direction: by mirroring on a directed graph, and on an undirected graph
   * because it stores each edge at both ends.
   */
  lemma SearchIsWeak(n: int, directed: bool, store: seq<seq<Entry>>, adj: seq<seq<Entry>>, rows: seq<seq<int>>)
    requires |store| == n && |adj| == n
    requires forall u :: 0 <= u < n ==> multiset(adj[u]) == multiset(store[u])
    requires directed ==> forall a, b :: Lists(rows)(a, b) <==> Weak(adj)(a, b)
    requires !directed ==> forall a, b :: Lists(rows)(a, b) <==> Succ(store)(a, b)
    requires Mirrored(directed, store)
    ensures forall a, b :: Lists(rows)(a, b) <==> Weak(store)(a, b)
  {
    SameSucc(n, store, adj);
  }

  /**
   * The outer loop of `connected_components`: each vertex not yet visited
   * starts a sweep, whose sorted list is appended as a new component.
   */
  method Gather(rows: seq<seq<int>>, n: nat) returns (visited: set<int>, components: seq<seq<int>>)
    requires ListsWithin(rows, n)
    ensures Gathered(rows, n, n, visited, components)
  {
    visited := {};
    components := [];
    GatherStart(rows, n);
    for i := 0 to n
      invariant Gathered(rows, n, i, visited, components)
    {
      if i !in visited {
        var comp, visited' := SweepFrom(rows, n, i, visited);
        GatherNew(rows, n, i, visited, components, comp);
        comp := Sort(comp, IntLe());
        components := components + [comp];
        visited := visited';
      } else {
        GatherOld(rows, n, i, visited, components);
      }
    }
  }

  /**
   * `connected_components(graph)`: the vertices split into components,
   * each vertex in exactly one; each component is in increasing order and
   * the components are in increasing order of their first vertices. When
   * every edge of an undirected graph is stored at both ends (as `add_edge`
   * keeps it), and on any directed graph, the component of a vertex is
   * everything it reaches along edges taken in either direction, so the ends
   * of every stored edge share a component.
   */
  method ConnectedComponents(g: Graph) returns (components: seq<seq<int>>)
    requires g.Valid()
    ensures forall x :: Covered(components, x) <==> 0 <= x < g.vertices
    ensures forall c, d, x :: 0 <= c < d < |components| && x in components[c] ==> x !in components[d]
    ensures forall c :: 0 <= c < |components| ==> components[c] != [] && Increasing(components[c], IntLess())
    ensures forall c, d :: 0 <= c < d < |components| ==> components[c][0] < components[d][0]
    ensures TotalSize(components) == g.vertices
    ensures Mirrored(g.directed, g.store) ==>
      forall c, x, y :: 0 <= c < |components| && x in components[c] ==>
        (y in components[c] <==> Reachable(Weak(g.store), x, y))
    ensures Mirrored(g.directed, g.store) ==>
      forall u, v :: Succ(g.store)(u, v) ==>
        exists c :: 0 <= c < |components| && u in components[c] && v in components[c]
  {
    var adj := g.GetAdjacencyList();
    var n := g.vertices;
    var rows: seq<seq<int>>;
    if g.IsDirected() {
      rows := MirrorRows(adj, n);
    } else {
      rows := seq(n, u requires 0 <= u < n => Targets(adj[u]));
      TargetRows(n, g.store, adj, rows);
    }
    var visited;
    visited, components := Gather(rows, n);
    GatherDone(rows, n, visited, components);
    if Mirrored(g.directed, g.store) {
      SearchIsWeak(n, g.directed, g.store, adj, rows);
      WeakComponents(rows, n, g.store, visited, components);
    }
    SortOfSorted(components, ByFirst());
    components := Sort(components, ByFirst());
  }

  /** One entry of `components_with_stats`: the dictionary with keys `vertices`, `node_count`, `edge_count` and `smallest_vertex`. */
  datatype Stats = Stats(vertices: seq<int>, nodeCount: int, edgeCount: int, smallestVertex: int)

  /**
   * The entries of `u`'s list that `components_with_stats` counts for a
   * component with vertex set `C`: those whose neighbour is in `C` and, on
   * an undirected graph, greater than `u`.
   */
  function RowCount(directed: bool, u: int, row: seq<Entry>, C: set<int>): nat
  {
    if row == [] then 0
    else RowCount(directed, u, row[..|row| - 1], C) + (if Counted(directed, u, row[|row| - 1].0, C) then 1 else 0)
  }

  predicate Counted(directed: bool, u: int, v: int, C: set<int>)
  {
    v in C && (directed || u < v)
  }

  /** The counted entries of the lists of the listed vertices. */
  function EdgeCount(directed: bool, store: seq<seq<Entry>>, comp: seq<int>, C: set<int>): nat
  {
    if comp == [] then 0
    else
      var u := comp[|comp| - 1];
      EdgeCount(directed, store, comp[..|comp| - 1], C) + (if 0 <= u < |store| then RowCount(directed, u, store[u], C) else 0)
  }

  /** `edge_count` of a component: every stored edge inside it on a directed graph, and each inside edge from a smaller to a larger vertex on an undirected one. */
  function InternalEdges(directed: bool, store: seq<seq<Entry>>, comp: seq<int>): nat
  {
    EdgeCount(directed, store, comp, Elems(comp))
  }

  lemma {:induction false} RowCountAppend(directed: bool, u: int, a: seq<Entry>, b: seq<Entry>, C: set<int>)
    ensures RowCount(directed, u, a + b, C) == RowCount(directed, u, a, C) + RowCount(directed, u, b, C)
    decreases |b|
  {
    if b != [] {
      var b' := b[..|b| - 1];
      assert (a + b)[..|a + b| - 1] == a + b';
      RowCountAppend(directed, u, a, b', C);
    } else {
      assert a + b == a;
    }
  }

  lemma {:induction false} RowCountInsert(directed: bool, u: int, x: Entry, s: seq<Entry>, C: set<int>)
    ensures RowCount(directed, u, Insert(x, s, ByNeighbour()), C) == RowCount(directed, u, [x], C) + RowCount(directed, u, s, C)
    decreases |s|
  {
    if s == [] || ByNeighbour()(x, s[0]) {
      RowCountAppend(directed, u, [x], s, C);
    } else {
      RowCountInsert(directed, u, x, s[1..], C);
      RowCountAppend(directed, u, [s[0]], Insert(x, s[1..], ByNeighbour()), C);
      RowCountAppend(directed, u, [s[0]], s[1..], C);
      assert s == [s[0]] + s[1..];
    }
  }

  /** The count does not depend on the order of the list: the sorted adjacency list gives the stored count. */
  lemma {:induction false} RowCountSort(directed: bool, u: int, s: seq<Entry>, C: set<int>)
    ensures RowCount(directed, u, Sort(s, ByNeighbour()), C) == RowCount(directed, u, s, C)
    decreases |s|
  {
    if s != [] {
      RowCountSort(directed, u, s[1..], C);
      RowCountInsert(directed, u, s[0], Sort(s[1..], ByNeighbour()), C);
      RowCountAppend(directed, u, [s[0]], s[1..], C);
      assert s == [s[0]] + s[1..];
    }
  }

  lemma {:induction false} EdgeCountSorted(n: int, directed: bool, store: seq<seq<Entry>>, adj: seq<seq<Entry>>, comp: seq<int>, C: set<int>)
    requires |store| == n && |adj| == n
    requires forall u :: 0 <= u < n ==> adj[u] == Sort(store[u], ByNeighbour())
    ensures EdgeCount(directed, adj, comp, C) == EdgeCount(directed, store, comp, C)
    decreases |comp|
  {
    if comp != [] {
      var u := comp[|comp| - 1];
      EdgeCountSorted(n, directed, store, adj, comp[..|comp| - 1], C);
      if 0 <= u < n {
        RowCountSort(directed, u, store[u], C);
      }
    }
  }

  /** The nested loops of `components_with_stats` that compute `edge_count` of one component. */
  method CountInternal(adj: seq<seq<Entry>>, n: int, directed: bool, component: seq<int>) returns (edgeCount: int)
    requires WellFormed(n, adj) && forall x :: x in component ==> 0 <= x < n
    ensures edgeCount == InternalEdges(directed, adj, component)
  {
    var componentSet := Elems(component);
    edgeCount := 0;
    for p := 0 to |component|
      invariant edgeCount == EdgeCount(directed, adj, component[..p], componentSet)
    {
      var u := component[p];
      assert u in component;
      var row := adj[u];
      ghost var before := edgeCount;
      for k := 0 to |row|
        invariant edgeCount == before + RowCount(directed, u, row[..k], componentSet)
      {
        var v := row[k].0;
        assert row[..k + 1][..k] == row[..k];
        if v in componentSet {
          if directed {
            edgeCount := edgeCount + 1;
          } else if u < v {
            edgeCount := edgeCount + 1;
          }
        }
      }
      assert row[..|row|] == row;
      assert component[..p + 1][..p] == component[..p];
    }
    assert component[..|component|] == component;
  }

  /** What one entry says about its component: the listed vertices in increasing order, their number, the edges inside and the smallest vertex. */
  ghost predicate Summarises(directed: bool, store: seq<seq<Entry>>, e: Stats)
  {
    && e.vertices != [] && Increasing(e.vertices, IntLess())
    && e.nodeCount == |e.vertices|
    && e.smallestVertex == e.vertices[0]
    && e.edgeCount == InternalEdges(directed, store, e.vertices)
  }

  /** The sum of `node_count` over the entries. */
  function NodeTotal(stats: seq<Stats>): int
  {
    if stats == [] then 0 else stats[0].nodeCount + NodeTotal(stats[1..])
  }

  /** The vertex `x` is in the vertices of one of the entries. */
  ghost predicate Listed(stats: seq<Stats>, x: int)
  {
    exists e :: e in stats && x in e.vertices
  }

  /** The sort key `(-node_count, -edge_count, smallest_vertex)`: larger components first, then more edges, then the smaller least vertex. */
  function ByRank(): (Stats, Stats) -> bool
  {
    (a: Stats, b: Stats) =>
      || a.nodeCount > b.nodeCount
      || (a.nodeCount == b.nodeCount && a.edgeCount > b.edgeCount)
      || (a.nodeCount == b.nodeCount && a.edgeCount == b.edgeCount && a.smallestVertex <= b.smallestVertex)
  }

  lemma RankOrder()
    ensures TotalPreorder(ByRank())
  {
  }

  lemma {:induction false} NodeTotalAppend(s: seq<Stats>, e: Stats)
    ensures NodeTotal(s + [e]) == NodeTotal(s) + e.nodeCount
    decreases |s|
  {
    if s != [] {
      assert (s + [e])[1..] == s[1..] + [e];
      NodeTotalAppend(s[1..], e);
    }
  }

  lemma {:induction false} NodeTotalInsert(x: Stats, s: seq<Stats>, le: (Stats, Stats) -> bool)
    ensures NodeTotal(Insert(x, s, le)) == x.nodeCount + NodeTotal(s)
    decreases |s|
  {
    if s != [] && !le(x, s[0]) {
      NodeTotalInsert(x, s[1..], le);
      assert Insert(x, s, le)[1..] == Insert(x, s[1..], le);
    }
  }

  /** The total does not depend on the order of the entries. */
  lemma {:induction false} NodeTotalSort(s: seq<Stats>, le: (Stats, Stats) -> bool)
    ensures NodeTotal(Sort(s, le)) == NodeTotal(s)
    decreases |s|
  {
    if s != [] {
      NodeTotalSort(s[1..], le);
      NodeTotalInsert(s[0], Sort(s[1..], le), le);
    }
  }

  /**
   * What `components_with_stats` promises of its entries, in any order:
   * each summarises its component, the vertices of the entries are exactly
   * the graph's and no vertex is in two entries, the node counts add up to
   * the number of vertices and, on a mirrored store, each entry's vertices
   * are what any of them reaches over edges taken either way.
   */
  ghost predicate Summary(directed: bool, store: seq<seq<Entry>>, n: int, stats: seq<Stats>)
  {
    && (forall e :: e in stats ==> Summarises(directed, store, e))
    && (forall x :: Listed(stats, x) <==> 0 <= x < n)
    && (forall k, l, x :: 0 <= k < l < |stats| && x in stats[k].vertices ==> x !in stats[l].vertices)
    && NodeTotal(stats) == n
    && (Mirrored(directed, store) ==>
          forall e, x, y :: e in stats && x in e.vertices ==> (y in e.vertices <==> Reachable(Weak(store), x, y)))
  }

  /** The entries built in the order of the components, before the final sort. */
  lemma ListSummary(directed: bool, store: seq<seq<Entry>>, n: int, comps: seq<seq<int>>, list: seq<Stats>)
    requires forall x :: Covered(comps, x) <==> 0 <= x < n
    requires forall c, d, x :: 0 <= c < d < |comps| && x in comps[c] ==> x !in comps[d]
    requires forall c :: 0 <= c < |comps| ==> comps[c] != [] && Increasing(comps[c], IntLess())
    requires TotalSize(comps) == n
    requires Mirrored(directed, store) ==>
      forall c, x, y :: 0 <= c < |comps| && x in comps[c] ==> (y in comps[c] <==> Reachable(Weak(store), x, y))
    requires |list| == |comps| && NodeTotal(list) == n
    requires forall c :: 0 <= c < |comps| ==>
      list[c] == Stats(comps[c], |comps[c]|, InternalEdges(directed, store, comps[c]), comps[c][0])
    ensures Summary(directed, store, n, list) && Distinct(list)
  {
    forall e | e in list
      ensures Summarises(directed, store, e)
    {
      var c :| 0 <= c < |list| && list[c] == e;
    }
    forall x
      ensures Listed(list, x) <==> Covered(comps, x)
    {
      if Covered(comps, x) {
        var c :| 0 <= c < |comps| && x in comps[c];
        assert list[c] in list && x in list[c].vertices;
      }
      if Listed(list, x) {
        var e :| e in list && x in e.vertices;
        var c :| 0 <= c < |list| && list[c] == e;
        assert x in comps[c];
      }
    }
    forall k, l | 0 <= k < l < |list|
      ensures list[k] != list[l]
    {
      assert comps[k][0] in comps[k];
    }
    if Mirrored(directed, store) {
      forall e, x, y | e in list && x in e.vertices
        ensures y in e.vertices <==> Reachable(Weak(store), x, y)
      {
        var c :| 0 <= c < |list| && list[c] == e;
      }
    }
  }

  /** Two different entries at positions of `list` have no vertex in common. */
  lemma {:induction false} SortedDisjoint(list: seq<Stats>, stats: seq<Stats>)
    requires forall k, l, x :: 0 <= k < l < |list| && x in list[k].vertices ==> x !in list[l].vertices
    requires forall e :: e in stats <==> e in list
    requires Distinct(stats)
    ensures forall k, l, x :: 0 <= k < l < |stats| && x in stats[k].vertices ==> x !in stats[l].vertices
  {
    forall k, l, x | 0 <= k < l < |stats| && x in stats[k].vertices
      ensures x !in stats[l].vertices
    {
      assert stats[k] in stats && stats[l] in stats;
      var a :| 0 <= a < |list| && list[a] == stats[k];
      var b :| 0 <= b < |list| && list[b] == stats[l];
      assert a != b;
    }
  }

  /** Entries with the same members say the same about each vertex. */
  lemma SameEntries(directed: bool, store: seq<seq<Entry>>, list: seq<Stats>, stats: seq<Stats>)
    requires forall e :: e in stats <==> e in list
    ensures forall x :: Listed(stats, x) <==> Listed(list, x)
    ensures (forall e :: e in list ==> Summarises(directed, store, e)) ==>
      forall e :: e in stats ==> Summarises(directed, store, e)
  {
  }

  /** Sorting the entries keeps everything `Summary` says. */
  lemma RankedSummary(directed: bool, store: seq<seq<Entry>>, n: int, list: seq<Stats>)
    requires Summary(directed, store, n, list) && Distinct(list)
    ensures Summary(directed, store, n, Sort(list, ByRank()))
    ensures SortedBy(Sort(list, ByRank()), ByRank())
  {
    var stats := Sort(list, ByRank());
    SortMembers(list, ByRank());
    SortDistinct(list, ByRank());
    NodeTotalSort(list, ByRank());
    RankOrder();
    SortSorted(list, ByRank());
    SameEntries(directed, store, list, stats);
    SortedDisjoint(list, stats);
  }

  /** The loop of `components_with_stats` over the components: one entry per component, in their order. */
  method ListStats(adj: seq<seq<Entry>>, n: int, directed: bool, ghost store: seq<seq<Entry>>, comps: seq<seq<int>>)
    returns (statsList: seq<Stats>)
    requires WellFormed(n, adj) && |store| == n
    requires forall u :: 0 <= u < n ==> adj[u] == Sort(store[u], ByNeighbour())
    requires forall c :: 0 <= c < |comps| ==> comps[c] != [] && forall x :: x in comps[c] ==> 0 <= x < n
    ensures |statsList| == |comps|
    ensures forall c :: 0 <= c < |comps| ==>
      statsList[c] == Stats(comps[c], |comps[c]|, InternalEdges(directed, store, comps[c]), comps[c][0])
    ensures NodeTotal(statsList) == TotalSize(comps)
  {
    statsList := [];
    for c := 0 to |comps|
      invariant |statsList| == c
      invariant forall d :: 0 <= d < c ==>
        statsList[d] == Stats(comps[d], |comps[d]|, InternalEdges(directed, store, comps[d]), comps[d][0])
      invariant NodeTotal(statsList) == TotalSize(comps[..c])
    {
      var component := comps[c];
      var edgeCount := CountInternal(adj, n, directed, component);
      EdgeCountSorted(n, directed, store, adj, component, Elems(component));
      var entry := Stats(component, |component|, edgeCount, component[0]);
      assert entry == Stats(comps[c], |comps[c]|, InternalEdges(directed, store, comps[c]), comps[c][0]);
      NodeTotalAppend(statsList, entry);
      assert comps[..c + 1][..c] == comps[..c];
      statsList := statsList + [entry];
    }
    assert comps[..|comps|] == comps;
  }

  /**
   * `components_with_stats`: one entry per connected component, each
   * listing the component's vertices in increasing order with their number,
   * the edges inside it and its smallest vertex; the entries cover every
   * vertex once and come largest component first, then most edges, then
   * smallest least vertex.
   */
  method ComponentsWithStats(g: Graph) returns (stats: seq<Stats>)
    requires g.Valid()
    ensures forall e :: e in stats ==>
      && e.vertices != [] && Increasing(e.vertices, IntLess())
      && e.nodeCount == |e.vertices|
      && e.smallestVertex == e.vertices[0]
      && e.edgeCount == InternalEdges(g.directed, g.store, e.vertices)
    ensures forall x :: Listed(stats, x) <==> 0 <= x < g.vertices
    ensures forall k, l, x :: 0 <= k < l < |stats| && x in stats[k].vertices ==> x !in stats[l].vertices
    ensures NodeTotal(stats) == g.vertices
    ensures SortedBy(stats, ByRank())
    ensures Mirrored(g.directed, g.store) ==>
      forall e, x, y :: e in stats && x in e.vertices ==> (y in e.vertices <==> Reachable(Weak(g.store), x, y))
  {
    var comps := ConnectedComponents(g);
    var adj := g.GetAdjacencyList();
    forall c, x | 0 <= c < |comps| && x in comps[c]
      ensures 0 <= x < g.vertices
    {
      assert Covered(comps, x);
    }
    var statsList := ListStats(adj, g.vertices, g.IsDirected(), g.store, comps);
    ListSummary(g.directed, g.store, g.vertices, comps, statsList);
    RankedSummary(g.directed, g.store, g.vertices, statsList);
    stats := Sort(statsList, ByRank());
  }
}
