/**
 * Number of provinces (`Number_of_Provinces.py`): count the groups of cities
 * that an adjacency matrix connects, directly or through other cities. A
 * depth-first search from every city not yet visited marks its whole group;
 * the number of searches started is the answer.
 */
module NumberOfProvinces {
  import opened Paths

  /** Every row has an entry for each of the `|M|` cities (LeetCode 547's `n x n` matrix). */
  predicate WellFormed(M: seq<seq<int>>)
  {
    forall u :: 0 <= u < |M| ==> |M[u]| >= |M|
  }

  /** City `u` is directly connected to city `v`: the matrix entry is exactly `1`. */
  ghost function Link(M: seq<seq<int>>): (int, int) -> bool
  {
    (u: int, v: int) => 0 <= u < |M| && 0 <= v < |M| && v < |M[u]| && M[u][v] == 1
  }

  /** The cities whose `visited` flag is set. */
  ghost function Marked(visited: array<bool>): set<int>
    reads visited
  {
    set x | 0 <= x < visited.Length && visited[x]
  }

  /** The cities whose `visited` flag is still clear. */
  ghost function Unmarked(visited: array<bool>): set<int>
    reads visited
  {
    set x | 0 <= x < visited.Length && !visited[x]
  }

  /** The province of each of the first `i` cities: the cities reachable from it. */
  ghost function ProvincesBelow(M: seq<seq<int>>, i: int): set<set<int>>
  {
    set x | 0 <= x < i && x < |M| :: Component(Link(M), Below(|M|), x)
  }

  /** The provinces of the matrix: one set of cities per group. */
  ghost function Provinces(M: seq<seq<int>>): set<set<int>>
  {
    ProvincesBelow(M, |M|)
  }

  lemma MarkedSplit(visited: array<bool>)
    ensures Marked(visited) == Below(visited.Length) - Unmarked(visited)
    ensures Unmarked(visited) == Below(visited.Length) - Marked(visited)
  {
  }

  /**
   * `DFS(city_index)`: marks `city` and, neighbour by neighbour in increasing
   * order, searches from each directly connected city not yet visited.
   * Afterwards the visited cities are the ones visited before plus every city
   * that `city` reaches through cities that were unvisited.
   */
  method Dfs(M: seq<seq<int>>, visited: array<bool>, city: int)
    requires WellFormed(M) && visited.Length == |M|
    requires 0 <= city < |M| && !visited[city]
    modifies visited
    ensures Unmarked(visited) == old(Unmarked(visited)) - Component(Link(M), old(Unmarked(visited)), city)
    ensures Marked(visited) == old(Marked(visited)) + Component(Link(M), old(Unmarked(visited)), city)
    decreases |Unmarked(visited)|
  {
    ghost var E := Link(M);
    ghost var U0 := Unmarked(visited);
    ghost var V0 := Marked(visited);
    MarkedSplit(visited);
    visited[city] := true;
    assert Unmarked(visited) == U0 - {city};
    ExploreStart(E, U0, city, Below(|M|));
    var nb := 0;
    while nb < |M|
      invariant 0 <= nb <= |M|
      invariant Exploring(E, U0, Unmarked(visited), city, Below(|M|) - Below(nb))
    {
      ghost var U := Unmarked(visited);
      ghost var P := Below(|M|) - Below(nb);
      assert P - {nb} == Below(|M|) - Below(nb + 1);
      if M[city][nb] == 1 && !visited[nb] {
        assert nb in U && E(city, nb);
        SubsetSmaller(U, U0);
        Dfs(M, visited, nb);
        ExploreVisit(E, U0, U, city, P, nb);
      } else {
        ExploreSkip(E, U0, U, city, P, nb);
      }
      nb := nb + 1;
    }
    assert Below(|M|) - Below(|M|) == {};
    ExploreDone(E, U0, Unmarked(visited), city);
    ComponentBasics(E, U0, city);
    MarkedSplit(visited);
  }

  /**
   * The state of `findCircleNum`'s loop before city `i`, with `V` the visited
   * cities: every earlier city is visited, no link leaves `V`, nothing is
   * visited before the first search, and for a symmetric matrix `count` is
   * the number of distinct provinces of the earlier cities, which between
   * them hold every visited city.
   */
  ghost predicate Counting(M: seq<seq<int>>, V: set<int>, i: int, count: int)
  {
    && 0 <= i <= |M| && 0 <= count <= i
    && V <= Below(|M|)
    && (forall x :: 0 <= x < i ==> x in V)
    && (count == 0 ==> V == {})
    && Closed(Restrict(Link(M), Below(|M|)), V)
    && (Symmetric(Link(M)) ==> count == |ProvincesBelow(M, i)|)
    && (Symmetric(Link(M)) ==> forall v :: v in V ==>
          exists x :: 0 <= x < i && v in Component(Link(M), Below(|M|), x))
  }

  lemma CountStart(M: seq<seq<int>>)
    ensures Counting(M, {}, 0, 0)
  {
    assert ProvincesBelow(M, 0) == {};
  }

  /** An unvisited city: one more search, which adds the city's province. */
  lemma CountNew(M: seq<seq<int>>, V: set<int>, i: int, count: int)
    requires Counting(M, V, i, count) && i < |M| && i !in V
    ensures Counting(M, V + Component(Link(M), Below(|M|) - V, i), i + 1, count + 1)
  {
    ComponentBasics(Link(M), Below(|M|) - V, i);
    ClosedGrows(Link(M), Below(|M|), V, i);
    if Symmetric(Link(M)) {
      NewProvince(M, V, i, count);
    }
  }

  /** For a symmetric matrix, the search from an unvisited city adds a province not counted before. */
  lemma NewProvince(M: seq<seq<int>>, V: set<int>, i: int, count: int)
    requires Counting(M, V, i, count) && i < |M| && i !in V && Symmetric(Link(M))
    ensures count + 1 == |ProvincesBelow(M, i + 1)|
    ensures forall v :: v in V + Component(Link(M), Below(|M|) - V, i) ==>
      exists x :: 0 <= x < i + 1 && v in Component(Link(M), Below(|M|), x)
  {
    var E := Link(M);
    var All := Below(|M|);
    ComponentAfterRemoval(E, All, V, i);
    var K := Component(E, All, i);
    ComponentBasics(E, All, i);
    assert K !in ProvincesBelow(M, i) by {
      if K in ProvincesBelow(M, i) {
        var x :| 0 <= x < i && K == Component(E, All, x);
        ClosedContains(Restrict(E, All), V, x, i);
        assert false;
      }
    }
    assert ProvincesBelow(M, i + 1) == ProvincesBelow(M, i) + {K};
  }

  /** A visited city: no search, and its province is already counted. */
  lemma CountOld(M: seq<seq<int>>, V: set<int>, i: int, count: int)
    requires Counting(M, V, i, count) && i < |M| && i in V
    ensures Counting(M, V, i + 1, count)
  {
    var E := Link(M);
    var All := Below(|M|);
    if Symmetric(E) {
      var x :| 0 <= x < i && i in Component(E, All, x);
      ComponentSame(E, All, x, i);
      assert ProvincesBelow(M, i + 1) == ProvincesBelow(M, i);
    }
  }

  lemma CountDone(M: seq<seq<int>>, V: set<int>, count: int)
    requires Counting(M, V, |M|, count)
    ensures 0 <= count <= |M|
    ensures |M| > 0 ==> count >= 1
    ensures Symmetric(Link(M)) ==> count == |Provinces(M)|
  {
    if |M| > 0 {
      assert 0 in V;
    }
  }

  /**
   * `findCircleNum`: the number of searches started. It never exceeds the
   * number of cities, is at least one when there is a city, and, when the
   * matrix is symmetric (as connections between cities are), it is the number
   * of provinces.
   */
  method FindCircleNum(M: seq<seq<int>>) returns (count: int)
    requires WellFormed(M)
    ensures 0 <= count <= |M|
    ensures |M| > 0 ==> count >= 1
    ensures Symmetric(Link(M)) ==> count == |Provinces(M)|
  {
    var n := |M|;
    var visited := new bool[n](_ => false);
    count := 0;
    assert Marked(visited) == {};
    CountStart(M);
    var i := 0;
    while i < n
      invariant visited.Length == n
      invariant Counting(M, Marked(visited), i, count)
    {
      ghost var V := Marked(visited);
      MarkedSplit(visited);
      if !visited[i] {
        Dfs(M, visited, i);
        CountNew(M, V, i, count);
        count := count + 1;
      } else {
        CountOld(M, V, i, count);
      }
      i := i + 1;
    }
    CountDone(M, Marked(visited), count);
  }

  /**
   * When the matrix is symmetric the provinces partition the cities: every
   * city lies in exactly one of them.
   */
  lemma ProvincesPartition(M: seq<seq<int>>, x: int)
    requires Symmetric(Link(M)) && 0 <= x < |M|
    ensures Component(Link(M), Below(|M|), x) in Provinces(M)
    ensures x in Component(Link(M), Below(|M|), x)
    ensures forall P :: P in Provinces(M) && x in P ==> P == Component(Link(M), Below(|M|), x)
  {
    ComponentBasics(Link(M), Below(|M|), x);
    forall P | P in Provinces(M) && x in P
      ensures P == Component(Link(M), Below(|M|), x)
    {
      var a :| 0 <= a < |M| && P == Component(Link(M), Below(|M|), a);
      ComponentSame(Link(M), Below(|M|), a, x);
    }
  }
}
