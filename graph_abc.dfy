/**
 * The graph type (`graph_abc.py`): a fixed number of vertices `0 .. n - 1`,
 * a `directed` flag and, per vertex, a list of `(neighbour, weight)` entries
 * in insertion order; and the three views derived from that store.
 */
module GraphAbc {
  import opened Errors
  import opened Paths
  import opened Sorting

  /** A stored adjacency entry `(neighbour, weight)`; weights are only copied. */
  type Entry = (int, real)

  /** One list per vertex, and every stored neighbour is a vertex. */
  ghost predicate WellFormed(n: int, store: seq<seq<Entry>>)
  {
    && n >= 0 && |store| == n
    && forall u, k :: 0 <= u < n && 0 <= k < |store[u]| ==> 0 <= store[u][k].0 < n
  }

  /** The neighbour indices of a stored list, in stored order: `[v for v, _ in row]`. */
  function Targets(row: seq<Entry>): seq<int>
  {
    seq(|row|, k requires 0 <= k < |row| => row[k].0)
  }

  /** A stored edge from `u` to `v`: `v` is a neighbour in `u`'s list. */
  ghost function Succ(store: seq<seq<Entry>>): (int, int) -> bool
  {
    (u: int, v: int) => 0 <= u < |store| && v in Targets(store[u])
  }

  /** An edge between `u` and `v` stored in either direction. */
  ghost function Weak(store: seq<seq<Entry>>): (int, int) -> bool
  {
    (u: int, v: int) => Succ(store)(u, v) || Succ(store)(v, u)
  }

  /** An undirected graph stores each of its edges at both ends. */
  ghost predicate Mirrored(directed: bool, store: seq<seq<Entry>>)
  {
    directed || Symmetric(Succ(store))
  }

  /** The sort key of `get_adjacency_list`: entries compared by neighbour index only. */
  function ByNeighbour(): (Entry, Entry) -> bool
  {
    (a: Entry, b: Entry) => a.0 <= b.0
  }

  lemma ByNeighbourOrders()
    ensures TotalPreorder(ByNeighbour())
  {
  }

  /** The entries of `row` whose neighbour is `v`, in stored order. */
  function EntriesTo(row: seq<Entry>, v: int): seq<Entry>
  {
    if row == [] then []
    else if row[0].0 == v then [row[0]] + EntriesTo(row[1..], v)
    else EntriesTo(row[1..], v)
  }

  lemma {:induction false} EntriesToAre(row: seq<Entry>, v: int)
    ensures EntriesTo(row, v) == Equals(row, ByNeighbour(), (v, 0.0))
    decreases |row|
  {
    if row != [] {
      EntriesToAre(row[1..], v);
    }
  }

  /**
   * Cell `(u, v)` of the adjacency matrix given `u`'s stored list: the weight
   * of the LAST entry for `v`, or `0.0` when there is none.
   */
  function Weight(row: seq<Entry>, v: int): real
    decreases |row|
  {
    if row == [] then 0.0
    else if row[|row| - 1].0 == v then row[|row| - 1].1
    else Weight(row[..|row| - 1], v)
  }

  lemma {:induction false} WeightOfLast(row: seq<Entry>, v: int, k: int)
    requires 0 <= k < |row| && row[k].0 == v
    requires forall j :: k < j < |row| ==> row[j].0 != v
    ensures Weight(row, v) == row[k].1
    decreases |row|
  {
    if k < |row| - 1 {
      WeightOfLast(row[..|row| - 1], v, k);
    }
  }

  lemma {:induction false} WeightOfAbsent(row: seq<Entry>, v: int)
    requires forall j :: 0 <= j < |row| ==> row[j].0 != v
    ensures Weight(row, v) == 0.0
    decreases |row|
  {
    if row != [] {
      WeightOfAbsent(row[..|row| - 1], v);
    }
  }

  /** Lexicographic order on pairs, Python's order on tuples. */
  function LexLess(): ((int, int), (int, int)) -> bool
  {
    (a: (int, int), b: (int, int)) => a.0 < b.0 || (a.0 == b.0 && a.1 < b.1)
  }

  lemma LexLessOrders()
    ensures StrictTotalOrder(LexLess())
  {
  }

  /** How an entry `u -> v` is recorded in the edge set: as is when directed, as `(min, max)` otherwise. */
  function EdgeKey(directed: bool, u: int, v: int): (int, int)
  {
    if directed || u <= v then (u, v) else (v, u)
  }

  /** The edge keys of the entries of `row`, the list of vertex `u`. */
  ghost function RowEdges(directed: bool, u: int, row: seq<Entry>): set<(int, int)>
  {
    set k | 0 <= k < |row| :: EdgeKey(directed, u, row[k].0)
  }

  /** The edge keys of the lists of vertices `0 .. u - 1`. */
  ghost function EdgesBelow(directed: bool, store: seq<seq<Entry>>, u: int): set<(int, int)>
    requires 0 <= u <= |store|
    decreases u
  {
    if u == 0 then {} else EdgesBelow(directed, store, u - 1) + RowEdges(directed, u - 1, store[u - 1])
  }

  /** The distinct edges: one key per stored entry, duplicates merged. */
  ghost function EdgeSet(directed: bool, store: seq<seq<Entry>>): set<(int, int)>
  {
    EdgesBelow(directed, store, |store|)
  }

  lemma {:induction false} EdgesBelowMembers(directed: bool, store: seq<seq<Entry>>, u: int, e: (int, int))
    requires 0 <= u <= |store|
    ensures e in EdgesBelow(directed, store, u) <==>
      exists x, k :: 0 <= x < u && 0 <= k < |store[x]| && e == EdgeKey(directed, x, store[x][k].0)
    decreases u
  {
    if u > 0 {
      EdgesBelowMembers(directed, store, u - 1, e);
    }
  }

  /** An edge is in the edge set exactly when some stored entry records it. */
  lemma EdgeSetMembers(directed: bool, store: seq<seq<Entry>>, e: (int, int))
    ensures e in EdgeSet(directed, store) <==>
      exists x, k :: 0 <= x < |store| && 0 <= k < |store[x]| && e == EdgeKey(directed, x, store[x][k].0)
  {
    EdgesBelowMembers(directed, store, |store|, e);
  }

  /** Both ends of every edge are vertices, and an undirected edge is stored with its smaller end first. */
  lemma EdgeSetBounds(n: int, directed: bool, store: seq<seq<Entry>>, e: (int, int))
    requires WellFormed(n, store) && e in EdgeSet(directed, store)
    ensures 0 <= e.0 < n && 0 <= e.1 < n
    ensures !directed ==> e.0 <= e.1
  {
    EdgeSetMembers(directed, store, e);
  }

  /** Incidence matrix cell of vertex `x` for edge `e`: tail -1 and head +1 when directed (head written last), 1 for both ends otherwise. */
  function Incidence(directed: bool, e: (int, int), x: int): int
  {
    if directed then (if x == e.1 then 1 else if x == e.0 then -1 else 0)
    else if x == e.0 || x == e.1 then 1 else 0
  }

  /** The edges in column order: `sorted(list(edges))`. */
  ghost function EdgeOrder(directed: bool, store: seq<seq<Entry>>): seq<(int, int)>
  {
    LexLessOrders();
    SortedSet(EdgeSet(directed, store), LexLess())
  }

  class Graph {
    /** The number of vertices; the vertices are `0 .. vertices - 1`. */
    var vertices: int
    var directed: bool
    /** `_adjacency_list`: `store[u]` is the list of `(neighbour, weight)` entries of vertex `u`. */
    var store: seq<seq<Entry>>

    ghost predicate Valid()
      reads this
    {
      WellFormed(vertices, store)
    }

    /** A graph with `vertices` vertices and, for each, an empty list. */
    constructor (vertices: nat, directed: bool)
      ensures Valid()
      ensures this.vertices == vertices && this.directed == directed
      ensures |store| == vertices && forall u :: 0 <= u < vertices ==> store[u] == []
      ensures Mirrored(directed, store)
    {
      this.vertices := vertices;
      this.directed := directed;
      this.store := seq(vertices, _ => []);
    }

    /** `Graph(vertices, directed)`: a negative vertex count raises `ValueError`. */
    static method Create(vertices: int, directed: bool) returns (r: Result<Graph>)
      ensures r.Err? <==> vertices < 0
      ensures r.Err? ==> r.error == ValueError
      ensures r.Ok? ==> fresh(r.value) && r.value.Valid()
      ensures r.Ok? ==> r.value.vertices == vertices && r.value.directed == directed
      ensures r.Ok? ==> forall u :: 0 <= u < vertices ==> r.value.store[u] == []
      ensures r.Ok? ==> Mirrored(directed, r.value.store)
    {
      if vertices < 0 {
        return Err(ValueError);
      }
      var g := new Graph(vertices, directed);
      return Ok(g);
    }

    /** `_check_vertex(v)`: passes exactly for a vertex, and raises `IndexError` otherwise. */
    function CheckVertex(v: int): (r: Outcome)
      reads this
      ensures r == Pass <==> 0 <= v < vertices
      ensures r != Pass ==> r == Fail(IndexError)
    {
      if 0 <= v < vertices then Pass else Fail(IndexError)
    }

    /** `is_directed()`: the flag given at construction. */
    function IsDirected(): (r: bool)
      reads this
      ensures r == directed
    {
      directed
    }

    /**
     * `add_edge(u, v, weight)`, which the abstract class leaves to its
     * variants, with the contract those variants are to meet: both ends are
     * checked (`IndexError`), `(v, weight)` is appended to `u`'s list, and on an
     * undirected graph `(u, weight)` is appended to `v`'s list unless the edge
     * is a self loop, which is stored once.
     */
    method AddEdge(u: int, v: int, weight: real) returns (r: Outcome)
      requires Valid()
      modifies this
      ensures Valid() && vertices == old(vertices) && directed == old(directed)
      ensures r == Pass <==> 0 <= u < vertices && 0 <= v < vertices
      ensures r != Pass ==> r == Fail(IndexError) && store == old(store)
      ensures r == Pass ==> (store ==
        if directed || u == v then old(store)[u := old(store)[u] + [(v, weight)]]
        else old(store)[u := old(store)[u] + [(v, weight)]][v := old(store)[v] + [(u, weight)]])
      ensures old(Mirrored(directed, store)) ==> Mirrored(directed, store)
    {
      r := CheckVertex(u);
      if r != Pass {
        return;
      }
      r := CheckVertex(v);
      if r != Pass {
        return;
      }
      store := store[u := store[u] + [(v, weight)]];
      if !directed && u != v {
        store := store[v := store[v] + [(u, weight)]];
      }
      AddedEdgeSucc(directed, old(store), u, v, weight, store);
    }

    /**
     * `get_adjacency_list()`: a copy with one list per vertex, each a stable
     * sort of the stored list by neighbour index: ordered by neighbour, the
     * same entries, and entries for the same neighbour in stored order.
     */
    method GetAdjacencyList() returns (adj: seq<seq<Entry>>)
      requires Valid()
      ensures WellFormed(vertices, adj)
      ensures forall u :: 0 <= u < vertices ==> adj[u] == Sort(store[u], ByNeighbour())
      ensures forall u :: 0 <= u < vertices ==>
        && multiset(adj[u]) == multiset(store[u])
        && (forall i, j :: 0 <= i < j < |adj[u]| ==> adj[u][i].0 <= adj[u][j].0)
        && (forall v :: EntriesTo(adj[u], v) == EntriesTo(store[u], v))
    {
      adj := [];
      var u := 0;
      while u < vertices
        invariant 0 <= u <= vertices && |adj| == u
        invariant forall x :: 0 <= x < u ==> adj[x] == Sort(store[x], ByNeighbour())
      {
        adj := adj + [Sort(store[u], ByNeighbour())];
        u := u + 1;
      }
      ByNeighbourOrders();
      forall x | 0 <= x < vertices
        ensures SortedBy(adj[x], ByNeighbour())
        ensures forall v :: EntriesTo(adj[x], v) == EntriesTo(store[x], v)
      {
        SortSorted(store[x], ByNeighbour());
        forall v
          ensures EntriesTo(adj[x], v) == EntriesTo(store[x], v)
        {
          SortStable(store[x], ByNeighbour(), (v, 0.0));
          EntriesToAre(adj[x], v);
          EntriesToAre(store[x], v);
        }
      }
      SortedRows(vertices, store, adj);
    }

    /**
     * `get_adjacency_matrix()`: a fresh `vertices x vertices` matrix whose cell
     * `(u, v)` holds the weight of the last stored entry `u -> v`, else `0.0`.
     */
    method GetAdjacencyMatrix() returns (matrix: array2<real>)
      requires Valid()
      ensures fresh(matrix) && matrix.Length0 == vertices && matrix.Length1 == vertices
      ensures forall u, v :: 0 <= u < vertices && 0 <= v < vertices ==> matrix[u, v] == Weight(store[u], v)
    {
      matrix := new real[vertices, vertices]((_, _) => 0.0);
      var u := 0;
      while u < vertices
        invariant 0 <= u <= vertices
        invariant forall x, v :: 0 <= x < vertices && 0 <= v < vertices ==>
          matrix[x, v] == if x < u then Weight(store[x], v) else 0.0
      {
        WriteRow(matrix, u, store[u]);
        u := u + 1;
      }
    }

    /**
     * `get_incidence_matrix()`: `vertices` rows and one column per distinct
     * edge, columns in increasing lexicographic order of the edges; column `j`
     * holds `Incidence` of the `j`-th edge. With no edges every row is empty.
     */
    method GetIncidenceMatrix() returns (matrix: array2<int>)
      requires Valid()
      ensures fresh(matrix) && matrix.Length0 == vertices
      ensures matrix.Length1 == |EdgeSet(directed, store)| == |EdgeOrder(directed, store)|
      ensures forall x, j :: 0 <= x < vertices && 0 <= j < matrix.Length1 ==>
        matrix[x, j] == Incidence(directed, EdgeOrder(directed, store)[j], x)
    {
      var edges := CollectEdges(vertices, directed, store);
      LexLessOrders();
      var sortedEdges := SortedSet(edges, LexLess());
      var numEdges := |sortedEdges|;
      if numEdges == 0 {
        matrix := new int[vertices, 0];
        return;
      }
      matrix := new int[vertices, numEdges]((_, _) => 0);
      forall e | e in edges
        ensures 0 <= e.0 < vertices && 0 <= e.1 < vertices
      {
        EdgeSetBounds(vertices, directed, store, e);
      }
      WriteColumns(matrix, directed, sortedEdges);
    }
  }

  /** The last loop of `get_incidence_matrix`: column `j` filled in for edge `edges[j]`. */
  method WriteColumns(matrix: array2<int>, directed: bool, edges: seq<(int, int)>)
    requires matrix.Length1 == |edges|
    requires forall j :: 0 <= j < |edges| ==> 0 <= edges[j].0 < matrix.Length0 && 0 <= edges[j].1 < matrix.Length0
    requires forall x, j :: 0 <= x < matrix.Length0 && 0 <= j < matrix.Length1 ==> matrix[x, j] == 0
    modifies matrix
    ensures forall x, j :: 0 <= x < matrix.Length0 && 0 <= j < matrix.Length1 ==>
      matrix[x, j] == Incidence(directed, edges[j], x)
  {
    var j := 0;
    while j < |edges|
      invariant 0 <= j <= |edges|
      invariant forall x, i :: 0 <= x < matrix.Length0 && 0 <= i < matrix.Length1 ==>
        matrix[x, i] == if i < j then Incidence(directed, edges[i], x) else 0
    {
      var (u, v) := edges[j];
      if directed {
        matrix[u, j] := -1;
        matrix[v, j] := 1;
      } else {
        matrix[u, j] := 1;
        matrix[v, j] := 1;
      }
      j := j + 1;
    }
  }

  lemma SortedRows(n: int, store: seq<seq<Entry>>, adj: seq<seq<Entry>>)
    requires WellFormed(n, store) && |adj| == n
    requires forall u :: 0 <= u < n ==> multiset(adj[u]) == multiset(store[u])
    ensures WellFormed(n, adj)
  {
    forall u, k | 0 <= u < n && 0 <= k < |adj[u]|
      ensures 0 <= adj[u][k].0 < n
    {
      assert adj[u][k] in multiset(store[u]);
    }
  }

  /** The inner loop of `get_adjacency_matrix`: every entry of `row` written into row `u`, in order. */
  method WriteRow(matrix: array2<real>, u: int, row: seq<Entry>)
    requires 0 <= u < matrix.Length0
    requires forall k :: 0 <= k < |row| ==> 0 <= row[k].0 < matrix.Length1
    requires forall v :: 0 <= v < matrix.Length1 ==> matrix[u, v] == 0.0
    modifies matrix
    ensures forall x, v :: 0 <= x < matrix.Length0 && 0 <= v < matrix.Length1 ==>
      matrix[x, v] == if x == u then Weight(row, v) else old(matrix[x, v])
  {
    var k := 0;
    while k < |row|
      invariant 0 <= k <= |row|
      invariant forall x, v :: 0 <= x < matrix.Length0 && 0 <= v < matrix.Length1 ==>
        matrix[x, v] == if x == u then Weight(row[..k], v) else old(matrix[x, v])
    {
      var (v, weight) := row[k];
      matrix[u, v] := weight;
      assert row[..k + 1][..k] == row[..k];
      k := k + 1;
    }
    assert row[..k] == row;
  }

  /** The loops of `get_incidence_matrix` that gather the distinct edges into `edges`. */
  method CollectEdges(n: int, directed: bool, store: seq<seq<Entry>>) returns (edges: set<(int, int)>)
    requires WellFormed(n, store)
    ensures edges == EdgeSet(directed, store)
  {
    edges := {};
    var u := 0;
    while u < n
      invariant 0 <= u <= n
      invariant edges == EdgesBelow(directed, store, u)
    {
      var neighbours := store[u];
      var k := 0;
      while k < |neighbours|
        invariant 0 <= k <= |neighbours|
        invariant edges == EdgesBelow(directed, store, u) + RowEdges(directed, u, neighbours[..k])
      {
        var (v, _) := neighbours[k];
        edges := edges + {EdgeKey(directed, u, v)};
        assert neighbours[..k + 1][..k] == neighbours[..k];
        k := k + 1;
      }
      assert neighbours[..k] == neighbours;
      u := u + 1;
    }
  }

  /**
   * What the adjacency matrix shows right after `add_edge(u, v, w)`: cell
   * `(u, v)` is `w`, and on an undirected graph so is cell `(v, u)`.
   */
  lemma AddedEdgeWeight(directed: bool, store: seq<seq<Entry>>, u: int, v: int, w: real, store': seq<seq<Entry>>)
    requires 0 <= u < |store| && 0 <= v < |store|
    requires store' ==
      if directed || u == v then store[u := store[u] + [(v, w)]]
      else store[u := store[u] + [(v, w)]][v := store[v] + [(u, w)]]
    ensures Weight(store'[u], v) == w
    ensures !directed ==> Weight(store'[v], u) == w
  {
  }

  /**
   * The edges after `add_edge(u, v, w)`: those stored before, the edge from
   * `u` to `v` and, on an undirected graph, the one from `v` to `u`. So an
   * undirected graph built by `add_edge` keeps every edge at both ends.
   */
  lemma AddedEdgeSucc(directed: bool, store: seq<seq<Entry>>, u: int, v: int, w: real, store': seq<seq<Entry>>)
    requires 0 <= u < |store| && 0 <= v < |store|
    requires store' ==
      if directed || u == v then store[u := store[u] + [(v, w)]]
      else store[u := store[u] + [(v, w)]][v := store[v] + [(u, w)]]
    ensures forall a, b :: Succ(store')(a, b) <==>
      Succ(store)(a, b) || (a == u && b == v) || (!directed && a == v && b == u)
    ensures Mirrored(directed, store) ==> Mirrored(directed, store')
  {
    forall a, b
      ensures Succ(store')(a, b) <==>
        Succ(store)(a, b) || (a == u && b == v) || (!directed && a == v && b == u)
    {
      if 0 <= a < |store| {
        var extra: seq<Entry> := if a == u then [(v, w)] else if !directed && a == v then [(u, w)] else [];
        assert store'[a] == store[a] + extra;
        assert Targets(store'[a]) == Targets(store[a]) + Targets(extra);
        if a == u {
          assert Targets(extra) == [v];
        } else if !directed && a == v {
          assert Targets(extra) == [u];
        } else {
          assert Targets(extra) == [];
        }
      }
    }
  }
}
