/**
 * The state of a breadth-first sweep with a FIFO queue, as `bfs` and the
 * inner loop of `connected_components` in `graph-tasks/algorithmics.py` run
 * it: from `s`, over the vertices `0 .. n - 1` not in `V0` (those visited by
 * earlier sweeps), marking a vertex when it is enqueued.
 */
module Sweep {
  import opened Paths
  import opened Sorting

  /** The members of a list: `set(s)`. */
  function Elems(s: seq<int>): set<int>
  {
    set x | x in s
  }

  /** The entries of a successor list from position `k` on: those still to be examined. */
  ghost function Pending(row: seq<int>, k: int): set<int>
    requires 0 <= k <= |row|
  {
    Elems(row[k..])
  }

  lemma PendingStep(row: seq<int>, k: int)
    requires 0 <= k < |row|
    ensures Pending(row, k) - {row[k]} <= Pending(row, k + 1)
  {
    assert row[k..] == [row[k]] + row[k + 1..];
  }

  lemma PendingEnds(row: seq<int>)
    ensures Pending(row, 0) == Elems(row)
    ensures Pending(row, |row|) == {}
  {
    assert row[0..] == row;
  }

  lemma {:induction false} ElemsSize(s: seq<int>)
    requires Distinct(s)
    ensures |Elems(s)| == |s|
    decreases |s|
  {
    if s != [] {
      var t := s[..|s| - 1];
      assert Distinct(t) by {
        forall i, j | 0 <= i < j < |t|
          ensures t[i] != t[j]
        {
          assert t[i] == s[i] && t[j] == s[j];
        }
      }
      ElemsSize(t);
      assert s == t + [s[|s| - 1]];
      assert Elems(s) == Elems(t) + {s[|s| - 1]};
      assert s[|s| - 1] !in Elems(t);
    }
  }

  /** A list of distinct vertices is no longer than the number of vertices. */
  lemma DistinctBound(s: seq<int>, n: nat)
    requires Distinct(s) && forall x :: x in s ==> 0 <= x < n
    ensures |s| <= n
  {
    ElemsSize(s);
    BelowSize(n);
    if Elems(s) != Below(n) {
      SubsetSmaller(Elems(s), Below(n));
    }
  }

  /**
   * `done` are the vertices taken off the queue, in order, `queue` the ones
   * waiting, and `visited` everything marked. Together `done` and `queue`
   * start with `s`, repeat nothing, lie in the component of `s` among the
   * vertices outside `V0`, and are what the sweep has marked. The only steps
   * from a dequeued vertex to an unmarked one start at the vertex dequeued
   * last and end in `P`, its successors that remain to be examined.
   */
  ghost predicate Sweeping(E: (int, int) -> bool, n: int, V0: set<int>, s: int,
                           visited: set<int>, done: seq<int>, queue: seq<int>, P: set<int>)
  {
    && V0 <= Below(n) && 0 <= s < n && s !in V0
    && |done + queue| > 0 && (done + queue)[0] == s
    && Distinct(done + queue) && |done + queue| <= n
    && visited == V0 + Elems(done + queue)
    && V0 !! Elems(done + queue)
    && Elems(done + queue) <= Component(E, Below(n) - V0, s)
    && forall u, v :: u in done && E(u, v) && v !in visited ==> u == done[|done| - 1] && v in P
  }

  /** `q = deque([s])`, `visited.add(s)`. */
  lemma SweepStart(E: (int, int) -> bool, n: int, V0: set<int>, s: int)
    requires V0 <= Below(n) && 0 <= s < n && s !in V0
    ensures Sweeping(E, n, V0, s, V0 + {s}, [], [s], {})
  {
    ComponentBasics(E, Below(n) - V0, s);
    assert Elems([s]) == {s};
  }

  /** Every listed vertex is a vertex. */
  lemma SweepInRange(E: (int, int) -> bool, n: int, V0: set<int>, s: int,
                     visited: set<int>, done: seq<int>, queue: seq<int>, P: set<int>, x: int)
    requires Sweeping(E, n, V0, s, visited, done, queue, P) && x in done + queue
    ensures 0 <= x < n && x in visited
  {
    assert x in Elems(done + queue);
    ComponentBasics(E, Below(n) - V0, s);
  }

  /** `u = q.popleft()` and `u` appended to the output; `P` holds every successor of `u`. */
  lemma SweepPop(E: (int, int) -> bool, n: int, V0: set<int>, s: int,
                 visited: set<int>, done: seq<int>, queue: seq<int>, P: set<int>)
    requires Sweeping(E, n, V0, s, visited, done, queue, {}) && queue != []
    requires forall v :: E(queue[0], v) ==> v in P
    ensures Sweeping(E, n, V0, s, visited, done + [queue[0]], queue[1..], P)
  {
    assert done + queue == (done + [queue[0]]) + queue[1..];
  }

  /** A successor `x` of the vertex dequeued last that is already marked, or that is no successor. */
  lemma SweepSkip(E: (int, int) -> bool, n: int, V0: set<int>, s: int,
                  visited: set<int>, done: seq<int>, queue: seq<int>, P: set<int>, x: int)
    requires Sweeping(E, n, V0, s, visited, done, queue, P)
    requires x in visited || (done != [] && !E(done[|done| - 1], x))
    ensures Sweeping(E, n, V0, s, visited, done, queue, P - {x})
  {
  }

  /** An unmarked successor `x` of the vertex dequeued last: `visited.add(x)`, `q.append(x)`. */
  lemma SweepPush(E: (int, int) -> bool, n: int, V0: set<int>, s: int,
                  visited: set<int>, done: seq<int>, queue: seq<int>, P: set<int>, x: int)
    requires Sweeping(E, n, V0, s, visited, done, queue, P)
    requires done != [] && E(done[|done| - 1], x) && x !in visited && 0 <= x < n
    ensures Sweeping(E, n, V0, s, visited + {x}, done, queue + [x], P - {x})
  {
    var all := done + queue;
    var all' := done + (queue + [x]);
    assert all' == all + [x];
    assert Elems(all') == Elems(all) + {x};
    var u := done[|done| - 1];
    assert u in Elems(all) by {
      assert all[|done| - 1] == u;
    }
    ReachStep(Restrict(E, Below(n) - V0), s, u, x);
    ComponentBasics(E, Below(n) - V0, s);
    assert Distinct(all') by {
      forall i, j | 0 <= i < j < |all'|
        ensures all'[i] != all'[j]
      {
        if j == |all| {
          assert all'[i] == all[i] && all[i] in Elems(all);
        } else {
          assert all'[i] == all[i] && all'[j] == all[j];
        }
      }
    }
    forall y | y in all'
      ensures 0 <= y < n
    {
      if y != x {
        assert y in Elems(all);
      }
    }
    DistinctBound(all', n);
  }

  /** Fewer successors left to examine is a weaker claim. */
  lemma SweepWeaken(E: (int, int) -> bool, n: int, V0: set<int>, s: int,
                    visited: set<int>, done: seq<int>, queue: seq<int>, P: set<int>, P': set<int>)
    requires Sweeping(E, n, V0, s, visited, done, queue, P) && P <= P'
    ensures Sweeping(E, n, V0, s, visited, done, queue, P')
  {
  }

  /** The queue is empty and every successor examined: the output is the component of `s`. */
  lemma SweepDone(E: (int, int) -> bool, n: int, V0: set<int>, s: int,
                  visited: set<int>, done: seq<int>)
    requires Sweeping(E, n, V0, s, visited, done, [], {})
    ensures Elems(done) == Component(E, Below(n) - V0, s)
    ensures visited == V0 + Elems(done)
  {
    assert done + [] == done;
    var U := Below(n) - V0;
    var F := Restrict(E, U);
    assert Closed(F, Elems(done)) by {
      forall u, v | u in Elems(done) && F(u, v)
        ensures v in Elems(done)
      {
      }
    }
    assert s in Elems(done) by {
      assert done[0] == s;
    }
    forall y | y in Component(E, U, s)
      ensures y in Elems(done)
    {
      ClosedContains(F, Elems(done), s, y);
    }
  }

  /** The `i`-th listed vertex is a successor of one of the first `d` listed before it. */
  ghost predicate Found(E: (int, int) -> bool, all: seq<int>, d: int, i: int)
  {
    0 <= i < |all| && exists j :: 0 <= j < i && j < d && E(all[j], all[i])
  }

  /** Every listed vertex after the first was found from one of the first `d`. */
  ghost predicate Discovered(E: (int, int) -> bool, all: seq<int>, d: int)
  {
    forall i :: 0 < i < |all| ==> Found(E, all, d, i)
  }

  lemma DiscoveredWeaken(E: (int, int) -> bool, all: seq<int>, d: int, d': int)
    requires Discovered(E, all, d) && d <= d'
    ensures Discovered(E, all, d')
  {
    forall i | 0 < i < |all|
      ensures Found(E, all, d', i)
    {
      assert Found(E, all, d, i);
    }
  }

  lemma DiscoveredSame(E1: (int, int) -> bool, E2: (int, int) -> bool, all: seq<int>, d: int)
    requires Discovered(E1, all, d)
    requires forall u, v :: E1(u, v) ==> E2(u, v)
    ensures Discovered(E2, all, d)
  {
    forall i | 0 < i < |all|
      ensures Found(E2, all, d, i)
    {
      assert Found(E1, all, d, i);
      var j :| 0 <= j < i && j < d && E1(all[j], all[i]);
      var a, b := all[j], all[i];
      assert E1(a, b);
    }
  }

  lemma DiscoveredPush(E: (int, int) -> bool, done: seq<int>, queue: seq<int>, x: int)
    requires Discovered(E, done + queue, |done|)
    requires done != [] && E(done[|done| - 1], x)
    ensures Discovered(E, done + (queue + [x]), |done|)
  {
    var all := done + queue;
    var all' := done + (queue + [x]);
    assert all' == all + [x];
    forall i | 0 < i < |all'|
      ensures Found(E, all', |done|, i)
    {
      if i == |all| {
        assert all'[|done| - 1] == done[|done| - 1];
      } else {
        assert Found(E, all, |done|, i);
        var j :| 0 <= j < i && j < |done| && E(all[j], all[i]);
        assert all'[j] == all[j] && all'[i] == all[i];
      }
    }
  }

  lemma DiscoveredPop(E: (int, int) -> bool, done: seq<int>, queue: seq<int>)
    requires Discovered(E, done + queue, |done|) && queue != []
    ensures Discovered(E, (done + [queue[0]]) + queue[1..], |done| + 1)
  {
    assert (done + [queue[0]]) + queue[1..] == done + queue;
    DiscoveredWeaken(E, done + queue, |done|, |done| + 1);
  }

  /** The edges of successor lists: `v` is listed for `u`. */
  ghost function Lists(rows: seq<seq<int>>): (int, int) -> bool
  {
    (u: int, v: int) => 0 <= u < |rows| && v in rows[u]
  }

  /** Every listed successor is one of the `n` vertices. */
  ghost predicate ListsWithin(rows: seq<seq<int>>, n: int)
  {
    |rows| == n && forall u, k :: 0 <= u < n && 0 <= k < |rows[u]| ==> 0 <= rows[u][k] < n
  }

  /**
   * The FIFO sweep from `s`, with `visited` holding the vertices marked
   * before: `q = deque([s])`, `visited.add(s)`; while `q`: `u = q.popleft()`,
   * `u` appended to the output, and every listed successor of `u` not yet
   * marked is marked and enqueued. The output starts with `s`, repeats
   * nothing, is exactly the component of `s` among the unmarked vertices,
   * and lists each vertex after a vertex it is a successor of; the marks
   * gain exactly the output.
   */
  method SweepFrom(rows: seq<seq<int>>, n: int, s: int, visited0: set<int>)
    returns (order: seq<int>, visited: set<int>)
    requires ListsWithin(rows, n)
    requires visited0 <= Below(n) && 0 <= s < n && s !in visited0
    ensures Elems(order) == Component(Lists(rows), Below(n) - visited0, s)
    ensures visited == visited0 + Elems(order)
    ensures order != [] && order[0] == s && Distinct(order)
    ensures Discovered(Lists(rows), order, |order|)
  {
    ghost var E := Lists(rows);
    var queue := [s];
    visited := visited0 + {s};
    order := [];
    SweepStart(E, n, visited0, s);
    while queue != []
      invariant Sweeping(E, n, visited0, s, visited, order, queue, {})
      invariant Discovered(E, order + queue, |order|)
      decreases n - |order|
    {
      var u := queue[0];
      SweepInRange(E, n, visited0, s, visited, order, queue, {}, u);
      var neighbours := rows[u];
      PendingEnds(neighbours);
      SweepPop(E, n, visited0, s, visited, order, queue, Pending(neighbours, 0));
      DiscoveredPop(E, order, queue);
      order := order + [u];
      queue := queue[1..];
      var k := 0;
      while k < |neighbours|
        invariant 0 <= k <= |neighbours|
        invariant Sweeping(E, n, visited0, s, visited, order, queue, Pending(neighbours, k))
        invariant Discovered(E, order + queue, |order|)
      {
        var v := neighbours[k];
        PendingStep(neighbours, k);
        if v !in visited {
          SweepPush(E, n, visited0, s, visited, order, queue, Pending(neighbours, k), v);
          DiscoveredPush(E, order, queue, v);
          visited := visited + {v};
          queue := queue + [v];
        } else {
          SweepSkip(E, n, visited0, s, visited, order, queue, Pending(neighbours, k), v);
        }
        SweepWeaken(E, n, visited0, s, visited, order, queue, Pending(neighbours, k) - {v}, Pending(neighbours, k + 1));
        k := k + 1;
      }
    }
    SweepDone(E, n, visited0, s, visited, order);
    assert order + [] == order;
  }
}
