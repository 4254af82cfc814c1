/**
 * Paths and reachability over an arbitrary step relation. Every traversal in
 * the repository (graph BFS and DFS, weak components, provinces, flood fill,
 * islands) is stated in these terms.
 */
module Paths {
  /** `p` is a non-empty walk whose consecutive vertices are related by `E`. */
  ghost predicate IsPath<T(!new)>(E: (T, T) -> bool, p: seq<T>)
  {
    |p| > 0 && forall k :: 0 <= k < |p| - 1 ==> E(p[k], p[k + 1])
  }

  /** Some walk leads from `s` to `t` (every vertex reaches itself). */
  ghost predicate Reachable<T(!new)>(E: (T, T) -> bool, s: T, t: T)
  {
    exists p :: IsPath(E, p) && p[0] == s && p[|p| - 1] == t
  }

  ghost predicate Symmetric<T(!new)>(E: (T, T) -> bool)
  {
    forall u, v :: E(u, v) ==> E(v, u)
  }

  /** No step of `E` leaves the set `S`. */
  ghost predicate Closed<T(!new)>(E: (T, T) -> bool, S: set<T>)
  {
    forall u, v :: u in S && E(u, v) ==> v in S
  }

  lemma ReachRefl<T(!new)>(E: (T, T) -> bool, s: T)
    ensures Reachable(E, s, s)
  {
    assert IsPath(E, [s]);
  }

  lemma ReachStep<T(!new)>(E: (T, T) -> bool, s: T, u: T, v: T)
    requires Reachable(E, s, u) && E(u, v)
    ensures Reachable(E, s, v)
  {
    var p :| IsPath(E, p) && p[0] == s && p[|p| - 1] == u;
    var q := p + [v];
    assert forall k :: 0 <= k < |p| ==> q[k] == p[k];
    assert IsPath(E, q);
  }

  lemma ReachPrepend<T(!new)>(E: (T, T) -> bool, s: T, u: T, t: T)
    requires E(s, u) && Reachable(E, u, t)
    ensures Reachable(E, s, t)
  {
    var p :| IsPath(E, p) && p[0] == u && p[|p| - 1] == t;
    var q := [s] + p;
    assert forall k :: 0 < k < |q| ==> q[k] == p[k - 1];
    assert IsPath(E, q);
  }

  lemma ReachTrans<T(!new)>(E: (T, T) -> bool, s: T, u: T, t: T)
    requires Reachable(E, s, u) && Reachable(E, u, t)
    ensures Reachable(E, s, t)
  {
    var p :| IsPath(E, p) && p[0] == s && p[|p| - 1] == u;
    var q :| IsPath(E, q) && q[0] == u && q[|q| - 1] == t;
    var w := p + q[1..];
    assert forall k :: 0 <= k < |p| ==> w[k] == p[k];
    assert forall k :: |p| <= k < |w| ==> w[k] == q[k - |p| + 1];
    assert IsPath(E, w);
  }

  /** A walk can be followed backwards when every step can. */
  lemma {:induction false} ReachSym<T(!new)>(E: (T, T) -> bool, s: T, t: T)
    requires Symmetric(E) && Reachable(E, s, t)
    ensures Reachable(E, t, s)
  {
    var p :| IsPath(E, p) && p[0] == s && p[|p| - 1] == t;
    var q := seq(|p|, k requires 0 <= k < |p| => p[|p| - 1 - k]);
    forall k | 0 <= k < |q| - 1
      ensures E(q[k], q[k + 1])
    {
      assert E(p[|p| - 2 - k], p[|p| - 1 - k]);
    }
    assert IsPath(E, q);
  }

  /** A walk of a smaller relation is a walk of a larger one. */
  lemma ReachMono<T(!new)>(E1: (T, T) -> bool, E2: (T, T) -> bool, s: T, t: T)
    requires forall u, v :: E1(u, v) ==> E2(u, v)
    requires Reachable(E1, s, t)
    ensures Reachable(E2, s, t)
  {
    var p :| IsPath(E1, p) && p[0] == s && p[|p| - 1] == t;
    assert IsPath(E2, p);
  }

  /** A set that contains `s` and that no step leaves contains everything `s` reaches. */
  lemma {:induction false} ClosedContains<T(!new)>(E: (T, T) -> bool, S: set<T>, s: T, t: T)
    requires s in S && Closed(E, S)
    requires Reachable(E, s, t)
    ensures t in S
  {
    var p :| IsPath(E, p) && p[0] == s && p[|p| - 1] == t;
    var k := 0;
    while k < |p| - 1
      invariant 0 <= k < |p|
      invariant p[k] in S
    {
      assert E(p[k], p[k + 1]);
      k := k + 1;
    }
  }

  /**
   * When `E` is symmetric and `S` is closed, nothing outside `S` reaches into `S`.
   */
  lemma ClosedAvoided<T(!new)>(E: (T, T) -> bool, S: set<T>, s: T, t: T)
    requires Symmetric(E) && Closed(E, S)
    requires s !in S && Reachable(E, s, t)
    ensures t !in S
  {
    if t in S {
      ReachSym(E, s, t);
      ClosedContains(E, S, t, s);
    }
  }

  /** The steps of `E` that stay inside `U`. */
  ghost function Restrict<T(!new)>(E: (T, T) -> bool, U: set<T>): (T, T) -> bool
  {
    (u: T, v: T) => u in U && v in U && E(u, v)
  }

  /** The members of `U` that `x` reaches by steps of `E` inside `U`; empty when `x` is not in `U`. */
  ghost function Component<T(!new)>(E: (T, T) -> bool, U: set<T>, x: T): set<T>
  {
    set v | v in U && Reachable(Restrict(E, U), x, v)
  }

  lemma ComponentBasics<T(!new)>(E: (T, T) -> bool, U: set<T>, x: T)
    ensures Component(E, U, x) <= U
    ensures x in U ==> x in Component(E, U, x)
    ensures x !in U ==> Component(E, U, x) == {}
  {
    ReachRefl(Restrict(E, U), x);
    forall v | v in Component(E, U, x)
      ensures x in U
    {
      var w :| IsPath(Restrict(E, U), w) && w[0] == x && w[|w| - 1] == v;
      if |w| > 1 {
        assert Restrict(E, U)(w[0], w[1]);
      }
    }
  }

  /** Relations with the same steps have the same components. */
  lemma ComponentAgree<T(!new)>(E1: (T, T) -> bool, E2: (T, T) -> bool, U: set<T>, x: T)
    requires forall u, v :: E1(u, v) <==> E2(u, v)
    ensures Component(E1, U, x) == Component(E2, U, x)
  {
    forall v | v in Component(E1, U, x)
      ensures v in Component(E2, U, x)
    {
      ReachMono(Restrict(E1, U), Restrict(E2, U), x, v);
    }
    forall v | v in Component(E2, U, x)
      ensures v in Component(E1, U, x)
    {
      ReachMono(Restrict(E2, U), Restrict(E1, U), x, v);
    }
  }

  /** No step of `E` inside `U` leaves a component of `U`. */
  lemma ComponentClosed<T(!new)>(E: (T, T) -> bool, U: set<T>, x: T)
    ensures Closed(Restrict(E, U), Component(E, U, x))
  {
    forall u, v | u in Component(E, U, x) && Restrict(E, U)(u, v)
      ensures v in Component(E, U, x)
    {
      ReachStep(Restrict(E, U), x, u, v);
    }
  }

  /** For a symmetric `E`, components are equivalence classes: any member's component is the whole component. */
  lemma ComponentSame<T(!new)>(E: (T, T) -> bool, U: set<T>, x: T, y: T)
    requires Symmetric(E) && y in Component(E, U, x)
    ensures Component(E, U, y) == Component(E, U, x)
  {
    var F := Restrict(E, U);
    assert Symmetric(F);
    ReachSym(F, x, y);
    forall z | z in Component(E, U, y)
      ensures z in Component(E, U, x)
    {
      ReachTrans(F, x, y, z);
    }
    forall z | z in Component(E, U, x)
      ensures z in Component(E, U, y)
    {
      ReachTrans(F, y, x, z);
    }
  }

  /** The component of a successor `q` of `p` in a smaller set lies in the component of `p`. */
  lemma ComponentWithin<T(!new)>(E: (T, T) -> bool, U0: set<T>, U: set<T>, p: T, q: T)
    requires U <= U0 && p in U0 && E(p, q)
    ensures Component(E, U, q) <= Component(E, U0, p)
  {
    ComponentBasics(E, U, q);
    forall v | v in Component(E, U, q)
      ensures v in Component(E, U0, p)
    {
      ReachMono(Restrict(E, U), Restrict(E, U0), q, v);
      ReachPrepend(Restrict(E, U0), p, q, v);
    }
  }

  /**
   * For a symmetric `E`, taking a closed set `Z` away from `U0` leaves the
   * component of every member outside `Z` as it was.
   */
  lemma ComponentAfterRemoval<T(!new)>(E: (T, T) -> bool, U0: set<T>, Z: set<T>, x: T)
    requires Symmetric(E) && Z <= U0 && Closed(Restrict(E, U0), Z) && x !in Z
    ensures Component(E, U0 - Z, x) == Component(E, U0, x)
  {
    var U := U0 - Z;
    ComponentBasics(E, U, x);
    ComponentBasics(E, U0, x);
    forall y | y in Component(E, U, x)
      ensures y in Component(E, U0, x)
    {
      ReachMono(Restrict(E, U), Restrict(E, U0), x, y);
    }
    if x in U0 {
      var S := Component(E, U, x);
      ComponentClosed(E, U, x);
      forall u, v | u in S && Restrict(E, U0)(u, v)
        ensures v in S
      {
        assert Restrict(E, U)(u, v);
      }
      forall y | y in Component(E, U0, x)
        ensures y in S
      {
        ClosedContains(Restrict(E, U0), S, x, y);
      }
    }
  }

  /**
   * The state of a depth-first search from `s` over the members of `U0` part
   * way through the successors of `s`: the members it has taken out of the
   * unvisited set (`U0 - U`) include `s` and lie in the component of `s`, and
   * the only steps from them to members still unvisited start at `s` and end
   * in `P`, the successors that remain to be examined.
   */
  ghost predicate Exploring<T(!new)>(E: (T, T) -> bool, U0: set<T>, U: set<T>, s: T, P: set<T>)
  {
    && U <= U0
    && s in U0 - U
    && U0 - U <= Component(E, U0, s)
    && forall u, v :: u in U0 - U && v in U && E(u, v) ==> u == s && v in P
  }

  /** Right after `s` is marked, every successor of `s` is still to be examined. */
  lemma ExploreStart<T(!new)>(E: (T, T) -> bool, U0: set<T>, s: T, P: set<T>)
    requires s in U0 && forall v :: E(s, v) ==> v in P
    ensures Exploring(E, U0, U0 - {s}, s, P)
  {
    ComponentBasics(E, U0, s);
  }

  /** Fewer successors left to examine is a weaker claim. */
  lemma ExploreWeaken<T(!new)>(E: (T, T) -> bool, U0: set<T>, U: set<T>, s: T, P: set<T>, P': set<T>)
    requires Exploring(E, U0, U, s, P) && P <= P'
    ensures Exploring(E, U0, U, s, P')
  {
  }

  /** A successor `x` that is skipped because it is no successor or already visited. */
  lemma ExploreSkip<T(!new)>(E: (T, T) -> bool, U0: set<T>, U: set<T>, s: T, P: set<T>, x: T)
    requires Exploring(E, U0, U, s, P)
    requires !E(s, x) || x !in U
    ensures Exploring(E, U0, U, s, P - {x})
  {
  }

  /** A successor `x` that is searched: the nested search visits the component of `x` among the unvisited. */
  lemma ExploreVisit<T(!new)>(E: (T, T) -> bool, U0: set<T>, U: set<T>, s: T, P: set<T>, x: T)
    requires Exploring(E, U0, U, s, P)
    requires E(s, x) && x in U
    ensures Exploring(E, U0, U - Component(E, U, x), s, P - {x})
  {
    var K := Component(E, U, x);
    ComponentBasics(E, U, x);
    ComponentWithin(E, U0, U, s, x);
    ComponentClosed(E, U, x);
    forall u, v | u in U0 - (U - K) && v in U - K && E(u, v)
      ensures u == s && v in P - {x}
    {
      if u in K {
        assert false;
      }
    }
  }

  /** With no successor left to examine, the search has visited exactly the component of `s`. */
  lemma ExploreDone<T(!new)>(E: (T, T) -> bool, U0: set<T>, U: set<T>, s: T)
    requires Exploring(E, U0, U, s, {})
    ensures U == U0 - Component(E, U0, s)
  {
    var D := U0 - U;
    var F := Restrict(E, U0);
    assert Closed(F, D) by {
      forall u, v | u in D && F(u, v)
        ensures v in D
      {
      }
    }
    forall y | y in Component(E, U0, s)
      ensures y in D
    {
      ClosedContains(F, D, s, y);
    }
  }

  /** The integers `0 .. n - 1`: the vertices of an `n`-vertex graph, the cities of an `n x n` matrix. */
  ghost function Below(n: int): (r: set<int>)
    ensures forall x {:trigger x in r} :: x in r <==> 0 <= x < n
    decreases n
  {
    if n <= 0 then {} else Below(n - 1) + {n - 1}
  }

  lemma {:induction false} BelowSize(n: nat)
    ensures |Below(n)| == n
  {
    if n > 0 {
      BelowSize(n - 1);
    }
  }

  /** A proper subset has fewer members. */
  lemma SubsetSmaller<T>(U: set<T>, U0: set<T>)
    requires U < U0
    ensures |U| < |U0|
  {
    assert U0 == U + (U0 - U);
  }

  /** A closed set stays closed when the component of `i` among the members outside it is added. */
  lemma ClosedGrows<T(!new)>(E: (T, T) -> bool, All: set<T>, V: set<T>, i: T)
    requires V <= All && Closed(Restrict(E, All), V)
    ensures Closed(Restrict(E, All), V + Component(E, All - V, i))
  {
    var K := Component(E, All - V, i);
    ComponentBasics(E, All - V, i);
    ComponentClosed(E, All - V, i);
    forall u, v | u in V + K && Restrict(E, All)(u, v)
      ensures v in V + K
    {
      if u in K && v !in V {
        assert Restrict(E, All - V)(u, v);
      }
    }
  }

  /** When no step of `E` leaves `All`, the component of `x` in `All` is everything `x` reaches. */
  lemma ComponentOfAll<T(!new)>(E: (T, T) -> bool, All: set<T>, x: T, y: T)
    requires x in All && forall u, v :: E(u, v) ==> u in All && v in All
    ensures y in Component(E, All, x) <==> Reachable(E, x, y)
  {
    if Reachable(E, x, y) {
      ReachMono(E, Restrict(E, All), x, y);
      ComponentBasics(E, All, x);
      ClosedContains(Restrict(E, All), All, x, y);
    }
    if y in Component(E, All, x) {
      ReachMono(Restrict(E, All), E, x, y);
    }
  }
}
