/**
 * The two sorts the Python code leans on: `sorted(xs, key=...)` and
 * `list.sort(key=...)`, which are stable sorts by a key, and
 * `sorted(list(S))` of a set, which lists its members in increasing order.
 */
module Sorting {
  /** `le` compares any two elements and its comparisons chain, like `key(a) <= key(b)`. */
  ghost predicate TotalPreorder<T(!new)>(le: (T, T) -> bool)
  {
    && (forall a, b :: le(a, b) || le(b, a))
    && (forall a, b, c :: le(a, b) && le(b, c) ==> le(a, c))
  }

  ghost predicate SortedBy<T>(s: seq<T>, le: (T, T) -> bool)
  {
    forall i, j :: 0 <= i < j < |s| ==> le(s[i], s[j])
  }

  /** `x` placed in front of the first element that it does not exceed. */
  function Insert<T>(x: T, s: seq<T>, le: (T, T) -> bool): (r: seq<T>)
    ensures multiset(r) == multiset(s) + multiset{x}
    ensures |r| == |s| + 1
  {
    if s == [] || le(x, s[0]) then [x] + s
    else
      assert s == [s[0]] + s[1..];
      [s[0]] + Insert(x, s[1..], le)
  }

  /** Stable insertion sort by `le`. */
  function Sort<T>(s: seq<T>, le: (T, T) -> bool): (r: seq<T>)
    ensures multiset(r) == multiset(s)
    ensures |r| == |s|
  {
    if s == [] then []
    else
      assert s == [s[0]] + s[1..];
      Insert(s[0], Sort(s[1..], le), le)
  }

  lemma {:induction false} InsertSorted<T(!new)>(x: T, s: seq<T>, le: (T, T) -> bool)
    requires TotalPreorder(le) && SortedBy(s, le)
    ensures SortedBy(Insert(x, s, le), le)
    decreases |s|
  {
    if s != [] && !le(x, s[0]) {
      var t := Insert(x, s[1..], le);
      InsertSorted(x, s[1..], le);
      assert SortedBy(s[1..], le) by {
        forall i, j | 0 <= i < j < |s| - 1
          ensures le(s[1..][i], s[1..][j])
        {
          assert s[1..][i] == s[i + 1] && s[1..][j] == s[j + 1];
        }
      }
      forall j | 0 <= j < |t|
        ensures le(s[0], t[j])
      {
        assert t[j] in multiset(t);
        assert t[j] == x || t[j] in multiset(s[1..]);
        if t[j] != x {
          var k :| 0 <= k < |s[1..]| && s[1..][k] == t[j];
          assert s[k + 1] == t[j];
        }
      }
      assert Insert(x, s, le) == [s[0]] + t;
    }
  }

  /** The result of `Sort` is ordered by `le`. */
  lemma {:induction false} SortSorted<T(!new)>(s: seq<T>, le: (T, T) -> bool)
    requires TotalPreorder(le)
    ensures SortedBy(Sort(s, le), le)
    decreases |s|
  {
    if s != [] {
      SortSorted(s[1..], le);
      InsertSorted(s[0], Sort(s[1..], le), le);
    }
  }

  /** The elements of `s` that `le` ranks equal to `x`, in their order in `s`. */
  function Equals<T>(s: seq<T>, le: (T, T) -> bool, x: T): seq<T>
  {
    if s == [] then []
    else if le(s[0], x) && le(x, s[0]) then [s[0]] + Equals(s[1..], le, x)
    else Equals(s[1..], le, x)
  }

  lemma {:induction false} InsertEquals<T(!new)>(a: T, s: seq<T>, le: (T, T) -> bool, x: T)
    requires TotalPreorder(le)
    ensures Equals(Insert(a, s, le), le, x) ==
      if le(a, x) && le(x, a) then [a] + Equals(s, le, x) else Equals(s, le, x)
    decreases |s|
  {
    if s != [] && !le(a, s[0]) {
      InsertEquals(a, s[1..], le, x);
      assert Insert(a, s, le)[1..] == Insert(a, s[1..], le);
    }
  }

  /** Stability: elements that `le` ranks equal keep their relative order. */
  lemma {:induction false} SortStable<T(!new)>(s: seq<T>, le: (T, T) -> bool, x: T)
    requires TotalPreorder(le)
    ensures Equals(Sort(s, le), le, x) == Equals(s, le, x)
    decreases |s|
  {
    if s != [] {
      SortStable(s[1..], le, x);
      InsertEquals(s[0], Sort(s[1..], le), le, x);
    }
  }

  /** `lt` is a strict total order, like `<` on integers or on pairs compared lexicographically. */
  ghost predicate StrictTotalOrder<T(!new)>(lt: (T, T) -> bool)
  {
    && (forall a :: !lt(a, a))
    && (forall a, b :: a == b || lt(a, b) || lt(b, a))
    && (forall a, b, c :: lt(a, b) && lt(b, c) ==> lt(a, c))
  }

  ghost predicate Increasing<T>(s: seq<T>, lt: (T, T) -> bool)
  {
    forall i, j :: 0 <= i < j < |s| ==> lt(s[i], s[j])
  }

  /** `m` is the least member of `S` under `lt`. */
  predicate IsMin<T>(S: set<T>, lt: (T, T) -> bool, m: T)
  {
    m in S && forall y :: y in S ==> y == m || lt(m, y)
  }

  lemma {:induction false} MinExists<T(!new)>(S: set<T>, lt: (T, T) -> bool)
    requires StrictTotalOrder(lt) && S != {}
    ensures exists m :: IsMin(S, lt, m)
    decreases |S|
  {
    var x :| x in S;
    if S == {x} {
      assert IsMin(S, lt, x);
    } else {
      MinExists(S - {x}, lt);
      var m :| IsMin(S - {x}, lt, m);
      if lt(x, m) {
        forall y | y in S
          ensures y == x || lt(x, y)
        {
          if y != x {
            assert y == m || lt(m, y);
          }
        }
        assert IsMin(S, lt, x);
      } else {
        assert lt(m, x);
        forall y | y in S
          ensures y == m || lt(m, y)
        {
          if y != x {
            assert y in S - {x};
          }
        }
        assert IsMin(S, lt, m);
      }
    }
  }

  /** Putting the least member of `S` in front of the sorted rest sorts `S`. */
  lemma SortedSetCons<T>(m: T, S: set<T>, r: seq<T>, lt: (T, T) -> bool)
    requires IsMin(S, lt, m)
    requires Increasing(r, lt) && |r| == |S - {m}| && forall x :: x in r <==> x in S - {m}
    ensures Increasing([m] + r, lt)
    ensures |[m] + r| == |S|
    ensures forall x :: x in [m] + r <==> x in S
  {
    forall i, j | 0 <= i < j < |[m] + r|
      ensures lt(([m] + r)[i], ([m] + r)[j])
    {
      if i == 0 {
        assert r[j - 1] in r;
      } else {
        assert ([m] + r)[i] == r[i - 1] && ([m] + r)[j] == r[j - 1];
      }
    }
  }

  /** `sorted(list(S))`: the members of `S`, each once, in increasing order. */
  function SortedSet<T(==,!new)>(S: set<T>, lt: (T, T) -> bool): (r: seq<T>)
    requires StrictTotalOrder(lt)
    ensures Increasing(r, lt)
    ensures |r| == |S|
    ensures forall x :: x in r <==> x in S
    decreases |S|
  {
    if S == {} then []
    else
      MinExists(S, lt);
      var m :| IsMin(S, lt, m);
      var r := SortedSet(S - {m}, lt);
      SortedSetCons(m, S, r, lt);
      [m] + r
  }

  lemma SameMembersEmpty<T>(s: seq<T>, t: seq<T>)
    requires forall x :: x in s <==> x in t
    ensures s == [] <==> t == []
  {
    if s != [] {
      assert s[0] in t;
    }
    if t != [] {
      assert t[0] in s;
    }
  }

  /** A list in increasing order is the only one with its members: `sorted(list(S))` is determined by `S`. */
  lemma {:induction false} IncreasingUnique<T(!new)>(s: seq<T>, t: seq<T>, lt: (T, T) -> bool)
    requires StrictTotalOrder(lt) && Increasing(s, lt) && Increasing(t, lt)
    requires forall x :: x in s <==> x in t
    ensures s == t
    decreases |s|
  {
    SameMembersEmpty(s, t);
    if s != [] && t != [] {
      assert s[0] in s && t[0] in t;
      if s[0] != t[0] {
        assert false;
      }
      forall x
        ensures x in s[1..] <==> x in t[1..]
      {
        if x in s[1..] {
          var i :| 1 <= i < |s| && s[i] == x;
          assert lt(s[0], x) && x in t;
          var k :| 0 <= k < |t| && t[k] == x;
          assert k != 0 && t[1..][k - 1] == x;
        }
        if x in t[1..] {
          var i :| 1 <= i < |t| && t[i] == x;
          assert lt(t[0], x) && x in s;
          var k :| 0 <= k < |s| && s[k] == x;
          assert k != 0 && s[1..][k - 1] == x;
        }
      }
      IncreasingUnique(s[1..], t[1..], lt);
    }
  }

  /** No element occurs twice. */
  ghost predicate Distinct<T>(s: seq<T>)
  {
    forall i, j :: 0 <= i < j < |s| ==> s[i] != s[j]
  }

  lemma {:induction false} InsertDistinct<T(!new)>(x: T, s: seq<T>, le: (T, T) -> bool)
    requires Distinct(s) && x !in s
    ensures Distinct(Insert(x, s, le))
    decreases |s|
  {
    if s != [] && !le(x, s[0]) {
      assert Distinct(s[1..]) by {
        forall i, j | 0 <= i < j < |s| - 1
          ensures s[1..][i] != s[1..][j]
        {
          assert s[1..][i] == s[i + 1] && s[1..][j] == s[j + 1];
        }
      }
      InsertDistinct(x, s[1..], le);
      var t := Insert(x, s[1..], le);
      forall j | 0 <= j < |t|
        ensures t[j] != s[0]
      {
        assert t[j] in multiset(t);
        if t[j] != x {
          assert t[j] in multiset(s[1..]);
          var k :| 0 <= k < |s[1..]| && s[1..][k] == t[j];
          assert s[k + 1] == t[j];
        }
      }
    }
  }

  /** Sorting a list without repeats gives a list without repeats. */
  lemma {:induction false} SortDistinct<T(!new)>(s: seq<T>, le: (T, T) -> bool)
    requires Distinct(s)
    ensures Distinct(Sort(s, le))
    decreases |s|
  {
    if s != [] {
      assert Distinct(s[1..]) by {
        forall i, j | 0 <= i < j < |s| - 1
          ensures s[1..][i] != s[1..][j]
        {
          assert s[1..][i] == s[i + 1] && s[1..][j] == s[j + 1];
        }
      }
      SortDistinct(s[1..], le);
      assert s[0] !in multiset(s[1..]);
      InsertDistinct(s[0], Sort(s[1..], le), le);
    }
  }

  /** A list already ordered by `le` is left as it is. */
  lemma {:induction false} SortOfSorted<T>(s: seq<T>, le: (T, T) -> bool)
    requires SortedBy(s, le)
    ensures Sort(s, le) == s
    decreases |s|
  {
    if s != [] {
      assert SortedBy(s[1..], le) by {
        forall i, j | 0 <= i < j < |s| - 1
          ensures le(s[1..][i], s[1..][j])
        {
          assert s[1..][i] == s[i + 1] && s[1..][j] == s[j + 1];
        }
      }
      SortOfSorted(s[1..], le);
    }
  }

  /** Sorting keeps the members. */
  lemma SortMembers<T>(s: seq<T>, le: (T, T) -> bool)
    ensures forall x :: x in Sort(s, le) <==> x in s
  {
    var r := Sort(s, le);
    forall x
      ensures x in r <==> x in s
    {
      assert x in r <==> x in multiset(r);
      assert x in s <==> x in multiset(s);
    }
  }
}
