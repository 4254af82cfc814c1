/**
 * 4-connected regions of a rectangular grid, shared by the flood-fill and the
 * island-area exercises. A grid is read as a value (`Snap`) so that what a
 * recursive search does to it can be stated as a function of the grid before.
 */
module GridRegions {
  import opened Paths

  type Cell = (int, int)

  /** `q` is one of the four cells the searches visit from `p`: down, up, right, left. */
  predicate Adjacent(p: Cell, q: Cell)
  {
    || q == (p.0 + 1, p.1)
    || q == (p.0 - 1, p.1)
    || q == (p.0, p.1 + 1)
    || q == (p.0, p.1 - 1)
  }

  lemma AdjacentFour(r: int, c: int)
    ensures Adjacent((r, c), (r + 1, c)) && Adjacent((r, c), (r - 1, c))
    ensures Adjacent((r, c), (r, c + 1)) && Adjacent((r, c), (r, c - 1))
  {
  }

  lemma AdjacentSymmetric()
    ensures Symmetric(Adjacent)
  {
  }

  /** The cells of `U` that `p` reaches through adjacent cells of `U`; empty when `p` is not in `U`. */
  ghost function Region(U: set<Cell>, p: Cell): set<Cell>
  {
    Component(Adjacent, U, p)
  }

  /** The cells of `G` that hold `v`. */
  ghost function CellsOf(G: seq<seq<int>>, v: int): set<Cell>
  {
    set r, c | 0 <= r < |G| && 0 <= c < |G[r]| && G[r][c] == v :: (r, c)
  }

  /**
   * `G` with every cell of `R` set to `c`, built up row by row (`RecolorAt`
   * gives its cells).
   */
  ghost function Recolor(G: seq<seq<int>>, R: set<Cell>, c: int): (H: seq<seq<int>>)
    ensures |H| == |G| && forall r :: 0 <= r < |G| ==> |H[r]| == |G[r]|
  {
    if |G| == 0 then []
    else Recolor(G[..|G| - 1], R, c) + [RecolorRow(G[|G| - 1], |G| - 1, R, c)]
  }

  /** Row `x` of a recolouring, whose old contents are `row`. */
  ghost function RecolorRow(row: seq<int>, x: int, R: set<Cell>, c: int): (H: seq<int>)
    ensures |H| == |row|
  {
    seq(|row|, k requires 0 <= k < |row| => if (x, k) in R then c else row[k])
  }

  lemma {:induction false} RecolorCell(G: seq<seq<int>>, R: set<Cell>, c: int, x: int, y: int)
    requires 0 <= x < |G| && 0 <= y < |G[x]|
    ensures Recolor(G, R, c)[x][y] == if (x, y) in R then c else G[x][y]
  {
    if x < |G| - 1 {
      RecolorCell(G[..|G| - 1], R, c, x, y);
    }
  }

  /** A cell of a recolouring is `c` on `R` and the old value elsewhere. */
  lemma RecolorAt(G: seq<seq<int>>, R: set<Cell>, c: int)
    ensures forall x, y :: 0 <= x < |G| && 0 <= y < |G[x]| ==>
      Recolor(G, R, c)[x][y] == if (x, y) in R then c else G[x][y]
  {
    forall x, y | 0 <= x < |G| && 0 <= y < |G[x]|
      ensures Recolor(G, R, c)[x][y] == if (x, y) in R then c else G[x][y]
    {
      RecolorCell(G, R, c, x, y);
    }
  }

  /** Two grids of the same shape with the same cells are equal. */
  lemma GridEqual(G: seq<seq<int>>, H: seq<seq<int>>)
    requires |G| == |H| && forall x :: 0 <= x < |G| ==> |G[x]| == |H[x]|
    requires forall x, y :: 0 <= x < |G| && 0 <= y < |G[x]| ==> G[x][y] == H[x][y]
    ensures G == H
  {
    forall x | 0 <= x < |G|
      ensures G[x] == H[x]
    {
      assert forall y :: 0 <= y < |G[x]| ==> G[x][y] == H[x][y];
    }
  }

  /**
   * The contents of a 2-D array, row by row. It is built up one row and one
   * cell at a time, so the solver unfolds it only where `SnapCells` is called.
   */
  ghost function Snap(a: array2<int>): (G: seq<seq<int>>)
    reads a
    ensures |G| == a.Length0
    ensures forall r :: 0 <= r < |G| ==> |G[r]| == a.Length1
  {
    SnapRows(a, a.Length0)
  }

  ghost function SnapRows(a: array2<int>, n: nat): (G: seq<seq<int>>)
    requires n <= a.Length0
    reads a
    ensures |G| == n
    ensures forall r :: 0 <= r < n ==> |G[r]| == a.Length1
  {
    if n == 0 then [] else SnapRows(a, n - 1) + [SnapRow(a, n - 1, a.Length1)]
  }

  ghost function SnapRow(a: array2<int>, r: nat, n: nat): (row: seq<int>)
    requires r < a.Length0 && n <= a.Length1
    reads a
    ensures |row| == n
  {
    if n == 0 then [] else SnapRow(a, r, n - 1) + [a[r, n - 1]]
  }

  /** Every cell of `Snap(a)` is the array's cell. */
  lemma SnapCells(a: array2<int>)
    ensures forall x, y :: 0 <= x < a.Length0 && 0 <= y < a.Length1 ==> Snap(a)[x][y] == a[x, y]
  {
    forall x, y | 0 <= x < a.Length0 && 0 <= y < a.Length1
      ensures Snap(a)[x][y] == a[x, y]
    {
      SnapRowsCell(a, a.Length0, x);
      SnapRowCell(a, x, a.Length1, y);
    }
  }

  lemma {:induction false} SnapRowsCell(a: array2<int>, n: nat, x: nat)
    requires x < n <= a.Length0
    ensures SnapRows(a, n)[x] == SnapRow(a, x, a.Length1)
  {
    if x < n - 1 {
      SnapRowsCell(a, n - 1, x);
    }
  }

  lemma {:induction false} SnapRowCell(a: array2<int>, x: nat, n: nat, y: nat)
    requires x < a.Length0 && y < n <= a.Length1
    ensures SnapRow(a, x, n)[y] == a[x, y]
  {
    if y < n - 1 {
      SnapRowCell(a, x, n - 1, y);
    }
  }

  /** `a[r][c] = v`, seen as a change of the whole grid. */
  method SetCell(a: array2<int>, r: int, c: int, v: int)
    requires 0 <= r < a.Length0 && 0 <= c < a.Length1
    modifies a
    ensures Snap(a) == Recolor(old(Snap(a)), {(r, c)}, v)
  {
    ghost var G0 := Snap(a);
    SnapCells(a);
    a[r, c] := v;
    SnapCells(a);
    RecolorAt(G0, {(r, c)}, v);
    GridEqual(Snap(a), Recolor(G0, {(r, c)}, v));
  }

  lemma RecolorNone(G: seq<seq<int>>, c: int)
    ensures Recolor(G, {}, c) == G
  {
    RecolorAt(G, {}, c);
    GridEqual(Recolor(G, {}, c), G);
  }

  /** Painting cells with the colour they already have changes nothing. */
  lemma RecolorSame(G: seq<seq<int>>, R: set<Cell>, v: int)
    requires R <= CellsOf(G, v)
    ensures Recolor(G, R, v) == G
  {
    var H := Recolor(G, R, v);
    RecolorAt(G, R, v);
    forall x, y | 0 <= x < |G| && 0 <= y < |G[x]|
      ensures H[x][y] == G[x][y]
    {
      if (x, y) in R {
        assert (x, y) in CellsOf(G, v);
      }
    }
    GridEqual(H, G);
  }

  lemma RecolorTwice(G: seq<seq<int>>, A: set<Cell>, B: set<Cell>, c: int)
    ensures Recolor(Recolor(G, A, c), B, c) == Recolor(G, A + B, c)
  {
    var G1 := Recolor(G, A, c);
    RecolorAt(G, A, c);
    RecolorAt(G1, B, c);
    RecolorAt(G, A + B, c);
    GridEqual(Recolor(G1, B, c), Recolor(G, A + B, c));
  }

  /** Painting cells of colour `v` with another colour removes exactly them from the `v` cells. */
  lemma RecolorCells(G: seq<seq<int>>, R: set<Cell>, c: int, v: int)
    requires c != v && R <= CellsOf(G, v)
    ensures CellsOf(Recolor(G, R, c), v) == CellsOf(G, v) - R
  {
    var H := Recolor(G, R, c);
    RecolorAt(G, R, c);
    forall q | q in CellsOf(H, v)
      ensures q in CellsOf(G, v) - R
    {
    }
    forall q | q in CellsOf(G, v) - R
      ensures q in CellsOf(H, v)
    {
      assert H[q.0][q.1] == v;
    }
  }

  /** `G` with the region of `q` among the cells of colour `ic` painted `color`. */
  ghost function Flooded(G: seq<seq<int>>, ic: int, color: int, q: Cell): seq<seq<int>>
  {
    Recolor(G, Region(CellsOf(G, ic), q), color)
  }

  /**
   * The state of a recursive fill of the region of `p` after some of its
   * recursive calls: the cells taken out of the `ic` cells so far lie in the
   * region of `p`, are painted `color`, and every one of them except `p`
   * has no neighbour of colour `ic` left.
   */
  ghost predicate PartialFill(G0: seq<seq<int>>, G: seq<seq<int>>, ic: int, color: int, p: Cell)
  {
    var U0 := CellsOf(G0, ic);
    var U := CellsOf(G, ic);
    && U <= U0
    && G == Recolor(G0, U0 - U, color)
    && p in U0 && p !in U
    && U0 - U <= Region(U0, p)
    && forall d, v :: d in U0 && d !in U && d != p && v in U0 && Adjacent(d, v) ==> v !in U
  }

  /** A partial fill has removed at least `p` from the cells of colour `ic`. */
  lemma PartialFillShrinks(G0: seq<seq<int>>, G: seq<seq<int>>, ic: int, color: int, p: Cell)
    requires PartialFill(G0, G, ic, color, p)
    ensures CellsOf(G, ic) < CellsOf(G0, ic)
  {
  }

  lemma FillStart(G0: seq<seq<int>>, G1: seq<seq<int>>, ic: int, color: int, p: Cell)
    requires color != ic && p in CellsOf(G0, ic)
    requires G1 == Recolor(G0, {p}, color)
    ensures PartialFill(G0, G1, ic, color, p)
  {
    var U0 := CellsOf(G0, ic);
    RecolorCells(G0, {p}, color, ic);
    assert U0 - CellsOf(G1, ic) == {p};
    ComponentBasics(Adjacent, U0, p);
  }

  /** `R` and what remains of `U` without it split the cells of `U`. */
  lemma CardSplit(U: set<Cell>, R: set<Cell>)
    requires R <= U
    ensures |U| == |U - R| + |R|
  {
    assert U == (U - R) + R && (U - R) !! R;
  }

  /** One recursive call on a neighbour `q` of `p` keeps the state a partial fill and leaves `q` done. */
  lemma FillStep(G0: seq<seq<int>>, G: seq<seq<int>>, G': seq<seq<int>>, ic: int, color: int, p: Cell, q: Cell)
    requires color != ic && PartialFill(G0, G, ic, color, p) && Adjacent(p, q)
    requires G' == Recolor(G, Region(CellsOf(G, ic), q), color)
    ensures PartialFill(G0, G', ic, color, p)
    ensures q !in CellsOf(G', ic)
    ensures CellsOf(G', ic) <= CellsOf(G, ic)
    ensures |CellsOf(G, ic)| == |CellsOf(G', ic)| + |Region(CellsOf(G, ic), q)|
  {
    var U0, U := CellsOf(G0, ic), CellsOf(G, ic);
    var R := Region(U, q);
    ComponentBasics(Adjacent, U, q);
    RecolorCells(G, R, color, ic);
    var U' := CellsOf(G', ic);
    assert U' == U - R;
    CardSplit(U, R);
    FillStepPaint(G0, G, G', ic, color, R);
    ComponentWithin(Adjacent, U0, U, p, q);
    FillStepClosed(U0, U, q, p);
  }

  lemma FillStepPaint(G0: seq<seq<int>>, G: seq<seq<int>>, G': seq<seq<int>>, ic: int, color: int, R: set<Cell>)
    requires CellsOf(G, ic) <= CellsOf(G0, ic)
    requires G == Recolor(G0, CellsOf(G0, ic) - CellsOf(G, ic), color)
    requires R <= CellsOf(G, ic)
    requires G' == Recolor(G, R, color) && CellsOf(G', ic) == CellsOf(G, ic) - R
    ensures G' == Recolor(G0, CellsOf(G0, ic) - CellsOf(G', ic), color)
  {
    var U0, U := CellsOf(G0, ic), CellsOf(G, ic);
    RecolorTwice(G0, U0 - U, R, color);
    assert (U0 - U) + R == U0 - CellsOf(G', ic);
  }

  lemma FillStepClosed(U0: set<Cell>, U: set<Cell>, q: Cell, p: Cell)
    requires U <= U0
    requires forall d, v :: d in U0 && d !in U && d != p && v in U0 && Adjacent(d, v) ==> v !in U
    ensures forall d, v :: d in U0 && d !in U - Region(U, q) && d != p && v in U0 && Adjacent(d, v) ==> v !in U - Region(U, q)
  {
    var R := Region(U, q);
    forall d, v | d in U0 && d !in U - R && d != p && v in U0 && Adjacent(d, v)
      ensures v !in U - R
    {
      if d in R && v in U {
        ReachStep(Restrict(Adjacent, U), q, d, v);
      }
    }
  }

  /** Once every neighbour of `p` is done, exactly the region of `p` has been painted. */
  lemma FillDone(G0: seq<seq<int>>, G: seq<seq<int>>, ic: int, color: int, r: int, c: int)
    requires PartialFill(G0, G, ic, color, (r, c))
    requires (r + 1, c) !in CellsOf(G, ic) && (r - 1, c) !in CellsOf(G, ic)
    requires (r, c + 1) !in CellsOf(G, ic) && (r, c - 1) !in CellsOf(G, ic)
    ensures Region(CellsOf(G0, ic), (r, c)) == CellsOf(G0, ic) - CellsOf(G, ic)
    ensures G == Recolor(G0, Region(CellsOf(G0, ic), (r, c)), color)
  {
    DoneRegion(CellsOf(G0, ic), CellsOf(G, ic), (r, c));
  }

  /**
   * When the cells removed from `U0` are closed under steps of `U0` at every
   * cell but `p`, and no neighbour of `p` is left, the removed cells are
   * exactly the region of `p`.
   */
  lemma DoneRegion(U0: set<Cell>, U: set<Cell>, p: Cell)
    requires U <= U0 && p in U0 && p !in U && U0 - U <= Region(U0, p)
    requires forall d, v :: d in U0 && d !in U && d != p && v in U0 && Adjacent(d, v) ==> v !in U
    requires (p.0 + 1, p.1) !in U && (p.0 - 1, p.1) !in U
    requires (p.0, p.1 + 1) !in U && (p.0, p.1 - 1) !in U
    ensures Region(U0, p) == U0 - U
  {
    var D := U0 - U;
    forall d, v | d in D && Restrict(Adjacent, U0)(d, v)
      ensures v in D
    {
      if d == p {
        assert v !in U;
      }
    }
    forall y | y in Region(U0, p)
      ensures y in D
    {
      ClosedContains(Restrict(Adjacent, U0), D, p, y);
    }
  }

  /**
   * The recursive four-neighbour search of both exercises, on the grid as a
   * value: a cell in bounds that still holds `ic` is set to `color` and
   * counted, then its neighbours are searched. The result is the new grid
   * and the number of cells set. Each cell set removes one cell holding
   * `ic`, so the count is the number of those cells the search removes,
   * which also bounds the recursion.
   */
  ghost function Search(G: seq<seq<int>>, ic: int, color: int, r: int, c: int): (res: (seq<seq<int>>, int))
    requires color != ic
    ensures res.1 >= 0 && |CellsOf(res.0, ic)| + res.1 == |CellsOf(G, ic)|
    decreases |CellsOf(G, ic)|, 0
  {
    if !(0 <= r < |G| && 0 <= c < |G[r]| && G[r][c] == ic) then (G, 0)
    else
      assert (r, c) in CellsOf(G, ic);
      RecolorCells(G, {(r, c)}, color, ic);
      CardSplit(CellsOf(G, ic), {(r, c)});
      var s := SearchNeighbours(Recolor(G, {(r, c)}, color), ic, color, r, c);
      (s.0, 1 + s.1)
  }

  /** The searches from the four neighbours of `(r, c)`: down, up, right, left. */
  ghost function SearchNeighbours(G: seq<seq<int>>, ic: int, color: int, r: int, c: int): (res: (seq<seq<int>>, int))
    requires color != ic
    ensures res.1 >= 0 && |CellsOf(res.0, ic)| + res.1 == |CellsOf(G, ic)|
    decreases |CellsOf(G, ic)|, 2
  {
    var s1 := SearchPair(G, ic, color, r + 1, c, r - 1, c);
    var s2 := SearchPair(s1.0, ic, color, r, c + 1, r, c - 1);
    (s2.0, s1.1 + s2.1)
  }

  /** A search from `(ar, ac)` and then one from `(br, bc)` on what it leaves. */
  ghost function SearchPair(G: seq<seq<int>>, ic: int, color: int, ar: int, ac: int, br: int, bc: int): (res: (seq<seq<int>>, int))
    requires color != ic
    ensures res.1 >= 0 && |CellsOf(res.0, ic)| + res.1 == |CellsOf(G, ic)|
    decreases |CellsOf(G, ic)|, 1
  {
    var s1 := Search(G, ic, color, ar, ac);
    var s2 := Search(s1.0, ic, color, br, bc);
    (s2.0, s1.1 + s2.1)
  }

  /**
   * The search from `(r, c)` sets exactly the region of `(r, c)` among the
   * cells holding `ic`, and counts its cells; from a cell outside the grid or
   * holding another value it sets and counts nothing.
   */
  lemma {:induction false} SearchFloods(G: seq<seq<int>>, ic: int, color: int, r: int, c: int)
    requires color != ic
    ensures Search(G, ic, color, r, c).0 == Flooded(G, ic, color, (r, c))
    ensures Search(G, ic, color, r, c).1 == |Region(CellsOf(G, ic), (r, c))|
    decreases CellsOf(G, ic), 3
  {
    var U := CellsOf(G, ic);
    if !(0 <= r < |G| && 0 <= c < |G[r]| && G[r][c] == ic) {
      ComponentBasics(Adjacent, U, (r, c));
      RecolorNone(G, color);
    } else {
      assert (r, c) in U;
      var G1 := Recolor(G, {(r, c)}, color);
      FillStart(G, G1, ic, color, (r, c));
      RecolorCells(G, {(r, c)}, color, ic);
      CardSplit(U, {(r, c)});
      AdjacentFour(r, c);
      SearchSteps(G, G1, ic, color, r, c, r + 1, c, r - 1, c);
      SearchRest(G, SearchPair(G1, ic, color, r + 1, c, r - 1, c).0, ic, color, r, c);
    }
  }

  /**
   * The searches from the right and left neighbours of `(r, c)`, after those
   * from below and above, complete the region of `(r, c)`.
   */
  lemma {:induction false} SearchRest(G: seq<seq<int>>, G2: seq<seq<int>>, ic: int, color: int, r: int, c: int)
    requires color != ic && PartialFill(G, G2, ic, color, (r, c))
    requires (r + 1, c) !in CellsOf(G2, ic) && (r - 1, c) !in CellsOf(G2, ic)
    ensures SearchPair(G2, ic, color, r, c + 1, r, c - 1).0 == Flooded(G, ic, color, (r, c))
    ensures |Region(CellsOf(G, ic), (r, c))|
            == |CellsOf(G, ic)| - |CellsOf(SearchPair(G2, ic, color, r, c + 1, r, c - 1).0, ic)|
    decreases CellsOf(G, ic), 2
  {
    AdjacentFour(r, c);
    SearchSteps(G, G2, ic, color, r, c, r, c + 1, r, c - 1);
    var G5 := SearchPair(G2, ic, color, r, c + 1, r, c - 1).0;
    FillDone(G, G5, ic, color, r, c);
    CardSplit(CellsOf(G, ic), CellsOf(G5, ic));
  }

  /** A pair of searches from neighbours `(ar, ac)` and `(br, bc)` of `(r, c)` keeps the fill partial. */
  lemma {:induction false} SearchSteps(G0: seq<seq<int>>, G: seq<seq<int>>, ic: int, color: int,
                                       r: int, c: int, ar: int, ac: int, br: int, bc: int)
    requires color != ic && PartialFill(G0, G, ic, color, (r, c))
    requires Adjacent((r, c), (ar, ac)) && Adjacent((r, c), (br, bc))
    ensures var s := SearchPair(G, ic, color, ar, ac, br, bc);
            && PartialFill(G0, s.0, ic, color, (r, c))
            && (ar, ac) !in CellsOf(s.0, ic) && (br, bc) !in CellsOf(s.0, ic)
            && CellsOf(s.0, ic) <= CellsOf(G, ic)
    decreases CellsOf(G0, ic), 1
  {
    SearchStep(G0, G, ic, color, r, c, ar, ac);
    SearchStep(G0, Search(G, ic, color, ar, ac).0, ic, color, r, c, br, bc);
  }

  /**
   * One search from a neighbour `(qr, qc)` of `(r, c)` keeps the state a
   * partial fill and leaves the neighbour done.
   */
  lemma {:induction false} SearchStep(G0: seq<seq<int>>, G: seq<seq<int>>, ic: int, color: int,
                                      r: int, c: int, qr: int, qc: int)
    requires color != ic && PartialFill(G0, G, ic, color, (r, c)) && Adjacent((r, c), (qr, qc))
    ensures var s := Search(G, ic, color, qr, qc);
            && PartialFill(G0, s.0, ic, color, (r, c))
            && (qr, qc) !in CellsOf(s.0, ic)
            && CellsOf(s.0, ic) <= CellsOf(G, ic)
    decreases CellsOf(G0, ic), 0
  {
    PartialFillShrinks(G0, G, ic, color, (r, c));
    SearchFloods(G, ic, color, qr, qc);
    FillStep(G0, G, Search(G, ic, color, qr, qc).0, ic, color, (r, c), (qr, qc));
  }

  /** The cells of a grid whose rows have `cols` columns number at most `rows * cols`. */
  lemma CellsBound(G: seq<seq<int>>, v: int, cols: nat)
    requires forall r :: 0 <= r < |G| ==> |G[r]| == cols
    ensures |CellsOf(G, v)| <= |G| * cols
  {
    var S := CellsOf(G, v);
    RowsBound(S, |G|, cols);
  }

  lemma {:induction false} RowsBound(S: set<Cell>, rows: nat, cols: nat)
    requires forall q :: q in S ==> 0 <= q.0 < rows && 0 <= q.1 < cols
    ensures |S| <= rows * cols
  {
    if rows > 0 {
      var last := set q | q in S && q.0 == rows - 1;
      var rest := S - last;
      RowsBound(rest, rows - 1, cols);
      ColsBound(last, rows - 1, cols);
      CardSplit(S, last);
      assert (rows - 1) * cols + cols == rows * cols;
    }
  }

  lemma {:induction false} ColsBound(S: set<Cell>, r: int, cols: nat)
    requires forall q :: q in S ==> q.0 == r && 0 <= q.1 < cols
    ensures |S| <= cols
  {
    if cols > 0 {
      var rest := S - {(r, cols - 1)};
      ColsBound(rest, r, cols - 1);
    } else {
      assert S == {} by {
        forall q | q in S ensures false { }
      }
    }
  }
}
