/**
 * Max area of island (`Max_Area_of_Island.py`): in a grid of 1 (land) and
 * 0 (water), the size of the largest 4-connected island. The search sinks
 * every island it measures, so the grid ends with all its land turned to water.
 */
module MaxAreaOfIsland {
  import opened Paths
  import opened GridRegions

  /** `DFS(r, c)` on the grid in place: it does to the grid what `Search` does and returns its count. */
  method Sink(grid: array2<int>, r: int, c: int) returns (area: int)
    modifies grid
    ensures Snap(grid) == Search(old(Snap(grid)), 1, 0, r, c).0
    ensures area == Search(old(Snap(grid)), 1, 0, r, c).1
    decreases |CellsOf(Snap(grid), 1)|, 0
  {
    ghost var G0 := Snap(grid);
    SnapCells(grid);
    if !(0 <= r < grid.Length0 && 0 <= c < grid.Length1 && grid[r, c] == 1) {
      return 0;
    }
    assert (r, c) in CellsOf(G0, 1);
    RecolorCells(G0, {(r, c)}, 0, 1);
    CardSplit(CellsOf(G0, 1), {(r, c)});
    SetCell(grid, r, c, 0);
    var a := SinkNeighbours(grid, r, c);
    area := 1 + a;
  }

  /** The four recursive calls of `DFS(r, c)`, down, up, right, left, and the sum of their areas. */
  method SinkNeighbours(grid: array2<int>, r: int, c: int) returns (area: int)
    modifies grid
    ensures Snap(grid) == SearchNeighbours(old(Snap(grid)), 1, 0, r, c).0
    ensures area == SearchNeighbours(old(Snap(grid)), 1, 0, r, c).1
    decreases |CellsOf(Snap(grid), 1)|, 2
  {
    var a := SinkPair(grid, r + 1, c, r - 1, c);
    var b := SinkPair(grid, r, c + 1, r, c - 1);
    area := a + b;
  }

  /** Two of those recursive calls in a row, on `(ar, ac)` and then on `(br, bc)`. */
  method SinkPair(grid: array2<int>, ar: int, ac: int, br: int, bc: int) returns (area: int)
    modifies grid
    ensures Snap(grid) == SearchPair(old(Snap(grid)), 1, 0, ar, ac, br, bc).0
    ensures area == SearchPair(old(Snap(grid)), 1, 0, ar, ac, br, bc).1
    decreases |CellsOf(Snap(grid), 1)|, 1
  {
    var a := Sink(grid, ar, ac);
    var b := Sink(grid, br, bc);
    area := a + b;
  }

  /**
   * The land sunk so far in the grid that started as `G0` is a union of whole
   * islands, and it is exactly what changed.
   */
  ghost predicate Sunk(G0: seq<seq<int>>, G: seq<seq<int>>)
  {
    var L0 := CellsOf(G0, 1);
    var Z := L0 - CellsOf(G, 1);
    && CellsOf(G, 1) <= L0
    && G == Recolor(G0, Z, 0)
    && Closed(Restrict(Adjacent, L0), Z)
  }

  /** `best` is at least the area of each island with a cell in `Z` and, unless 0, the area of one of them. */
  ghost predicate BestOf(L0: set<Cell>, Z: set<Cell>, best: int)
  {
    && (forall q :: q in Z ==> |Region(L0, q)| <= best)
    && (best == 0 || exists q :: q in Z && best == |Region(L0, q)|)
  }

  /** The state of the scan over the grid that started as `G0`, with `best` the area so far. */
  ghost predicate Scanning(G0: seq<seq<int>>, G: seq<seq<int>>, best: int)
  {
    Sunk(G0, G) && BestOf(CellsOf(G0, 1), CellsOf(G0, 1) - CellsOf(G, 1), best)
  }

  lemma ScanStart(G0: seq<seq<int>>)
    ensures Scanning(G0, G0, 0)
  {
    RecolorNone(G0, 0);
    assert CellsOf(G0, 1) - CellsOf(G0, 1) == {};
  }

  /**
   * Sinking the island of a land cell `(r, c)` still in the grid sinks one
   * more whole island, exactly that island, and counts its area.
   */
  lemma SinkIsland(G0: seq<seq<int>>, G: seq<seq<int>>, r: int, c: int)
    requires Sunk(G0, G) && (r, c) in CellsOf(G, 1)
    ensures Sunk(G0, Search(G, 1, 0, r, c).0)
    ensures CellsOf(G0, 1) - CellsOf(Search(G, 1, 0, r, c).0, 1)
            == (CellsOf(G0, 1) - CellsOf(G, 1)) + Region(CellsOf(G0, 1), (r, c))
    ensures Search(G, 1, 0, r, c).1 == |Region(CellsOf(G0, 1), (r, c))|
    ensures CellsOf(Search(G, 1, 0, r, c).0, 1) <= CellsOf(G, 1)
    ensures (r, c) !in CellsOf(Search(G, 1, 0, r, c).0, 1)
  {
    var L0, U := CellsOf(G0, 1), CellsOf(G, 1);
    var Z := L0 - U;
    SearchFloods(G, 1, 0, r, c);
    SinkSets(L0, U, (r, c));
    var R := Region(L0, (r, c));
    RecolorCells(G, R, 0, 1);
    var G' := Search(G, 1, 0, r, c).0;
    assert G' == Recolor(G, R, 0) && CellsOf(G', 1) == U - R;
    RecolorTwice(G0, Z, R, 0);
    assert G' == Recolor(G0, L0 - CellsOf(G', 1), 0);
  }

  /**
   * The island of a land cell `q` left in `U`, when what was taken from the
   * land `L0` is a union of islands, is its island in `L0`; taking it too
   * leaves a union of islands.
   */
  lemma SinkSets(L0: set<Cell>, U: set<Cell>, q: Cell)
    requires U <= L0 && Closed(Restrict(Adjacent, L0), L0 - U) && q in U
    ensures Region(U, q) == Region(L0, q) && Region(L0, q) <= U
    ensures U - Region(L0, q) <= U && q !in U - Region(L0, q)
    ensures L0 - (U - Region(L0, q)) == (L0 - U) + Region(L0, q)
    ensures Closed(Restrict(Adjacent, L0), (L0 - U) + Region(L0, q))
  {
    var Z := L0 - U;
    AdjacentSymmetric();
    ComponentAfterRemoval(Adjacent, L0, Z, q);
    assert U == L0 - Z;
    ComponentBasics(Adjacent, U, q);
    ScanClosed(L0, Z, q);
  }

  /** Adding a whole island to a union of islands gives a union of islands. */
  lemma ScanClosed(L0: set<Cell>, Z: set<Cell>, q: Cell)
    requires Closed(Restrict(Adjacent, L0), Z)
    ensures Closed(Restrict(Adjacent, L0), Z + Region(L0, q))
  {
    ComponentClosed(Adjacent, L0, q);
  }

  /** Measuring the island of `q` as well raises `best` to its area if that is larger. */
  lemma BestStep(L0: set<Cell>, Z: set<Cell>, best: int, q: Cell)
    requires BestOf(L0, Z, best) && q in L0
    ensures var a := |Region(L0, q)|;
            BestOf(L0, Z + Region(L0, q), if best < a then a else best)
  {
    var R := Region(L0, q);
    var best' := if best < |R| then |R| else best;
    forall x | x in Z + R
      ensures |Region(L0, x)| <= best'
    {
      if x in R {
        AdjacentSymmetric();
        ComponentSame(Adjacent, L0, q, x);
      }
    }
    if best < |R| {
      ComponentBasics(Adjacent, L0, q);
      assert q in Z + R;
    }
  }

  /**
   * Sinking the island of land cell `(r, c)` that the scan reaches keeps the
   * scan state, with `best` raised to that island's area if it is larger.
   */
  lemma ScanStep(G0: seq<seq<int>>, G: seq<seq<int>>, best: int, r: int, c: int)
    requires Scanning(G0, G, best) && (r, c) in CellsOf(G, 1)
    ensures var s := Search(G, 1, 0, r, c);
            && Scanning(G0, s.0, if best < s.1 then s.1 else best)
            && CellsOf(s.0, 1) <= CellsOf(G, 1)
            && (r, c) !in CellsOf(s.0, 1)
  {
    var L0 := CellsOf(G0, 1);
    SinkIsland(G0, G, r, c);
    BestStep(L0, L0 - CellsOf(G, 1), best, (r, c));
  }

  /** At the end of the scan no land is left, so every island has been sunk and measured. */
  lemma ScanEnd(G0: seq<seq<int>>, G: seq<seq<int>>, best: int)
    requires Scanning(G0, G, best) && CellsOf(G, 1) == {}
    ensures G == Recolor(G0, CellsOf(G0, 1), 0)
    ensures forall q :: q in CellsOf(G0, 1) ==> |Region(CellsOf(G0, 1), q)| <= best
    ensures (best == 0) == (CellsOf(G0, 1) == {})
    ensures best != 0 ==> exists q :: q in CellsOf(G0, 1) && best == |Region(CellsOf(G0, 1), q)|
    ensures 0 <= best <= |CellsOf(G0, 1)|
  {
    var L0 := CellsOf(G0, 1);
    assert L0 - CellsOf(G, 1) == L0;
    if q :| q in L0 {
      ComponentBasics(Adjacent, L0, q);
      assert |Region(L0, q)| >= 1;
    }
    if best != 0 {
      var q :| q in L0 && best == |Region(L0, q)|;
      ComponentBasics(Adjacent, L0, q);
      CardSplit(L0, Region(L0, q));
    }
  }

  /** Every land cell left in `U` comes at or after `(r, c)` in row-major order. */
  ghost predicate ClearBefore(U: set<Cell>, r: int, c: int)
  {
    forall q :: q in U ==> r < q.0 || (r == q.0 && c <= q.1)
  }

  /** A row whose cells are all done moves the scan to the start of the next row. */
  lemma ClearRow(G: seq<seq<int>>, r: int, cols: int)
    requires forall x :: 0 <= x < |G| ==> |G[x]| == cols
    requires ClearBefore(CellsOf(G, 1), r, cols)
    ensures ClearBefore(CellsOf(G, 1), r + 1, 0)
  {
  }

  /** When the land left only shrank and `(r, c)` is not land any more, the scan moves past it. */
  lemma ClearNext(U: set<Cell>, U': set<Cell>, r: int, c: int)
    requires ClearBefore(U, r, c) && U' <= U && (r, c) !in U'
    ensures ClearBefore(U', r, c + 1)
  {
  }

  /** The body of the inner loop: look at cell `(r, c)` and, if it is land, sink and measure its island. */
  method Visit(grid: array2<int>, ghost G0: seq<seq<int>>, r: int, c: int, best: int) returns (best': int)
    requires 0 <= r < grid.Length0 && 0 <= c < grid.Length1
    requires Scanning(G0, Snap(grid), best) && ClearBefore(CellsOf(Snap(grid), 1), r, c)
    modifies grid
    ensures Scanning(G0, Snap(grid), best') && ClearBefore(CellsOf(Snap(grid), 1), r, c + 1)
  {
    ghost var G := Snap(grid);
    SnapCells(grid);
    if grid[r, c] == 1 {
      assert (r, c) in CellsOf(G, 1);
      ScanStep(G0, G, best, r, c);
      var area := Sink(grid, r, c);
      best' := if best < area then area else best;
    } else {
      assert (r, c) !in CellsOf(G, 1);
      best' := best;
    }
    ClearNext(CellsOf(G, 1), CellsOf(Snap(grid), 1), r, c);
  }

  /** One pass of the inner loop, over row `r`. */
  method ScanRow(grid: array2<int>, ghost G0: seq<seq<int>>, r: int, best: int) returns (best': int)
    requires 0 <= r < grid.Length0
    requires Scanning(G0, Snap(grid), best) && ClearBefore(CellsOf(Snap(grid), 1), r, 0)
    modifies grid
    ensures Scanning(G0, Snap(grid), best') && ClearBefore(CellsOf(Snap(grid), 1), r + 1, 0)
  {
    best' := best;
    var c := 0;
    while c < grid.Length1
      invariant 0 <= c <= grid.Length1
      invariant Scanning(G0, Snap(grid), best') && ClearBefore(CellsOf(Snap(grid), 1), r, c)
    {
      best' := Visit(grid, G0, r, c, best');
      c := c + 1;
    }
    ClearRow(Snap(grid), r, grid.Length1);
  }

  /**
   * `maxAreaOfIsland`: the result is the largest area of an island of the
   * grid as it was, 0 when it has no land (in particular when it is empty),
   * and the grid is left with all its land turned to water.
   */
  method MaxAreaOfIsland(grid: array2<int>) returns (best: int)
    modifies grid
    ensures forall q :: q in CellsOf(old(Snap(grid)), 1) ==> |Region(CellsOf(old(Snap(grid)), 1), q)| <= best
    ensures (best == 0) == (CellsOf(old(Snap(grid)), 1) == {})
    ensures best != 0 ==> exists q :: q in CellsOf(old(Snap(grid)), 1) && best == |Region(CellsOf(old(Snap(grid)), 1), q)|
    ensures Snap(grid) == Recolor(old(Snap(grid)), CellsOf(old(Snap(grid)), 1), 0)
    ensures CellsOf(Snap(grid), 1) == {}
    ensures 0 <= best <= grid.Length0 * grid.Length1
  {
    ghost var G0 := Snap(grid);
    ScanStart(G0);
    CellsBound(G0, 1, grid.Length1);
    if grid.Length0 == 0 || grid.Length1 == 0 {
      assert CellsOf(G0, 1) == {};
      ScanEnd(G0, G0, 0);
      best := 0;
      return;
    }
    best := 0;
    var r := 0;
    while r < grid.Length0
      invariant 0 <= r <= grid.Length0
      invariant Scanning(G0, Snap(grid), best) && ClearBefore(CellsOf(Snap(grid), 1), r, 0)
    {
      best := ScanRow(grid, G0, r, best);
      r := r + 1;
    }
    assert CellsOf(Snap(grid), 1) == {};
    ScanEnd(G0, Snap(grid), best);
  }
}
