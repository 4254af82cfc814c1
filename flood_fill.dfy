/**
 * Flood fill (`Flood_Fill.py`): repaint, in place, the 4-connected region of
 * cells that share the start cell's colour.
 */
module FloodFill {
  import opened Paths
  import opened GridRegions

  /** `DFS(r, c)` on the image in place: it does to the grid what `Search` does. */
  method Fill(image: array2<int>, r: int, c: int, ic: int, color: int)
    requires ic != color
    modifies image
    ensures Snap(image) == Search(old(Snap(image)), ic, color, r, c).0
    decreases |CellsOf(Snap(image), ic)|, 0
  {
    ghost var G0 := Snap(image);
    SnapCells(image);
    if !(0 <= r < image.Length0 && 0 <= c < image.Length1 && image[r, c] == ic) {
      return;
    }
    assert (r, c) in CellsOf(G0, ic);
    RecolorCells(G0, {(r, c)}, color, ic);
    CardSplit(CellsOf(G0, ic), {(r, c)});
    SetCell(image, r, c, color);
    FillNeighbours(image, r, c, ic, color);
  }

  /** The four recursive calls of `DFS(r, c)`: down, up, right, left. */
  method FillNeighbours(image: array2<int>, r: int, c: int, ic: int, color: int)
    requires ic != color
    modifies image
    ensures Snap(image) == SearchNeighbours(old(Snap(image)), ic, color, r, c).0
    decreases |CellsOf(Snap(image), ic)|, 2
  {
    FillPair(image, r + 1, c, r - 1, c, ic, color);
    FillPair(image, r, c + 1, r, c - 1, ic, color);
  }

  /** Two of those recursive calls in a row, on `(ar, ac)` and then on `(br, bc)`. */
  method FillPair(image: array2<int>, ar: int, ac: int, br: int, bc: int, ic: int, color: int)
    requires ic != color
    modifies image
    ensures Snap(image) == SearchPair(old(Snap(image)), ic, color, ar, ac, br, bc).0
    decreases |CellsOf(Snap(image), ic)|, 1
  {
    Fill(image, ar, ac, ic, color);
    Fill(image, br, bc, ic, color);
  }

  /**
   * `floodFill`: when the start cell already has the new colour nothing
   * changes; otherwise every cell 4-connected to the start through cells of
   * the start colour is repainted and every other cell keeps its value. The
   * same array is returned.
   */
  method FloodFill(image: array2<int>, sr: int, sc: int, color: int) returns (result: array2<int>)
    requires 0 <= sr < image.Length0 && 0 <= sc < image.Length1
    modifies image
    ensures result == image
    ensures old(image[sr, sc]) == color ==> Snap(image) == old(Snap(image))
    ensures forall x, y :: 0 <= x < image.Length0 && 0 <= y < image.Length1 ==>
      image[x, y] == if (x, y) in Region(CellsOf(old(Snap(image)), old(image[sr, sc])), (sr, sc))
                     then color else old(image[x, y])
  {
    ghost var G0 := Snap(image);
    var initialColor := image[sr, sc];
    ghost var R := Region(CellsOf(G0, initialColor), (sr, sc));
    SnapCells(image);
    if initialColor == color {
      ComponentBasics(Adjacent, CellsOf(G0, initialColor), (sr, sc));
      RecolorSame(G0, R, color);
      return image;
    }
    Fill(image, sr, sc, initialColor, color);
    SearchFloods(G0, initialColor, color, sr, sc);
    SnapCells(image);
    RecolorAt(G0, R, color);
    result := image;
  }
}
