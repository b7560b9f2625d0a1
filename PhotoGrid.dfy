/**
 * Cutting the class photo sheet into portraits: the fixed grid of
 * `PDF_COLS` columns with its margins and spacings, and `crop_square`,
 * the centred square cut of an image.
 */
module PhotoGrid {

  const PdfCols := 5
  const PdfPhotoW := 236
  const PdfPhotoH := 236
  const PdfMarginLeft := 140
  const PdfMarginTop := 319
  const PdfHSpacing := 40
  const PdfVSpacing := 88

  /** A crop box `(x1, y1, x2, y2)` in pixels, right and bottom edges exclusive. */
  datatype Box = Box(x1: int, y1: int, x2: int, y2: int)

  /** The portrait with index `i` on the sheet: column `i % 5`, row `i // 5`.
      (Dafny's `/` and `%` agree with Python's for the positive divisor 5.) */
  function GridCell(i: int): (r: Box)
    ensures r.x2 - r.x1 == PdfPhotoW && r.y2 - r.y1 == PdfPhotoH
    ensures r.x1 == PdfMarginLeft + (i % PdfCols) * 276 && r.y1 == PdfMarginTop + (i / PdfCols) * 324
  {
    var row := i / PdfCols;
    var col := i % PdfCols;
    var x1 := PdfMarginLeft + col * (PdfPhotoW + PdfHSpacing);
    var y1 := PdfMarginTop + row * (PdfPhotoH + PdfVSpacing);
    Box(x1, y1, x1 + PdfPhotoW, y1 + PdfPhotoH)
  }

  /** The index a cell was cut for, read back from the cell's corner. */
  function CellIndex(b: Box): int {
    (b.y1 - PdfMarginTop) / 324 * PdfCols + (b.x1 - PdfMarginLeft) / 276
  }

  lemma CellIndexOfGridCell(i: int)
    ensures CellIndex(GridCell(i)) == i
  {
    var r := GridCell(i);
    assert (r.y1 - PdfMarginTop) / 324 == i / PdfCols;
    assert (r.x1 - PdfMarginLeft) / 276 == i % PdfCols;
  }

  predicate Disjoint(a: Box, b: Box) {
    a.x2 <= b.x1 || b.x2 <= a.x1 || a.y2 <= b.y1 || b.y2 <= a.y1
  }

  /** Two different portraits never overlap on the sheet. */
  lemma GridCellsDisjoint(i: int, j: int)
    requires i != j
    ensures Disjoint(GridCell(i), GridCell(j))
  {
    if i / PdfCols == j / PdfCols {
      assert i % PdfCols != j % PdfCols;
    }
  }

  /** `load_from_pdf_and_names`: the cell of every index `0 <= i < n`, in order. */
  method GridCrops(n: int) returns (boxes: seq<Box>)
    ensures |boxes| == if n < 0 then 0 else n
    ensures forall i :: 0 <= i < |boxes| ==> boxes[i] == GridCell(i)
  {
    boxes := [];
    var i := 0;
    while i < n
      invariant 0 <= i <= (if n < 0 then 0 else n)
      invariant |boxes| == i
      invariant forall k :: 0 <= k < i ==> boxes[k] == GridCell(k)
    {
      var r := i / PdfCols;
      var c := i % PdfCols;
      var x1 := PdfMarginLeft + c * (PdfPhotoW + PdfHSpacing);
      var y1 := PdfMarginTop + r * (PdfPhotoH + PdfVSpacing);
      boxes := boxes + [Box(x1, y1, x1 + PdfPhotoW, y1 + PdfPhotoH)];
      i := i + 1;
    }
  }

  /** `crop_square` on a `w` by `h` image. */
  function CropSquare(w: nat, h: nat): (r: Box)
    ensures r.x2 - r.x1 == r.y2 - r.y1 == if w < h then w else h
    ensures 0 <= r.x1 && r.x2 <= w && 0 <= r.y1 && r.y2 <= h
    ensures r.x1 <= w - r.x2 <= r.x1 + 1 && r.y1 <= h - r.y2 <= r.y1 + 1
    ensures r.x1 == 0 || r.y1 == 0
  {
    var side := if w < h then w else h;
    var l := (w - side) / 2;
    var t := (h - side) / 2;
    Box(l, t, l + side, t + side)
  }

  /** A grid cell is already square, so the square crop keeps all of it. */
  lemma CropSquareOfCell(i: int)
    ensures var c := GridCell(i);
            CropSquare(c.x2 - c.x1, c.y2 - c.y1) == Box(0, 0, c.x2 - c.x1, c.y2 - c.y1)
  {
  }
}
