/**
 * The earlier board of backend/board.py: one list of black pixels, built in a
 * single comprehension; the palette argument is not used.
 */
module LegacyBoard {
  import opened Numerals

  datatype RGB = RGB(r: int, g: int, b: int)
  datatype LegacyPixel = LegacyPixel(x: int, y: int, color: RGB)

  const Black := RGB(0, 0, 0)

  /** `[Pixel(i % width, i // height, (0, 0, 0)) for i in range(width * height)]`, as written. */
  function LegacyCells(width: nat, height: nat): (cells: seq<LegacyPixel>)
    ensures |cells| == width * height
    ensures forall i :: 0 <= i < |cells| ==>
      (width > 0 && height > 0 && cells[i] == LegacyPixel(i % width, i / height, Black))
  {
    assert width * height > 0 ==> width > 0 && height > 0;
    seq(width * height, i requires 0 <= i < width * height =>
      LegacyPixel(i % width, i / height, Black))
  }

  /** Whether pixel i carries its row-major coordinates: column i % width, row i / width. */
  predicate RowMajorCell(p: LegacyPixel, i: int, width: nat)
  {
    width > 0 && p.x == i % width && p.y == i / width
  }

  /**
   * The legacy rows agree with row-major order exactly on square boards: on a
   * non-square one the last pixel is given row width - 1 instead of height - 1.
   */
  lemma LegacyRowsSquareOnly(width: nat, height: nat)
    requires width > 0 && height > 0
    ensures (forall i :: 0 <= i < width * height ==> RowMajorCell(LegacyCells(width, height)[i], i, width))
      <==> width == height
  {
    var cells := LegacyCells(width, height);
    if width != height {
      var last := width * height - 1;
      assert last == (height - 1) * width + (width - 1);
      assert last == (width - 1) * height + (height - 1);
      DivUnique(last, width, height - 1, width - 1);
      DivUnique(last, height, width - 1, height - 1);
      assert !RowMajorCell(cells[last], last, width);
    }
  }
}
