/**
 * The in-memory pixel board of backend/internal/board.py: a row-major array of
 * pixels over one palette, plus the log of changes waiting to be broadcast.
 */
module Board {
  import opened Common
  import opened Numerals
  import opened ColorPalettes

  /** A cell of the board, or a change record: coordinates and the resolved colour. */
  datatype Pixel = Pixel(x: int, y: int, color: Color)

  /** A row of the persisted pixel table: coordinates and the colour as raw bytes. */
  datatype StoredPixel = StoredPixel(x: int, y: int, color: seq<byte>)

  /** Cells in row-major order: index i holds column i % width of row i / width. */
  ghost predicate RowMajor(cells: seq<Pixel>, width: nat, height: nat)
  {
    |cells| == width * height &&
    forall i :: 0 <= i < |cells| ==>
      0 <= cells[i].x < width && 0 <= cells[i].y && cells[i].y * width + cells[i].x == i
  }

  lemma IndexInRange(x: int, y: int, width: nat, height: nat)
    requires 0 <= x < width && 0 <= y < height
    ensures 0 <= y * width + x < width * height
  {
    assert y * width + x < (y + 1) * width;
    assert (y + 1) * width <= height * width;
  }

  /** In a row-major board, cell (x, y) sits at index y * width + x. */
  lemma RowMajorAt(cells: seq<Pixel>, width: nat, height: nat, x: int, y: int)
    requires RowMajor(cells, width, height) && 0 <= x < width && 0 <= y < height
    ensures 0 <= y * width + x < |cells|
    ensures cells[y * width + x].x == x && cells[y * width + x].y == y
  {
    IndexInRange(x, y, width, height);
    var i := y * width + x;
    var c := cells[i];
    DivUnique(i, width, c.y, c.x);
    DivUnique(i, width, y, x);
  }

  /** Two row-major boards with the same colours everywhere are equal. */
  lemma RowMajorUnique(a: seq<Pixel>, b: seq<Pixel>, width: nat, height: nat)
    requires RowMajor(a, width, height) && RowMajor(b, width, height)
    requires forall i :: 0 <= i < |a| ==> a[i].color == b[i].color
    ensures a == b
  {
    forall i | 0 <= i < |a| ensures a[i] == b[i] {
      DivUnique(i, width, a[i].y, a[i].x);
      DivUnique(i, width, b[i].y, b[i].x);
    }
  }

  /**
   * `create_board_batched`: width * height pixels of one colour, built batch by
   * batch. The result is fixed by its contract, so it does not depend on batchSize.
   */
  method CreateBoardBatched(width: nat, height: nat, color: Color, batchSize: nat) returns (board: seq<Pixel>)
    requires batchSize > 0
    ensures RowMajor(board, width, height)
    ensures forall i :: 0 <= i < |board| ==> board[i].color == color
  {
    var total := width * height;
    assert total > 0 ==> width > 0;
    board := [];
    var start := 0;
    while start < total
      invariant 0 <= start
      invariant |board| == if start < total then start else total
      invariant forall i :: 0 <= i < |board| ==>
        0 <= board[i].x < width && 0 <= board[i].y && board[i].y * width + board[i].x == i && board[i].color == color
    {
      var end := if start + batchSize < total then start + batchSize else total;
      var batch := seq(end - start, k requires 0 <= k < end - start =>
        Pixel((start + k) % width, (start + k) / width, color));
      board := board + batch;
      start := start + batchSize;
    }
  }

  /** Python's `xs[i]` on a list of length n succeeds: a negative i counts from the end. */
  predicate Indexable(i: int, n: int)
  {
    -n <= i < n
  }

  /** The position Python's `xs[i]` reaches on a list of length n. */
  function PyIndex(i: int, n: int): (k: int)
    requires Indexable(i, n)
    ensures 0 <= k < n && (k == i || k == i + n)
  {
    if i < 0 then i + n else i
  }

  /** `get_color`: the palette colour at `id`, or colour 0 when the lookup raises IndexError. */
  function GetColor(colors: seq<Color>, id: int): (c: Color)
    requires |colors| > 0
    ensures c in colors
    ensures 0 <= id < |colors| ==> c == colors[id]
    ensures -|colors| <= id < 0 ==> c == colors[|colors| + id]
    ensures !Indexable(id, |colors|) ==> c == colors[0]
  {
    if Indexable(id, |colors|) then colors[PyIndex(id, |colors|)] else colors[0]
  }

  function Hexes(colors: seq<Color>): (hs: seq<int>)
    ensures |hs| == |colors| && forall i :: 0 <= i < |colors| ==> hs[i] == colors[i].hex
  {
    seq(|colors|, i requires 0 <= i < |colors| => colors[i].hex)
  }

  /** The palette index `get_color_id` finds for a hex value. */
  function ColorIdOf(colors: seq<Color>, hex: int): (id: nat)
    requires |colors| > 0
    ensures id < |colors|
  {
    FirstIndexOf(Hexes(colors), hex).GetOr(0)
  }

  /** `get_color_id`: the first palette index whose colour has this hex value, else 0. */
  method GetColorId(colors: seq<Color>, colorHex: int) returns (id: nat)
    ensures (exists i :: 0 <= i < |colors| && colors[i].hex == colorHex) ==>
      id < |colors| && colors[id].hex == colorHex && forall j :: 0 <= j < id ==> colors[j].hex != colorHex
    ensures (forall i :: 0 <= i < |colors| ==> colors[i].hex != colorHex) ==> id == 0
    ensures |colors| > 0 ==> id == ColorIdOf(colors, colorHex)
  {
    var i := 0;
    while i < |colors|
      invariant 0 <= i <= |colors|
      invariant forall j :: 0 <= j < i ==> colors[j].hex != colorHex
    {
      if colors[i].hex == colorHex {
        assert Hexes(colors)[i] == colorHex;
        return i;
      }
      i := i + 1;
    }
    assert colorHex !in Hexes(colors);
    return 0;
  }

  /** The list position `_board[y * width + x]` reaches for a stored row. */
  function RowTarget(row: StoredPixel, width: nat, size: nat): int
    requires Indexable(row.y * width + row.x, size)
  {
    PyIndex(row.y * width + row.x, size)
  }

  /** Every stored row can be written without IndexError. */
  predicate RowsIndexable(rows: seq<StoredPixel>, width: nat, size: nat)
  {
    forall k :: 0 <= k < |rows| ==> Indexable(rows[k].y * width + rows[k].x, size)
  }

  /**
   * The colour hydration leaves at list position i: that of the last stored row
   * whose index reaches i, else colour 0.
   */
  function HydratedColor(colors: seq<Color>, rows: seq<StoredPixel>, width: nat, size: nat, i: int): (c: Color)
    requires |colors| > 0 && RowsIndexable(rows, width, size)
    ensures c in colors
    decreases |rows|
  {
    if rows == [] then colors[0]
    else
      var last := rows[|rows| - 1];
      if RowTarget(last, width, size) == i then colors[ColorIdOf(colors, FromBytesBE(last.color))]
      else HydratedColor(colors, rows[..|rows| - 1], width, size, i)
  }

  /** A cell that no stored row reaches keeps colour 0. */
  lemma {:induction false} HydratedColorUnstored(colors: seq<Color>, rows: seq<StoredPixel>, width: nat, size: nat, i: int)
    requires |colors| > 0 && RowsIndexable(rows, width, size)
    requires forall k :: 0 <= k < |rows| ==> RowTarget(rows[k], width, size) != i
    ensures HydratedColor(colors, rows, width, size, i) == colors[0]
    decreases |rows|
  {
    if rows != [] {
      HydratedColorUnstored(colors, rows[..|rows| - 1], width, size, i);
    }
  }

  /** The last row that reaches a cell decides its colour: later rows win. */
  lemma {:induction false} HydratedColorLast(colors: seq<Color>, rows: seq<StoredPixel>, width: nat, size: nat, k: int)
    requires |colors| > 0 && RowsIndexable(rows, width, size) && 0 <= k < |rows|
    requires forall l :: k < l < |rows| ==> RowTarget(rows[l], width, size) != RowTarget(rows[k], width, size)
    ensures HydratedColor(colors, rows, width, size, RowTarget(rows[k], width, size))
      == colors[ColorIdOf(colors, FromBytesBE(rows[k].color))]
    decreases |rows|
  {
    if k < |rows| - 1 {
      var prefix := rows[..|rows| - 1];
      assert prefix[k] == rows[k];
      HydratedColorLast(colors, prefix, width, size, k);
    }
  }

  class PixelBoard {
    const width: nat
    const height: nat
    const palette: ColorPalette
    const cells: array<Pixel>
    /** `_board_changes`: one record per successful set_pixel since the last clear, in call order. */
    var changes: seq<Pixel>

    ghost predicate Valid()
      reads this, cells
    {
      |palette.colors| > 0 &&
      RowMajor(cells[..], width, height) &&
      (forall i :: 0 <= i < cells.Length ==> cells[i].color in palette.colors) &&
      (forall k :: 0 <= k < |changes| ==> changes[k].color in palette.colors)
    }

    /** The array index of cell (x, y). */
    function Index(x: int, y: int): (i: nat)
      reads this, cells
      requires Valid() && 0 <= x < width && 0 <= y < height
      ensures i < cells.Length && i == y * width + x
      ensures cells[i].x == x && cells[i].y == y
    {
      RowMajorAt(cells[..], width, height, x, y);
      y * width + x
    }

    function Cell(x: int, y: int): Pixel
      reads this, cells
      requires Valid() && 0 <= x < width && 0 <= y < height
    {
      cells[Index(x, y)]
    }

    /**
     * Builds a board of colour 0 and, unless volatile, replays the stored rows
     * into it through get_color_id; the change log starts empty. A row whose
     * index is off the list raises IndexError, which the constructor does not catch.
     */
    constructor (width: nat, height: nat, palette: ColorPalette, volatile: bool, stored: seq<StoredPixel>)
      requires |palette.colors| > 0
      requires !volatile ==> RowsIndexable(stored, width, width * height)
      ensures Valid() && fresh(cells)
      ensures this.width == width && this.height == height && this.palette == palette
      ensures changes == []
      ensures forall i :: 0 <= i < cells.Length ==>
        cells[i].color == (if volatile then palette.colors[0] else HydratedColor(palette.colors, stored, width, width * height, i))
    {
      var colors := palette.colors;
      var initial := CreateBoardBatched(width, height, colors[0], 125000);
      var a := new Pixel[|initial|](i requires 0 <= i < |initial| => initial[i]);
      assert a[..] == initial;
      if !volatile {
        var k := 0;
        while k < |stored|
          invariant 0 <= k <= |stored|
          invariant RowMajor(a[..], width, height)
          invariant forall i :: 0 <= i < a.Length ==>
            a[i].color == HydratedColor(colors, stored[..k], width, a.Length, i)
        {
          var row := stored[k];
          var colorId := GetColorId(colors, FromBytesBE(row.color));
          var i := PyIndex(row.y * width + row.x, a.Length);
          a[i] := a[i].(color := colors[colorId]);
          assert stored[..k + 1][..k] == stored[..k];
          k := k + 1;
        }
        assert stored[..k] == stored;
      }
      this.width := width;
      this.height := height;
      this.palette := palette;
      cells := a;
      changes := [];
    }

    /**
     * `set_pixel`: recolours the cell at list position y * width + x with
     * get_color(colorId) and logs the change. `ok` is false when that position
     * raises IndexError; then nothing changes.
     */
    method SetPixel(x: int, y: int, colorId: int) returns (ok: bool)
      requires Valid()
      modifies this, cells
      ensures Valid()
      ensures ok <==> Indexable(y * width + x, cells.Length)
      ensures ok ==> cells[..] == old(cells[..])[PyIndex(y * width + x, cells.Length) :=
        old(cells[PyIndex(y * width + x, cells.Length)]).(color := GetColor(palette.colors, colorId))]
      ensures ok ==> changes == old(changes) + [Pixel(x, y, GetColor(palette.colors, colorId))]
      ensures !ok ==> cells[..] == old(cells[..]) && changes == old(changes)
      ensures 0 <= x < width && 0 <= y < height ==> ok && Cell(x, y) == Pixel(x, y, GetColor(palette.colors, colorId))
    {
      var i := y * width + x;
      if 0 <= x < width && 0 <= y < height {
        RowMajorAt(cells[..], width, height, x, y);
      }
      if !Indexable(i, cells.Length) {
        return false;
      }
      var k := PyIndex(i, cells.Length);
      var color := GetColor(palette.colors, colorId);
      cells[k] := cells[k].(color := color);
      changes := changes + [Pixel(x, y, color)];
      return true;
    }

    /** `clear_changes`: rebinds the log to a fresh empty list; the cells are untouched. */
    method ClearChanges()
      requires Valid()
      modifies this
      ensures Valid() && changes == []
    {
      changes := [];
    }

    /** Column i of the range, rows y up to yEnd, bottom of the recursion first. */
    ghost function Column(i: int, y: int, yEnd: int): seq<Pixel>
      reads this, cells
      requires Valid()
      requires y < yEnd ==> 0 <= i < width && 0 <= y && yEnd <= height
      decreases yEnd - y
    {
      if y >= yEnd then [] else Column(i, y, yEnd - 1) + [Cell(i, yEnd - 1)]
    }

    /** The pixels get_pixel_range returns: columns x up to xEnd, each read from y up to yEnd. */
    ghost function RangeView(x: int, y: int, xEnd: int, yEnd: int): seq<Pixel>
      reads this, cells
      requires Valid()
      requires x < xEnd && y < yEnd ==> 0 <= x && xEnd <= width && 0 <= y && yEnd <= height
      decreases xEnd - x
    {
      if x >= xEnd then [] else RangeView(x, y, xEnd - 1, yEnd) + Column(xEnd - 1, y, yEnd)
    }

    /** `get_pixel_range`: reads the rectangle column by column (x-major); changes nothing. */
    method GetPixelRange(x: int, y: int, xEnd: int, yEnd: int) returns (pixels: seq<Pixel>)
      requires Valid()
      requires x < xEnd && y < yEnd ==> 0 <= x && xEnd <= width && 0 <= y && yEnd <= height
      ensures pixels == RangeView(x, y, xEnd, yEnd)
    {
      pixels := [];
      var i := x;
      while i < xEnd
        invariant x <= i && (x < xEnd ==> i <= xEnd) && (xEnd <= x ==> i == x)
        invariant pixels == RangeView(x, y, i, yEnd)
      {
        pixels := AppendColumn(pixels, i, y, yEnd);
        i := i + 1;
      }
    }

    /** The inner loop of get_pixel_range: appends column i, rows y up to yEnd. */
    method AppendColumn(pixels: seq<Pixel>, i: int, y: int, yEnd: int) returns (out: seq<Pixel>)
      requires Valid()
      requires y < yEnd ==> 0 <= i < width && 0 <= y && yEnd <= height
      ensures out == pixels + Column(i, y, yEnd)
    {
      out := pixels;
      var j := y;
      while j < yEnd
        invariant y <= j && (y < yEnd ==> j <= yEnd) && (yEnd <= y ==> j == y)
        invariant out == pixels + Column(i, y, j)
      {
        out := out + [Cell(i, j)];
        j := j + 1;
      }
    }

    /** The range read has Span(x, xEnd) * Span(y, yEnd) pixels. */
    lemma {:induction false} RangeViewLength(x: int, y: int, xEnd: int, yEnd: int)
      requires Valid()
      requires x < xEnd && y < yEnd ==> 0 <= x && xEnd <= width && 0 <= y && yEnd <= height
      ensures |RangeView(x, y, xEnd, yEnd)| == Span(x, xEnd) * Span(y, yEnd)
      decreases xEnd - x
    {
      if x < xEnd {
        var m := Span(y, yEnd);
        RangeViewLength(x, y, xEnd - 1, yEnd);
        ColumnLength(xEnd - 1, y, yEnd);
        assert (xEnd - x) * m == (xEnd - 1 - x) * m + m;
      }
    }

    /** Cell (i, j) of the rectangle is read at position (i - x) * (yEnd - y) + (j - y). */
    lemma {:induction false} RangeViewCell(x: int, y: int, xEnd: int, yEnd: int, i: int, j: int)
      requires Valid()
      requires 0 <= x && xEnd <= width && 0 <= y && yEnd <= height
      requires x <= i < xEnd && y <= j < yEnd
      ensures 0 <= (i - x) * (yEnd - y) + (j - y) < |RangeView(x, y, xEnd, yEnd)|
      ensures RangeView(x, y, xEnd, yEnd)[(i - x) * (yEnd - y) + (j - y)] == Cell(i, j)
      decreases xEnd - x
    {
      var k := (i - x) * (yEnd - y) + (j - y);
      if i < xEnd - 1 {
        assert 0 <= k < |RangeView(x, y, xEnd - 1, yEnd)| && RangeView(x, y, xEnd - 1, yEnd)[k] == Cell(i, j) by {
          RangeViewCell(x, y, xEnd - 1, yEnd, i, j);
        }
        RangeViewKeepsPrefix(x, y, xEnd, yEnd, k);
      } else {
        RangeViewLastColumn(x, y, xEnd, yEnd, j);
      }
    }

    /** Reading the rectangle (0, 0, width, height) returns every cell of the board. */
    lemma WholeRangeView()
      requires Valid()
      ensures forall i, j :: 0 <= i < width && 0 <= j < height ==> Cell(i, j) in RangeView(0, 0, width, height)
    {
      forall i, j | 0 <= i < width && 0 <= j < height
        ensures Cell(i, j) in RangeView(0, 0, width, height)
      {
        RangeViewCell(0, 0, width, height, i, j);
      }
    }

    /** Reading one more column leaves the positions already read as they were. */
    lemma RangeViewKeepsPrefix(x: int, y: int, xEnd: int, yEnd: int, k: int)
      requires Valid()
      requires 0 <= x < xEnd <= width && 0 <= y < yEnd <= height
      requires 0 <= k < |RangeView(x, y, xEnd - 1, yEnd)|
      ensures k < |RangeView(x, y, xEnd, yEnd)| && RangeView(x, y, xEnd, yEnd)[k] == RangeView(x, y, xEnd - 1, yEnd)[k]
    {
      assert RangeView(x, y, xEnd, yEnd) == RangeView(x, y, xEnd - 1, yEnd) + Column(xEnd - 1, y, yEnd);
    }

    /** The last column read comes after all the earlier ones, cell by cell. */
    lemma RangeViewLastColumn(x: int, y: int, xEnd: int, yEnd: int, j: int)
      requires Valid()
      requires 0 <= x < xEnd <= width && 0 <= y <= j < yEnd <= height
      ensures 0 <= (xEnd - 1 - x) * (yEnd - y) + (j - y) < |RangeView(x, y, xEnd, yEnd)|
      ensures RangeView(x, y, xEnd, yEnd)[(xEnd - 1 - x) * (yEnd - y) + (j - y)] == Cell(xEnd - 1, j)
    {
      var prev := RangeView(x, y, xEnd - 1, yEnd);
      var col := Column(xEnd - 1, y, yEnd);
      var k := (xEnd - 1 - x) * (yEnd - y);
      assert |prev| == k by {
        RangeViewLength(x, y, xEnd - 1, yEnd);
        assert Span(x, xEnd - 1) == xEnd - 1 - x && Span(y, yEnd) == yEnd - y;
      }
      assert j - y < |col| && col[j - y] == Cell(xEnd - 1, j) by {
        ColumnCell(xEnd - 1, y, yEnd, j);
      }
      assert RangeView(x, y, xEnd, yEnd) == prev + col;
      assert (prev + col)[k + (j - y)] == col[j - y];
    }

    lemma {:induction false} ColumnLength(i: int, y: int, yEnd: int)
      requires Valid()
      requires y < yEnd ==> 0 <= i < width && 0 <= y && yEnd <= height
      ensures |Column(i, y, yEnd)| == Span(y, yEnd)
      decreases yEnd - y
    {
      if y < yEnd {
        ColumnLength(i, y, yEnd - 1);
      }
    }

    lemma {:induction false} ColumnCell(i: int, y: int, yEnd: int, j: int)
      requires Valid()
      requires 0 <= i < width && 0 <= y && yEnd <= height && y <= j < yEnd
      ensures j - y < |Column(i, y, yEnd)| && Column(i, y, yEnd)[j - y] == Cell(i, j)
      decreases yEnd - y
    {
      ColumnLength(i, y, yEnd - 1);
      if j < yEnd - 1 {
        ColumnCell(i, y, yEnd - 1, j);
      }
    }
  }

  function Span(lo: int, hi: int): nat
  {
    if lo < hi then hi - lo else 0
  }
}
