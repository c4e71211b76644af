/**
 * The board HTTP routes of backend/routers/router_board.py: the accept/reject
 * guards of POST /api/ColorPixel and GET /api/GetPixels, the handlers that
 * delegate to the board, and the settings reply.
 */
module BoardRoutes {
  import opened Common
  import opened ColorPalettes
  import opened Board

  /** The HTTP 400 refusals, each with its own detail text. */
  datatype Rejection = InvalidPosition | InvalidColor | InvalidEndRange | InvalidStartRange | InvalidRange
  {
    function Detail(): string
    {
      match this
      case InvalidPosition => "Invalid pixel position"
      case InvalidColor => "Invalid color ID"
      case InvalidEndRange => "Invalid pixel end range"
      case InvalidStartRange => "Invalid pixel start range"
      case InvalidRange => "Invalid pixel range"
    }
  }

  /** A handler's reply: a body, a 400 refusal, or a 500 from an exception the handler does not catch. */
  datatype Reply<T> = Ok(body: T) | BadRequest(rejection: Rejection) | ServerError

  /** The checks of POST /api/ColorPixel, position first; only upper bounds are checked. */
  function WriteGuard(width: int, height: int, paletteSize: int, x: int, y: int, color: int): (r: Option<Rejection>)
    ensures r.None? <==> x < width && y < height && color < paletteSize
    ensures x >= width || y >= height ==> r == Some(InvalidPosition)
    ensures x < width && y < height && color >= paletteSize ==> r == Some(InvalidColor)
  {
    if x - width >= 0 || y - height >= 0 then Some(InvalidPosition)
    else if color >= paletteSize then Some(InvalidColor)
    else None
  }

  /** The checks of GET /api/GetPixels: end range, then start range, then an empty or inverted range. */
  function RangeGuard(width: int, height: int, x: int, y: int, xEnd: int, yEnd: int): (r: Option<Rejection>)
    ensures r.None? <==> x < xEnd < width && y < yEnd < height
    ensures xEnd >= width || yEnd >= height ==> r == Some(InvalidEndRange)
    ensures xEnd < width && yEnd < height && (x >= width || y >= height) ==> r == Some(InvalidStartRange)
    ensures xEnd < width && yEnd < height && x < width && y < height && (x >= xEnd || y >= yEnd) ==>
      r == Some(InvalidRange)
  {
    if xEnd - width >= 0 || yEnd - height >= 0 then Some(InvalidEndRange)
    else if x - width >= 0 || y - height >= 0 then Some(InvalidStartRange)
    else if x >= xEnd || y >= yEnd then Some(InvalidRange)
    else None
  }

  /** No accepted read reaches the last column or the last row of the board. */
  lemma LastColumnAndRowUnread(width: int, height: int, x: int, y: int, xEnd: int, yEnd: int, i: int, j: int)
    requires RangeGuard(width, height, x, y, xEnd, yEnd).None?
    requires x <= i < xEnd && y <= j < yEnd
    ensures i < width - 1 && j < height - 1
  {
  }

  /**
   * POST /api/ColorPixel: a refused write changes nothing; an accepted one is
   * exactly one set_pixel, and an IndexError inside it becomes a 500.
   */
  method PostColorPixel(board: PixelBoard, x: int, y: int, color: int) returns (r: Reply<()>)
    requires board.Valid()
    modifies board, board.cells
    ensures board.Valid()
    ensures WriteGuard(board.width, board.height, |board.palette.colors|, x, y, color).Some? ==>
      r == BadRequest(WriteGuard(board.width, board.height, |board.palette.colors|, x, y, color).value) &&
      board.changes == old(board.changes) && board.cells[..] == old(board.cells[..])
    ensures WriteGuard(board.width, board.height, |board.palette.colors|, x, y, color).None? ==>
      (r.Ok? <==> Indexable(y * board.width + x, board.cells.Length)) && !r.BadRequest?
    ensures r.Ok? ==> board.changes == old(board.changes) + [Pixel(x, y, GetColor(board.palette.colors, color))]
    ensures r.Ok? ==> board.cells[..] == old(board.cells[..])[PyIndex(y * board.width + x, board.cells.Length) :=
      old(board.cells[PyIndex(y * board.width + x, board.cells.Length)]).(color := GetColor(board.palette.colors, color))]
    ensures r.Ok? && 0 <= x && 0 <= y ==> board.Cell(x, y) == Pixel(x, y, GetColor(board.palette.colors, color))
    ensures r.ServerError? ==> board.changes == old(board.changes) && board.cells[..] == old(board.cells[..])
  {
    var refusal := WriteGuard(board.width, board.height, |board.palette.colors|, x, y, color);
    if refusal.Some? {
      return BadRequest(refusal.value);
    }
    var ok := board.SetPixel(x, y, color);
    r := if ok then Ok(()) else ServerError;
  }

  /** GET /api/GetPixels: a refusal, or exactly the board's get_pixel_range for the accepted rectangle. */
  method GetPixels(board: PixelBoard, x: int, y: int, xEnd: int, yEnd: int) returns (r: Reply<seq<Pixel>>)
    requires board.Valid()
    requires RangeGuard(board.width, board.height, x, y, xEnd, yEnd).None? ==> 0 <= x && 0 <= y
    ensures RangeGuard(board.width, board.height, x, y, xEnd, yEnd).Some? ==>
      r == BadRequest(RangeGuard(board.width, board.height, x, y, xEnd, yEnd).value)
    ensures RangeGuard(board.width, board.height, x, y, xEnd, yEnd).None? ==>
      r == Ok(board.RangeView(x, y, xEnd, yEnd))
  {
    var refusal := RangeGuard(board.width, board.height, x, y, xEnd, yEnd);
    if refusal.Some? {
      return BadRequest(refusal.value);
    }
    var pixels := board.GetPixelRange(x, y, xEnd, yEnd);
    return Ok(pixels);
  }

  /** The reply of GET /api/settings. */
  datatype Settings = Settings(width: int, height: int, palette: ColorPalette)

  /** GET /api/settings: the board's size and palette, which never change after construction. */
  function GetBoardSize(board: PixelBoard): (s: Settings)
    reads board
    ensures s.width == board.width && s.height == board.height && s.palette == board.palette
  {
    Settings(board.width, board.height, board.palette)
  }

  /** A write guard that also demands non-negative coordinates and colour id. */
  function CheckedWriteGuard(width: int, height: int, paletteSize: int, x: int, y: int, color: int): (r: Option<Rejection>)
    ensures r.None? <==> 0 <= x < width && 0 <= y < height && 0 <= color < paletteSize
    ensures r.None? ==> WriteGuard(width, height, paletteSize, x, y, color).None?
  {
    if x < 0 || y < 0 || x - width >= 0 || y - height >= 0 then Some(InvalidPosition)
    else if color < 0 || color >= paletteSize then Some(InvalidColor)
    else None
  }

  /**
   * The write guard lets x = -1 through; set_pixel then reaches list position
   * -1, which Python wraps to the board's last cell (width - 1, height - 1),
   * while the change log records (-1, 0).
   */
  lemma NegativeWriteWraps(width: nat, height: nat, paletteSize: nat)
    requires width > 0 && height > 0 && paletteSize > 0
    ensures WriteGuard(width, height, paletteSize, -1, 0, 0).None?
    ensures Indexable(0 * width + -1, width * height)
    ensures PyIndex(0 * width + -1, width * height) == (height - 1) * width + (width - 1)
    ensures CheckedWriteGuard(width, height, paletteSize, -1, 0, 0) == Some(InvalidPosition)
  {
    assert (height - 1) * width + (width - 1) == width * height - 1;
  }

  /** A range guard whose end bounds are exclusive, as get_pixel_range treats them. */
  function CheckedRangeGuard(width: int, height: int, x: int, y: int, xEnd: int, yEnd: int): (r: Option<Rejection>)
    ensures r.None? <==> 0 <= x < xEnd <= width && 0 <= y < yEnd <= height
  {
    if xEnd > width || yEnd > height then Some(InvalidEndRange)
    else if x < 0 || y < 0 || x >= width || y >= height then Some(InvalidStartRange)
    else if x >= xEnd || y >= yEnd then Some(InvalidRange)
    else None
  }

  /**
   * Reading the whole board, (0, 0, width, height), is refused as written and
   * accepted by the corrected guard, whose read then has width * height
   * pixels and contains every cell.
   */
  lemma WholeBoardRead(board: PixelBoard)
    requires board.Valid() && board.width > 0 && board.height > 0
    ensures RangeGuard(board.width, board.height, 0, 0, board.width, board.height) == Some(InvalidEndRange)
    ensures CheckedRangeGuard(board.width, board.height, 0, 0, board.width, board.height).None?
    ensures |board.RangeView(0, 0, board.width, board.height)| == board.cells.Length
    ensures forall i, j :: 0 <= i < board.width && 0 <= j < board.height ==>
              board.Cell(i, j) in board.RangeView(0, 0, board.width, board.height)
  {
    board.RangeViewLength(0, 0, board.width, board.height);
    board.WholeRangeView();
  }
}
