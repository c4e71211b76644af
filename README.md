# Pixel board: a verified model

This project models the core of a shared pixel-board service and states its
properties in Dafny:

- **The board.** A FastAPI backend keeps the board in memory. The board is a
  flat row-major list of pixels over one colour palette, plus a log of the
  changes made since the last broadcast.
- **The broadcast.** A periodic task drains that log and puts the drained
  changes, as one JSON message, on the queue of every open event stream.
- **The routes.** The HTTP routes guard single-pixel writes and rectangle
  reads before delegating to the board.
- **The configuration.** It is read from INI files through one reused
  `configparser` object. Colour palettes come from the files in glob order,
  and one palette is selected by a clamped id.
- **Persistence.** A MySQL gateway stores pixels as three colour bytes.
  It records quick snapshots and evicts the oldest one past a limit.
- **The browser client.** It keeps a sparse map from `"x,y"` keys to palette
  indices. It paints locally on a click and applies the streamed changes.
- **Legacy versions.** The earlier configuration loader and the earlier board
  initialiser are modelled beside the current ones.

Modules follow the source files:

| file | module |
|---|---|
| `common.dfy` | `Common`: Option, Result, first-index search |
| `numerals.dfy` | `Numerals`: the integer ↔ text conversions the source takes from Python and JavaScript (`format`, `hex`, `str`, `int`, `zfill`, `bytes.fromhex`, `int.from_bytes`, `toString(16)`) |
| `color_palettes.dfy` | `ColorPalettes` (backend/internal/color_palettes.py) |
| `board.dfy` | `Board` (backend/internal/board.py), with `class PixelBoard` over an `array<Pixel>` and a `seq` change log |
| `router_board.dfy` | `BoardRoutes` (backend/routers/router_board.py) |
| `router_broadcast.dfy` | `Broadcast` (backend/routers/router_broadcast.py), with `class Hub` for the subscriber set and its queues |
| `ini_model.dfy` | `Ini`: the state of a `ConfigParser` and what one `read` does to it |
| `config.dfy` | `PaletteConfig` (backend/internal/config.py) |
| `legacy_config.dfy` | `LegacyConfig` (backend/config.py) |
| `legacy_board.dfy` | `LegacyBoard` (backend/board.py) |
| `db_manager.dfy` | `Persistence` (backend/internal/db_manager.py), with `class DBManager` over a map and a statement trace |
| `project.dfy` | `Client` (frontend/project.js), with `class PageState` for the script's globals |

The other inputs are modelled as follows:
- Files on disk, database rows, HTTP replies and the outcome of a connection
  attempt are parameters.
- A request that is sent is a result.
- The volatile-mode flag is a parameter of the board constructor, because the
  configuration object has no such flag.
- The routes read the board's own width and height. The source reads them from
  the configuration, which holds the values the board was built from.

Several places follow the code rather than its description:
- `get_pixel_range` reads x-major: columns outside, rows inside.
- Subscriber queues are unbounded, and nothing is dropped.
- `get_color` wraps a negative id as Python lists do. Only ids outside
  `-len..len-1` fall back to colour 0.
- `set_pixel` writes wherever Python's indexing of `y * width + x` reaches.
  An `IndexError` there becomes a 500 reply in the route.
- Toggling one swatch twice restores the selection only when the selection was
  empty or was that swatch already. From another colour, two toggles leave no
  colour selected (`Client.ToggleTwice`).

## Model

| member | source | states |
|---|---|---|
| `Common.FirstIndexOf` | frontend/project.js:175-177 | `indexOf`: the index found holds the value and no earlier element does; None exactly when the value is absent |
| `Numerals.DecimalRoundTrip` | frontend/project.js:460-462 | the decimal text of an integer has no comma and unary `+` reads it back to the same integer |
| `Numerals.ParseHexInt` | backend/internal/config.py:73 | the definition of `int(s, base=16)`: an optional sign, an optional `0x`, then hex digits of either case, None for anything else; `Numerals.HexRoundTrip` proves it reads printed hex back |
| `Numerals.HexRoundTrip` | backend/internal/config.py:73 | `int(s, base=16)` reads a hex digit string, bare or with `0x`, back to its value |
| `Numerals.PadLeftValue` | backend/internal/color_palettes.py:9 | left-padding with zeros keeps the digits' value and gives the padded length |
| `Numerals.HexPairsValue` | backend/internal/board.py:30 | `bytes.fromhex` then `int.from_bytes(..., 'big')` gives the value of the hex string |
| `ColorPalettes.HexFieldSix` | backend/internal/color_palettes.py:9 | for 0..0xFFFFFF the hex field of `__str__` is exactly six upper-case digits whose value is the colour |
| `ColorPalettes.HexFieldWide` | backend/internal/color_palettes.py:9 | above 0xFFFFFF the field is all the digits, longer than six |
| `ColorPalettes.HexFieldNegative` | backend/internal/color_palettes.py:9 | a negative colour keeps its sign in front and pads the digits to five |
| `ColorPalettes.ColorString` | backend/internal/color_palettes.py:8-9 | the definition of `Color.__str__`; its hex field is described by `ColorPalettes.HexFieldSix`, `HexFieldWide` and `HexFieldNegative`, and `ColorPalettes.ColorStringRoundTrip` proves it determines the colour |
| `ColorPalettes.ColorStringRoundTrip` | backend/internal/color_palettes.py:4-9 | `str(Color(h, i))` determines the colour: reading it back gives the same `(hex, color_id)` |
| `Board.RowMajorAt` | backend/internal/board.py:97-100 | in a row-major board, index `y * width + x` holds the pixel with coordinates (x, y) |
| `Board.RowMajorUnique` | backend/internal/board.py:89-104 | two row-major boards with equal colours are equal, so the built board does not depend on the batch size |
| `Board.CreateBoardBatched` | backend/internal/board.py:89-104 | the batched loop yields `width * height` pixels, each at `y * width + x` with coordinates (x, y), all of the given colour |
| `Board.PyIndex` | backend/internal/board.py:78-80 | Python's list position for an index in `-n..n-1`; a negative one counts from the end |
| `Board.GetColor` | backend/internal/board.py:63-68 | `colors[id]` in range, Python's wrap for a negative id, colour 0 when the lookup raises |
| `Board.ColorIdOf` | backend/internal/board.py:70-75 | the first-match palette index for a hex value is a palette index |
| `Board.GetColorId` | backend/internal/board.py:70-75 | the loop returns the smallest index with the hex value, or 0 when none matches |
| `Board.HydratedColor` | backend/internal/board.py:26-32 | the colour hydration leaves at a list position is a palette colour |
| `Board.HydratedColorUnstored` | backend/internal/board.py:24-32 | a cell no stored row reaches keeps colour 0 |
| `Board.HydratedColorLast` | backend/internal/board.py:26-32 | the last stored row that reaches a cell decides its colour, through `get_color_id` of its decoded bytes |
| `Board.PixelBoard.Index` | backend/internal/board.py:78 | for (x, y) on the board, `y * width + x` is in the array and holds the pixel (x, y) |
| `Board.PixelBoard.constructor` | backend/internal/board.py:17-36 | the board is row-major; every cell is colour 0 when volatile, else its hydrated colour; the change log starts empty; width, height and palette are fixed |
| `Board.PixelBoard.SetPixel` | backend/internal/board.py:77-81 | succeeds exactly when Python can index `y * width + x`; then it changes that one cell to `get_color(id)` and appends one change record; otherwise it changes nothing; an on-board (x, y) always succeeds and sets cell (x, y) |
| `Board.PixelBoard.ClearChanges` | backend/internal/board.py:86-87 | the log is empty afterwards and the cells are untouched |
| `Board.PixelBoard.GetPixelRange` | backend/internal/board.py:51-61 | the nested loops return exactly the x-major range view, changing nothing |
| `Board.PixelBoard.AppendColumn` | backend/internal/board.py:55-59 | the inner loop appends column i, rows y up to y_end |
| `Board.PixelBoard.RangeViewLength` | backend/internal/board.py:52-61 | a range read has `max(0, x_end - x) * max(0, y_end - y)` pixels |
| `Board.PixelBoard.RangeViewCell` | backend/internal/board.py:54-59 | position `(i - x) * (y_end - y) + (j - y)` of a range read is cell (i, j): x-major order |
| `Board.PixelBoard.WholeRangeView` | backend/internal/board.py:52-61 | a read of the rectangle (0, 0, width, height) contains every cell of the board |
| `Board.PixelBoard.ColumnLength` | backend/internal/board.py:55-59 | one column of a read has `max(0, y_end - y)` pixels |
| `Board.PixelBoard.ColumnCell` | backend/internal/board.py:55-59 | position `j - y` of column i is cell (i, j) |
| `BoardRoutes.WriteGuard` | backend/routers/router_board.py:25-29 | a write is accepted exactly when `x < width`, `y < height` and `color < len(colors)`; the position check comes first |
| `BoardRoutes.RangeGuard` | backend/routers/router_board.py:38-45 | a read is accepted exactly when `x < x_end < width` and `y < y_end < height`; end range, then start range, then empty range |
| `BoardRoutes.LastColumnAndRowUnread` | backend/routers/router_board.py:38-47 | no accepted read covers the last column or the last row |
| `BoardRoutes.PostColorPixel` | backend/routers/router_board.py:23-33 | a refused write gives its 400 and changes nothing; an accepted one is one `set_pixel` that recolours exactly the cell its (Python-wrapped) index reaches and no other, a 500 when that raises |
| `BoardRoutes.GetPixels` | backend/routers/router_board.py:35-51 | a refused read gives its 400; an accepted one returns `get_pixel_range` unchanged |
| `BoardRoutes.GetBoardSize` | backend/routers/router_board.py:13-21 | the settings are the board's width, height and palette |
| `BoardRoutes.CheckedWriteGuard` | backend/routers/router_board.py:25-29 | the corrected guard accepts exactly in-range coordinates and colour ids, and only what the original accepts |
| `BoardRoutes.NegativeWriteWraps` | backend/routers/router_board.py:25-33 | x = -1 passes the guard and the write lands on the last cell of the board |
| `BoardRoutes.CheckedRangeGuard` | backend/routers/router_board.py:38-45 | the corrected guard accepts exactly `0 <= x < x_end <= width` and `0 <= y < y_end <= height` |
| `BoardRoutes.WholeBoardRead` | backend/routers/router_board.py:38-39 | the whole board is refused as written, accepted by the corrected guard, and then returns `width*height` pixels among which every cell appears |
| `Broadcast.EncodePixel` | backend/routers/router_broadcast.py:78 | the definition of the JSON object `json.dumps` writes for one pixel through the dataclass encoder; `Broadcast.EncodeChanges` proves the list it builds from them is one array |
| `Broadcast.EncodeChanges` | backend/routers/router_broadcast.py:78 | the drained list is one JSON array, and it is `[]` exactly when there are no changes |
| `Broadcast.Hub.constructor` | backend/routers/router_broadcast.py:26 | the subscriber set starts empty |
| `Broadcast.Hub.Subscribe` | backend/routers/router_broadcast.py:38-42 | a new empty queue is added to the set |
| `Broadcast.Hub.Discard` | backend/routers/router_broadcast.py:65-68 | the queue leaves the set; discarding an absent queue changes nothing |
| `Broadcast.Hub.BroadcastToAll` | backend/routers/router_broadcast.py:28-31 | the message goes once onto every registered queue and onto no other |
| `Broadcast.Hub.StreamNext` | backend/routers/router_broadcast.py:51-58 | a stream takes its oldest message (FIFO) and emits an update only for non-empty data |
| `Broadcast.NewMessages` | backend/routers/router_broadcast.py:74-79 | an empty log gives `(False, "")` and is left alone; otherwise the log is cleared and the serialisation of exactly the drained changes is returned |
| `Broadcast.CadenceStep` | backend/routers/router_broadcast.py:84-86 | every change logged since the last drain lands in one message for each subscriber; an empty drain sends nothing |
| `Broadcast.BroadcastIsEmitted` | backend/routers/router_broadcast.py:52 | a broadcast message is never empty, so every stream emits it |
| `Ini.Keys` | backend/internal/config.py:73 | the definition of the key list of a section, one key per entry; `Ini.KeysAt` proves each position holds its entry's key |
| `Ini.KeysAt` | backend/internal/config.py:73 | position i of the key list is the key of entry i, so `enumerate(config["PALETTE"])` pairs each key with its position |
| `Ini.Lookup` | backend/internal/config.py:15 | `section[key]` is found exactly when the key is present |
| `Ini.SetEntryKeys` | backend/internal/config.py:66 | setting an option keeps the key order; a new key goes last, an existing one stays in place |
| `Ini.SetEntryLookup` | backend/internal/config.py:66 | after setting an option its key reads the new value and every other key reads as before |
| `Ini.SetEntriesKeepsKeys` | backend/internal/config.py:66 | setting options never removes or reorders a key |
| `Ini.Names` | backend/internal/config.py:67 | the section names of the parser, in order |
| `Ini.ReadSectionKeeps` | backend/internal/config.py:66-67 | reading a section keeps every section and key and makes the read section present |
| `Ini.Read` | backend/internal/config.py:66 | the definition of `ConfigParser.read`: an unreadable file leaves the parser as it was, a readable one merges its sections; `Ini.ReadSectionsKeeps` and `Ini.ReadAccumulates` prove what the merge keeps |
| `Ini.ReadSectionsKeeps` | backend/internal/config.py:66-67 | reading a file keeps every section and key and adds the sections it holds |
| `Ini.ReadAccumulates` | backend/internal/config.py:57-67 | one parser read file after file accumulates sections and keys; an unreadable file is skipped |
| `Ini.ParseValuesSpec` | backend/internal/config.py:73 | reading each value of a section in key order succeeds exactly when every value parses, keeps each parsed value at its key's position, and otherwise fails on the first value that does not parse |
| `PaletteConfig.PaletteColorsParsed` | backend/internal/config.py:73 | one colour per key, in key order, the hex parsed base 16 and `color_id` the key's position; succeeds exactly when every value is hex, else raises on the first value that is not |
| `PaletteConfig.LoadSpecFailureSticks` | backend/internal/config.py:63-82 | an uncaught error on one file ends the whole load |
| `PaletteConfig.LoadSpec` | backend/internal/config.py:54-84 | the definition of the palette load, file by file; `PaletteConfig.LoadColorPalettes` is proved to compute it, and `LoadSpecFailureSticks`, `PaletteIdsConsecutive`, `PalettesWellFormed` and `AfterPaletteEveryFileCounts` prove its properties |
| `PaletteConfig.LoadColorPalettes` | backend/internal/config.py:54-84 | the loop with its up-and-down id counter computes exactly the specified load, including its errors |
| `PaletteConfig.PaletteIdsConsecutive` | backend/internal/config.py:62-69 | palettes are numbered 0, 1, 2, ... with no gap for skipped files |
| `PaletteConfig.PalettesWellFormed` | backend/internal/config.py:73-78 | every palette has colours (black and white for an empty section) with ids equal to positions |
| `PaletteConfig.AfterPaletteEveryFileCounts` | backend/internal/config.py:57-73 | once a palette section was read, every later file adds a palette that includes the earlier keys |
| `PaletteConfig.ClampPaletteId` | backend/internal/config.py:22-28 | `min(max(raw, 0), len - 1)` lies in range when a palette exists and equals raw when raw is in range |
| `PaletteConfig.WarningIffLowered` | backend/internal/config.py:30-32 | the warning is given exactly when the clamp lowered a non-negative raw id |
| `PaletteConfig.BoardInt` | backend/internal/config.py:15-16 | `int(config["PIXELBOARD"][key])` succeeds exactly when the key is present and is an integer |
| `PaletteConfig.ConfigSpec` | backend/internal/config.py:8-33 | the definition of what construction yields or raises; `PaletteConfig.NewConfig` is proved to compute it and `PaletteConfig.ConfigSelectsLoadedPalette` proves the palette id it picks names a loaded palette |
| `PaletteConfig.NewConfig` | backend/internal/config.py:8-33 | construction performs the assert, the reads, the load and the clamp in source order, each failure raising |
| `PaletteConfig.ConfigSelectsLoadedPalette` | backend/internal/config.py:12-28 | a built configuration had the board section and names a loaded palette |
| `LegacyConfig.LegacyColorsParsed` | backend/config.py:57 | one hex-only colour per key, in key order; succeeds exactly when every value is hex, else raises on the first value that is not |
| `LegacyConfig.LegacySpecFailureSticks` | backend/config.py:51-61 | an uncaught error on one file ends the load |
| `LegacyConfig.LegacySpec` | backend/config.py:42-63 | the definition of the legacy load, file by file; `LegacyConfig.LegacyLoadColorPalettes` is proved to compute it, and `LegacySpecFailureSticks`, `LegacyIdsConsecutive`, `MissingSectionRaises` and `LegacyKeysAccumulate` prove its properties |
| `LegacyConfig.LegacyLoadColorPalettes` | backend/config.py:42-63 | the loop computes exactly the specified legacy load |
| `LegacyConfig.LegacyIdsConsecutive` | backend/config.py:50-58 | a successful load has one palette per file, numbered from 0 |
| `LegacyConfig.MissingSectionRaises` | backend/config.py:54-61 | a file without a palette section raises the AssertionError, which only-IOError handling does not catch |
| `LegacyConfig.LegacyKeysAccumulate` | backend/config.py:45-57 | the keys read so far stay, in order, at the head of the merged section, so a later palette includes every key of the earlier files |
| `LegacyConfig.LegacyClampPaletteId` | backend/config.py:18-24 | `min(max(raw, 0), len)` lies in 0..len and is len when raw >= len |
| `LegacyConfig.LegacyClampOverflows` | backend/config.py:18-24 | for raw >= len the legacy id names no palette, where the current clamp gives len - 1 |
| `LegacyConfig.NewLegacyConfig` | backend/config.py:8-24 | construction runs the assert, the palette load, the reads and the clamp in source order |
| `LegacyBoard.LegacyCells` | backend/board.py:16-18 | `width * height` pixels, pixel i at `(i % width, i // height)`, all black |
| `LegacyBoard.LegacyRowsSquareOnly` | backend/board.py:17 | every pixel has its row-major coordinates exactly when width == height |
| `Persistence.EncodeColor` | backend/internal/db_manager.py:54 | the definition of `bytes.fromhex(hex(c)[2:].zfill(6)[:6])`, None for the ValueError; `Persistence.EncodeColorRoundTrip`, `EncodeColorKeepsHighDigits` and `EncodeColorNegative` prove what it stores |
| `Persistence.EncodeColorRoundTrip` | backend/internal/db_manager.py:54 | a 24-bit colour is stored as three bytes from which `int.from_bytes(..., 'big')` recovers it |
| `Persistence.EncodeColorKeepsHighDigits` | backend/internal/db_manager.py:54 | above 0xFFFFFF the three bytes keep the six most significant hex digits |
| `Persistence.EncodeColorNegative` | backend/internal/db_manager.py:54 | a negative colour makes `bytes.fromhex` raise |
| `Persistence.Lowest` | backend/internal/db_manager.py:79 | the lowest snapshot id is one of the ids and no id is lower |
| `Persistence.RemoveLowest` | backend/internal/db_manager.py:79-80 | the eviction removes exactly one copy of the lowest id |
| `Persistence.ResetStatements` | backend/internal/db_manager.py:91-107 | TRUNCATE exactly when resetting the board, the snapshot statements exactly when resetting snapshots, a commit exactly when either; the statements in that order, with the commit last |
| `Persistence.DBManager.constructor` | backend/internal/db_manager.py:8-36 | a refused connection gives volatile mode and returns before any reset; otherwise the reset runs and the limit is recorded |
| `Persistence.DBManager.Close` | backend/internal/db_manager.py:41-46 | the connection is cleared, nothing else changes |
| `Persistence.DBManager.CommitChanges` | backend/internal/db_manager.py:125-130 | a commit is sent only with a connection |
| `Persistence.DBManager.ModifyPixel` | backend/internal/db_manager.py:48-65 | without a connection nothing happens; otherwise an upsert of the encoded colour (INSERT, or UPDATE when the row exists) followed by a commit |
| `Persistence.DBManager.CreateQuickSnapshot` | backend/internal/db_manager.py:67-85 | the lowest snapshot is deleted exactly when the new id exceeds the limit; a commit always follows |
| `Persistence.DBManager.ResetDb` | backend/internal/db_manager.py:87-107 | the statements selected by the flags, and their effect on the table and snapshots |
| `Persistence.DBManager.GetPixels` | backend/internal/db_manager.py:109-123 | the rows are each table entry exactly once; None without a connection |
| `Client.NumberToHexColor` | frontend/project.js:147-153 | `numberToHexColor` is "#" before the hex digits padded to six characters |
| `Client.ZeroPad` | frontend/project.js:149-151 | the `while` loop prefixes zeros up to length six and leaves a longer string as it is |
| `Client.HexColorSix` | frontend/project.js:147-153 | for 0..0xFFFFFF the string is "#" and exactly six lower-case hex digits of the number |
| `Client.HexColorWide` | frontend/project.js:147-153 | a larger number is not truncated |
| `Client.HexColorInjective` | frontend/project.js:174-176 | distinct 24-bit colours give distinct strings, so `indexOf` finds the colour itself |
| `Client.SplitComma` | frontend/project.js:460 | `split(",")` gives at least one piece |
| `Client.ParseKey` | frontend/project.js:460-462 | the definition of `key.split(",")` followed by unary `+` on both parts; `Client.KeyRoundTrip` proves it inverts the key and `Client.KeyInjective` that keys are distinct |
| `Client.KeyRoundTrip` | frontend/project.js:448-462 | the key `x + "," + y`, split and converted with `+`, gives back (x, y) |
| `Client.KeyInjective` | frontend/project.js:448 | two pixels share a key only when they are the same pixel |
| `Client.Toggled` | frontend/project.js:238-250 | the selection is cleared exactly when the same index is chosen again, else it becomes that index |
| `Client.ToggleTwice` | frontend/project.js:238-250 | two toggles of one index restore the selection exactly when it was null or that index |
| `Client.ServerPaletteAgrees` | frontend/project.js:75-79 | the client palette has at most twelve entries, none beyond the server's, and entry i is the server's colour i |
| `Client.OverlayKey` | frontend/project.js:174-183 | after a run of `pixels.set` calls a key is present exactly when it was before or some call set it, and its value comes from the start or from such a call |
| `Client.OverlayUntouched` | frontend/project.js:294-324 | a key no call sets keeps its value, or stays absent |
| `Client.OverlayLast` | frontend/project.js:174-183 | the last call that sets a key decides its value |
| `Client.LoadedPixelsKey` | frontend/project.js:171-183 | after a load a key is present exactly when some received pixel with that key has a known colour, and its index names a palette entry |
| `Client.LoadedPixelsAt` | frontend/project.js:174-183 | a pixel not overridden later is stored with the first palette index of its colour string |
| `Client.StreamAppliedUntouched` | frontend/project.js:294-300 | an update event leaves every key it does not name as it was |
| `Client.StreamAppliedLast` | frontend/project.js:294-324 | the last change for a key with an in-palette colour id decides that key |
| `Client.FullLoadAccepted` | frontend/project.js:166 | the router accepts the client's full-board request exactly on a board of at least 2 by 2 |
| `Client.ColumnWithin` | backend/internal/board.py:55-59 | every pixel of a column read lies in that column and those rows |
| `Client.RangeViewWithin` | backend/internal/board.py:54-59 | every pixel of a range read lies inside the rectangle |
| `Client.FullLoadMissesLastColumnAndRow` | frontend/project.js:166-183 | after a full load the client holds no pixel of the board's last column or last row |
| `Client.ClientWriteAccepted` | frontend/project.js:636-641 | a click the client sends passes the router's guards, and the server paints the colour the client showed |
| `Client.CollectPixels` | frontend/project.js:174-183 | the `forEach` of the load builds exactly the loaded map, whose indices all name palette entries |
| `Client.PageState.constructor` | frontend/project.js:15-49 | the globals start at size 2500, the fallback palette, an empty map and no selection |
| `Client.PageState.Init` | frontend/project.js:69-105 | online: the server's size and its first twelve colours; offline: 2500 and the fallback palette |
| `Client.PageState.LoadAllPixels` | frontend/project.js:158-193 | nothing while offline; online it requests (0, 0, W - 1, H - 1) and, on a reply, replaces the map by the loaded pixels |
| `Client.PageState.ToggleColorSelection` | frontend/project.js:238-250 | only the selection changes, to the toggled value |
| `Client.PageState.UpdatePixelFromStream` | frontend/project.js:318-324 | the key is set only for a colour id within the palette; otherwise nothing changes |
| `Client.PageState.ApplyUpdate` | frontend/project.js:289-305 | the changes of an update event are applied in order, the later one winning, off-palette ids are skipped, and a redraw is requested exactly when some change had a palette id |
| `Client.PageState.Tap` | frontend/project.js:606-644 | a click paints only with a colour selected and on the board; the map is updated before the request, which is sent only online |
| `Client.PageState.Painted` | frontend/project.js:448-455 | a cell is drawn exactly when its key is stored, always in a palette colour |

## Left out

- Concurrency and timing are not modelled: the asyncio tasks, `asyncio.sleep`, the disconnect polling, the SSE framing and headers, and the per-event `uuid`. The drain, the fan-out and a stream's turn are sequential steps.
- `lru_cache` on the board methods is not modelled; the functions are uncached. With `asdictionary=True` the cache would hand out stale dictionaries, but no route passes that flag, so the `asdict` path of `get_pixel_range` is also out.
- `tqdm` progress bars, `print` and `colorama` logging have no effect on state and are left out.
- MySQL is abstracted to a map and a statement trace. Connections, cursors, transactions and the `CreateQuickSnapshot` stored function are foreign. The id that function returns is a parameter, and the id of a failed call is None.
- `Persistence.DBManager.GetPixels`: the order of the returned rows is left open, as SQL leaves it.
- `configparser` parsing is replaced by parsed sections. The DEFAULT section, interpolation, key case folding and whitespace trimming are not modelled. Python's `int()` forms with underscores or surrounding whitespace are not accepted.
- JSON is encoded but never decoded. Decoding of the settings and pixel replies and of the stream data is a parameter of the client methods, so no decode-after-encode round trip is proved.
- `BoardRoutes.GetPixels` requires `x >= 0` and `y >= 0` only for a range the router accepts; every refusal is modelled. An accepted negative start makes Python index from the end of the list, which is not modelled; the Findings row for the write guard shows the same wrap for writes.
- `Board.PixelBoard.GetPixelRange` requires, for a non-empty range, `0 <= x`, `0 <= y`, `x_end <= width` and `y_end <= height`. The source indexes `j * width + i` with any integers: a negative start reads from the end of the list, an end past the width reads into the next row, and an index off the list raises `IndexError`. None of these reads is modelled, and nor is the 500 the router would return for the `IndexError`.
- `Board.PixelBoard.constructor` requires that every stored row be indexable. In the source an off-list row raises an uncaught `IndexError`.
- The wiring in backend/internal/shared_state.py and backend/dependencies.py is not modelled. It calls the board with three arguments and names members that do not exist.
- Frontend rendering and input are not modelled: canvas drawing beyond the colour choice, scale and offsets in floating point, `screenToCanvas`, the drag and tap timing checks, the DOM, `fetch` and `EventSource`. A click arrives as integer canvas coordinates.
- `Client.NumberToHexColor` is modelled for integers only. JavaScript numbers with fractions, NaN and the `+` conversion of non-decimal text are not modelled.
- backend/main.py, backend/routers/router_site.py, backend/spammer.py, the pydantic models and the JSON encoder modules are not part of this model.

## Findings

| source | as written | input that shows it | evidently intended | confidence | as-written member | corrected member |
|---|---|---|---|---|---|---|
| backend/routers/router_board.py:25-29 | only upper bounds are checked, so negative coordinates and colour ids pass | x = -1, y = 0, color = 0: accepted, and index -1 writes the last pixel of the board while the log records (-1, 0) | reject coordinates and colour ids below 0 | high, not executed | `BoardRoutes.NegativeWriteWraps` | `BoardRoutes.CheckedWriteGuard` |
| backend/routers/router_board.py:38-39 | `x_end >= width` is refused although `get_pixel_range` treats ends as exclusive | (0, 0, width, height): refused with "Invalid pixel end range"; no read ever reaches the last column or row | accept `x_end <= width` and `y_end <= height` | high, not executed | `BoardRoutes.WholeBoardRead` | `BoardRoutes.CheckedRangeGuard` |
| backend/config.py:18-24 | clamps the palette id to `len(palettes)` | raw = 5 with 2 palettes gives id 2, which names no palette | clamp to `len(palettes) - 1`, as backend/internal/config.py:22-28 does | high, not executed | `LegacyConfig.LegacyClampOverflows` | `PaletteConfig.ClampPaletteId` |
| backend/board.py:17 | row taken as `i // height` | width 3, height 2: pixel 5 gets y = 2 instead of its row 1 | `i // width`, as backend/internal/board.py:98 does | high, not executed | `LegacyBoard.LegacyRowsSquareOnly` | `Board.CreateBoardBatched` |
