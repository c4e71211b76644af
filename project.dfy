/**
 * The browser client of frontend/project.js: its palette strings, the sparse
 * map from "x,y" keys to palette indices, the colour selection, and what the
 * start-up, the full load, the stream updates and a click do to them. The
 * canvas, the viewport and the network are left out; a reply the client
 * waits for is a parameter, a request it sends is a result.
 */
module Client {
  import opened Common
  import opened Numerals
  import opened ColorPalettes
  import opened Board
  import opened BoardRoutes

  /** The twelve colours the client uses when the server cannot be reached. */
  const FallbackPalette: seq<string> := [
    "#ff6b6b", "#ff9e6d", "#ffcc5c", "#a8e6cf", "#4ecdc4", "#45b7d1",
    "#96ceb4", "#588157", "#3a5a40", "#344e41", "#9a8c98", "#4a4e69"
  ]

  /** The board size assumed before (or instead of) the server's settings. */
  const DefaultSize := 2500

  /** At most this many server colours become palette entries. */
  const PaletteLimit := 12

  /**
   * `numberToHexColor`: `toString(16)` (lower case, a leading "-" for a
   * negative number), zeros put in front until there are six characters, and
   * a "#" before it all. The zeros go in front of the sign.
   */
  function HexColor(n: int): string
  {
    "#" + PadLeft(SignedDigits(n, Hexadecimal, false), 6)
  }

  method NumberToHexColor(n: int) returns (s: string)
    ensures s == HexColor(n)
  {
    var hex := ZeroPad(SignedDigits(n, Hexadecimal, false), 6);
    return "#" + hex;
  }

  /** The `while` loop of `numberToHexColor`: a "0" in front until the text is long enough. */
  method ZeroPad(digits: string, width: nat) returns (hex: string)
    ensures hex == PadLeft(digits, width)
  {
    hex := digits;
    ghost var k: nat := 0;
    while |hex| < width
      invariant hex == Zeros(k) + digits
      invariant |digits| < width ==> |hex| <= width
      invariant |digits| >= width ==> k == 0
      decreases width - |hex|
    {
      assert "0" + Zeros(k) == Zeros(k + 1);
      hex := "0" + hex;
      k := k + 1;
    }
    assert k == 0 ==> hex == digits;
  }

  /** A colour of the 24-bit range is "#" and exactly six lower-case digits of its value. */
  lemma HexColorSix(n: int)
    requires 0 <= n <= 0xFFFFFF
    ensures |HexColor(n)| == 7 && HexColor(n)[0] == '#'
    ensures IsLowerHex(HexColor(n)[1..]) && AllDigits(HexColor(n)[1..], Hexadecimal)
    ensures Value(HexColor(n)[1..], Hexadecimal) == n
  {
    var d := Digits(n, Hexadecimal, false);
    assert Pow16(6) == 0x1000000;
    HexDigitsAtMost(n, false, 6);
    PadLeftValue(d, 6, Hexadecimal);
    DigitsValue(n, Hexadecimal, false);
    PadLeftCase(d, 6);
    assert HexColor(n)[1..] == PadLeft(d, 6);
  }

  /** A colour above the 24-bit range is not cut: all of its digits follow the "#". */
  lemma HexColorWide(n: int)
    requires n > 0xFFFFFF
    ensures HexColor(n) == "#" + Digits(n, Hexadecimal, false)
    ensures |HexColor(n)| > 7
  {
    assert Pow16(6) == 0x1000000;
    HexDigitsMoreThan(n, false, 6);
  }

  /** Two 24-bit colours with the same string are the same colour. */
  lemma HexColorInjective(a: int, b: int)
    requires 0 <= a <= 0xFFFFFF && 0 <= b <= 0xFFFFFF
    requires HexColor(a) == HexColor(b)
    ensures a == b
  {
    HexColorSix(a);
    HexColorSix(b);
  }

  /** The key of a pixel in the sparse map: `x + "," + y`. */
  function Key(x: int, y: int): string
  {
    DecimalString(x) + "," + DecimalString(y)
  }

  /** `split(",")`: the pieces between commas, in order. */
  function SplitComma(s: string): (parts: seq<string>)
    ensures |parts| >= 1
    decreases |s|
  {
    match FirstIndexOf(s, ',')
    case None => [s]
    case Some(i) => [s[..i]] + SplitComma(s[i + 1..])
  }

  /** Unary `+` on a string of an integer; the empty string converts to 0; anything else here is NaN. */
  function JsNumber(s: string): Option<int>
  {
    if s == "" then Some(0) else ParseInt(s)
  }

  /** `const [xStr, yStr] = key.split(","); x = +xStr, y = +yStr`; a missing piece or NaN gives None. */
  function ParseKey(k: string): Option<(int, int)>
  {
    var parts := SplitComma(k);
    if |parts| < 2 then None
    else
      match (JsNumber(parts[0]), JsNumber(parts[1]))
      case (Some(x), Some(y)) => Some((x, y))
      case _ => None
  }

  /** The sparse drawing path reads back exactly the coordinates a key was built from. */
  lemma KeyRoundTrip(x: int, y: int)
    ensures ParseKey(Key(x, y)) == Some((x, y))
  {
    var dx, dy := DecimalString(x), DecimalString(y);
    DecimalRoundTrip(x);
    DecimalRoundTrip(y);
    var k := Key(x, y);
    assert k[|dx|] == ',';
    assert forall j :: 0 <= j < |dx| ==> k[j] == dx[j] && k[j] != ',';
    assert FirstIndexOf(k, ',') == Some(|dx|);
    assert k[..|dx|] == dx;
    assert k[|dx| + 1..] == dy;
    assert SplitComma(dy) == [dy];
    assert dx != "" && dy != "";
  }

  /** Different pixels never share a key. */
  lemma KeyInjective(x1: int, y1: int, x2: int, y2: int)
    requires Key(x1, y1) == Key(x2, y2)
    ensures x1 == x2 && y1 == y2
  {
    KeyRoundTrip(x1, y1);
    KeyRoundTrip(x2, y2);
  }

  /** `toggleColorSelection`: picking the selected colour again clears the selection. */
  function Toggled(selection: Option<int>, index: int): (r: Option<int>)
    ensures r.None? <==> selection == Some(index)
    ensures r.Some? ==> r.value == index
  {
    if selection == Some(index) then None else Some(index)
  }

  /**
   * Two toggles of one swatch restore the selection exactly when it was empty
   * or already that swatch; from another colour they end with none selected.
   */
  lemma ToggleTwice(selection: Option<int>, index: int)
    ensures Toggled(Toggled(selection, index), index) == selection <==>
      (selection.None? || selection == Some(index))
    ensures selection.Some? && selection.value != index ==> Toggled(Toggled(selection, index), index).None?
  {
  }

  /** The palette built from the server's colours: the first twelve, as `numberToHexColor` strings. */
  function ServerPalette(colors: seq<Color>): (p: seq<string>)
  {
    var n := if |colors| < PaletteLimit then |colors| else PaletteLimit;
    seq(n, i requires 0 <= i < n => HexColor(colors[i].hex))
  }

  /**
   * Client index i is the colour the server stores for colour id i: a client
   * palette is never longer than twelve nor than the server's, and each entry
   * is the server colour at the same position.
   */
  lemma ServerPaletteAgrees(colors: seq<Color>)
    ensures |ServerPalette(colors)| <= PaletteLimit && |ServerPalette(colors)| <= |colors|
    ensures |colors| >= PaletteLimit ==> |ServerPalette(colors)| == PaletteLimit
    ensures forall i :: 0 <= i < |ServerPalette(colors)| ==>
      ServerPalette(colors)[i] == HexColor(GetColor(colors, i).hex)
  {
  }

  /**
   * `pixels.set` applied entry after entry to a starting map: an entry with a
   * value stores it under its key, overwriting what was there; an entry
   * without one is skipped.
   */
  function Overlay(base: map<string, int>, entries: seq<(string, Option<int>)>): map<string, int>
    decreases |entries|
  {
    if entries == [] then base
    else
      var m := Overlay(base, entries[..|entries| - 1]);
      var e := entries[|entries| - 1];
      if e.1.Some? then m[e.0 := e.1.value] else m
  }

  /** One more entry is one more `set`, or none. */
  lemma OverlayStep(base: map<string, int>, entries: seq<(string, Option<int>)>, e: (string, Option<int>))
    ensures Overlay(base, entries + [e]) == if e.1.Some? then Overlay(base, entries)[e.0 := e.1.value] else Overlay(base, entries)
  {
    assert (entries + [e])[..|entries|] == entries;
  }

  /**
   * A key holds a value after the sets exactly when it held one before or
   * some entry sets it, and that value came from the start or from an entry.
   */
  lemma {:induction false} OverlayKey(base: map<string, int>, entries: seq<(string, Option<int>)>, k: string)
    ensures k in Overlay(base, entries) <==>
      (k in base || exists j :: 0 <= j < |entries| && entries[j].0 == k && entries[j].1.Some?)
    ensures k in Overlay(base, entries) ==>
      ((k in base && Overlay(base, entries)[k] == base[k]) ||
       exists j :: 0 <= j < |entries| && entries[j] == (k, Some(Overlay(base, entries)[k])))
    decreases |entries|
  {
    if entries != [] {
      var init := entries[..|entries| - 1];
      var e := entries[|entries| - 1];
      OverlayKey(base, init, k);
      if exists j :: 0 <= j < |entries| && entries[j].0 == k && entries[j].1.Some? {
        var j :| 0 <= j < |entries| && entries[j].0 == k && entries[j].1.Some?;
        if j < |init| {
          assert init[j] == entries[j];
        }
      }
      if exists j :: 0 <= j < |init| && init[j].0 == k && init[j].1.Some? {
        var j :| 0 <= j < |init| && init[j].0 == k && init[j].1.Some?;
        assert entries[j] == init[j];
      }
      if k in Overlay(base, init) && !(k in base && Overlay(base, init)[k] == base[k]) {
        var j :| 0 <= j < |init| && init[j] == (k, Some(Overlay(base, init)[k]));
        assert entries[j] == init[j];
      }
      if e.1.Some? && e.0 == k {
        assert entries[|entries| - 1] == (k, Some(Overlay(base, entries)[k]));
      }
    }
  }

  /** A key that no entry sets keeps its starting value, or stays absent. */
  lemma {:induction false} OverlayUntouched(base: map<string, int>, entries: seq<(string, Option<int>)>, k: string)
    requires forall j :: 0 <= j < |entries| ==> entries[j].0 != k || entries[j].1.None?
    ensures k in Overlay(base, entries) <==> k in base
    ensures k in base ==> Overlay(base, entries)[k] == base[k]
    decreases |entries|
  {
    if entries != [] {
      var init := entries[..|entries| - 1];
      forall j | 0 <= j < |init| ensures init[j].0 != k || init[j].1.None? {
        assert init[j] == entries[j];
      }
      OverlayUntouched(base, init, k);
    }
  }

  /** The last entry for a key, when it has a value, decides that key. */
  lemma {:induction false} OverlayLast(base: map<string, int>, entries: seq<(string, Option<int>)>, j: nat)
    requires j < |entries| && entries[j].1.Some?
    requires forall l :: j < l < |entries| ==> entries[l].0 != entries[j].0
    ensures entries[j].0 in Overlay(base, entries)
    ensures Overlay(base, entries)[entries[j].0] == entries[j].1.value
    decreases |entries|
  {
    var init := entries[..|entries| - 1];
    if j < |init| {
      assert init[j] == entries[j];
      forall l | j < l < |init| ensures init[l].0 != init[j].0 {
        assert init[l] == entries[l];
      }
      OverlayLast(base, init, j);
    }
  }

  /** What the load sets for one received pixel: its key, and the first palette index of its colour string. */
  function LoadEntry(palette: seq<string>, p: Pixel): (string, Option<int>)
  {
    (Key(p.x, p.y), match FirstIndexOf(palette, HexColor(p.color.hex)) case None => None case Some(i) => Some(i as int))
  }

  function LoadEntries(palette: seq<string>, data: seq<Pixel>): (es: seq<(string, Option<int>)>)
    ensures |es| == |data| && forall j :: 0 <= j < |data| ==> es[j] == LoadEntry(palette, data[j])
  {
    seq(|data|, j requires 0 <= j < |data| => LoadEntry(palette, data[j]))
  }

  /**
   * `loadAllPixels` after a reply: the map is emptied, then each received
   * pixel whose colour string is in the palette stores the first matching
   * index under its key, a later pixel overwriting an earlier one.
   */
  function LoadedPixels(palette: seq<string>, data: seq<Pixel>): map<string, int>
  {
    Overlay(map[], LoadEntries(palette, data))
  }

  /** A received pixel that the load stores under key k. */
  predicate Shown(palette: seq<string>, p: Pixel, k: string)
  {
    Key(p.x, p.y) == k && HexColor(p.color.hex) in palette
  }

  /**
   * A key is loaded exactly when some received pixel with that key has a
   * colour the palette knows, and its index then names a palette entry.
   */
  lemma LoadedPixelsKey(palette: seq<string>, data: seq<Pixel>, k: string)
    ensures k in LoadedPixels(palette, data) ==> 0 <= LoadedPixels(palette, data)[k] < |palette|
    ensures k in LoadedPixels(palette, data) <==> exists j :: 0 <= j < |data| && Shown(palette, data[j], k)
  {
    var es := LoadEntries(palette, data);
    OverlayKey(map[], es, k);
    forall j | 0 <= j < |data|
      ensures (es[j].0 == k && es[j].1.Some?) <==> Shown(palette, data[j], k)
      ensures es[j].1.Some? ==> 0 <= es[j].1.value < |palette|
    {
    }
  }

  /**
   * A pixel that no later pixel shares a key with, and whose colour the
   * palette knows, is shown in the first palette entry with that colour string.
   */
  lemma LoadedPixelsAt(palette: seq<string>, data: seq<Pixel>, j: nat)
    requires j < |data| && HexColor(data[j].color.hex) in palette
    requires forall l :: j < l < |data| ==> Key(data[l].x, data[l].y) != Key(data[j].x, data[j].y)
    ensures Key(data[j].x, data[j].y) in LoadedPixels(palette, data)
    ensures LoadedPixels(palette, data)[Key(data[j].x, data[j].y)] == FirstIndexOf(palette, HexColor(data[j].color.hex)).value
  {
    var es := LoadEntries(palette, data);
    OverlayLast(map[], es, j);
  }

  /** What an update event sets for each change: its key, and its colour id when inside the palette. */
  function StreamEntries(paletteSize: int, changes: seq<Pixel>): (es: seq<(string, Option<int>)>)
    ensures |es| == |changes|
  {
    seq(|changes|, j requires 0 <= j < |changes| =>
      (Key(changes[j].x, changes[j].y),
       if 0 <= changes[j].color.colorId < paletteSize then Some(changes[j].color.colorId) else None))
  }

  /** A whole update event: `updatePixelFromStream` for each change, in array order. */
  function StreamApplied(pixels: map<string, int>, paletteSize: int, changes: seq<Pixel>): map<string, int>
  {
    Overlay(pixels, StreamEntries(paletteSize, changes))
  }

  /** After an update event, a key no change names keeps its old entry, or stays absent. */
  lemma StreamAppliedUntouched(pixels: map<string, int>, paletteSize: int, changes: seq<Pixel>, k: string)
    requires forall j :: 0 <= j < |changes| ==> Key(changes[j].x, changes[j].y) != k
    ensures k in StreamApplied(pixels, paletteSize, changes) <==> k in pixels
    ensures k in pixels ==> StreamApplied(pixels, paletteSize, changes)[k] == pixels[k]
  {
    OverlayUntouched(pixels, StreamEntries(paletteSize, changes), k);
  }

  /** A change with an in-palette colour id that no later change overrides decides its key. */
  lemma StreamAppliedLast(pixels: map<string, int>, paletteSize: int, changes: seq<Pixel>, j: nat)
    requires j < |changes| && 0 <= changes[j].color.colorId < paletteSize
    requires forall l :: j < l < |changes| ==> Key(changes[l].x, changes[l].y) != Key(changes[j].x, changes[j].y)
    ensures Key(changes[j].x, changes[j].y) in StreamApplied(pixels, paletteSize, changes)
    ensures StreamApplied(pixels, paletteSize, changes)[Key(changes[j].x, changes[j].y)] == changes[j].color.colorId
  {
    OverlayLast(pixels, StreamEntries(paletteSize, changes), j);
  }

  /** The client's full load asks for (0, 0, width - 1, height - 1); the router takes it only on a board of at least 2 by 2. */
  lemma FullLoadAccepted(width: int, height: int)
    ensures RangeGuard(width, height, 0, 0, width - 1, height - 1).None? <==> width >= 2 && height >= 2
  {
  }

  /** Every cell of column i, rows y up to yEnd, lies in that column and those rows. */
  lemma {:induction false} ColumnWithin(board: PixelBoard, i: int, y: int, yEnd: int)
    requires board.Valid()
    requires y < yEnd ==> 0 <= i < board.width && 0 <= y && yEnd <= board.height
    ensures forall p :: p in board.Column(i, y, yEnd) ==> p.x == i && y <= p.y < yEnd
    decreases yEnd - y
  {
    if y < yEnd {
      ColumnWithin(board, i, y, yEnd - 1);
      assert board.Column(i, y, yEnd) == board.Column(i, y, yEnd - 1) + [board.Cell(i, yEnd - 1)];
    }
  }

  /** Every cell of a range read lies inside the rectangle read. */
  lemma {:induction false} RangeViewWithin(board: PixelBoard, x: int, y: int, xEnd: int, yEnd: int)
    requires board.Valid()
    requires x < xEnd && y < yEnd ==> 0 <= x && xEnd <= board.width && 0 <= y && yEnd <= board.height
    ensures forall p :: p in board.RangeView(x, y, xEnd, yEnd) ==> x <= p.x < xEnd && y <= p.y < yEnd
    decreases xEnd - x
  {
    if x < xEnd {
      RangeViewWithin(board, x, y, xEnd - 1, yEnd);
      ColumnWithin(board, xEnd - 1, y, yEnd);
      assert board.RangeView(x, y, xEnd, yEnd) == board.RangeView(x, y, xEnd - 1, yEnd) + board.Column(xEnd - 1, y, yEnd);
    }
  }

  /**
   * However the palettes agree, a full load never shows the server's last
   * column or last row: the router reads (0, 0, width - 1, height - 1)
   * with exclusive ends, so no pixel there is in the reply.
   */
  lemma FullLoadMissesLastColumnAndRow(board: PixelBoard, palette: seq<string>, i: int, j: int)
    requires board.Valid() && board.width >= 2 && board.height >= 2
    requires i == board.width - 1 || j == board.height - 1
    ensures RangeGuard(board.width, board.height, 0, 0, board.width - 1, board.height - 1).None?
    ensures Key(i, j) !in LoadedPixels(palette, board.RangeView(0, 0, board.width - 1, board.height - 1))
  {
    var view := board.RangeView(0, 0, board.width - 1, board.height - 1);
    RangeViewWithin(board, 0, 0, board.width - 1, board.height - 1);
    LoadedPixelsKey(palette, view, Key(i, j));
    if Key(i, j) in LoadedPixels(palette, view) {
      var l :| 0 <= l < |view| && Shown(palette, view[l], Key(i, j));
      assert view[l] in view;
      KeyInjective(view[l].x, view[l].y, i, j);
      assert false;
    }
  }

  /**
   * A click the client sends with the server's settings passes both the
   * router's write guard and the guard that also checks lower bounds, and
   * the server paints the colour the client painted locally.
   */
  lemma ClientWriteAccepted(s: Settings, x: int, y: int, color: int)
    requires 0 <= x < s.width && 0 <= y < s.height
    requires 0 <= color < |ServerPalette(s.palette.colors)|
    ensures WriteGuard(s.width, s.height, |s.palette.colors|, x, y, color).None?
    ensures CheckedWriteGuard(s.width, s.height, |s.palette.colors|, x, y, color).None?
    ensures ServerPalette(s.palette.colors)[color] == HexColor(GetColor(s.palette.colors, color).hex)
  {
    ServerPaletteAgrees(s.palette.colors);
  }

  /** Applying one more entry of a list is one more `set`, or none. */
  lemma OverlayPrefixStep(base: map<string, int>, entries: seq<(string, Option<int>)>, k: nat)
    requires k < |entries|
    ensures Overlay(base, entries[..k + 1]) ==
      if entries[k].1.Some? then Overlay(base, entries[..k])[entries[k].0 := entries[k].1.value] else Overlay(base, entries[..k])
  {
    assert entries[..k + 1] == entries[..k] + [entries[k]];
    OverlayStep(base, entries[..k], entries[k]);
  }

  /** The `forEach` of `loadAllPixels`, filling the emptied map from a reply. */
  method CollectPixels(palette: seq<string>, data: seq<Pixel>) returns (m: map<string, int>)
    ensures m == LoadedPixels(palette, data)
    ensures forall k :: k in m ==> 0 <= m[k] < |palette|
  {
    ghost var es := LoadEntries(palette, data);
    m := map[];
    var k := 0;
    while k < |data|
      invariant 0 <= k <= |data|
      invariant m == Overlay(map[], es[..k])
    {
      OverlayPrefixStep(map[], es, k);
      var colorHex := NumberToHexColor(data[k].color.hex);
      var colorIndex := FirstIndexOf(palette, colorHex);
      assert es[k] == LoadEntry(palette, data[k]);
      if colorIndex.Some? {
        m := m[Key(data[k].x, data[k].y) := colorIndex.value];
      }
      k := k + 1;
    }
    assert es[..k] == es;
    forall key | key in m
      ensures 0 <= m[key] < |palette|
    {
      LoadedPixelsKey(palette, data, key);
    }
  }

  /** The module-level state of the page script. */
  class PageState {
    var width: int
    var height: int
    var palette: seq<string>
    /** `pixels`: key "x,y" to palette index, only for pixels known to have a palette colour. */
    var pixels: map<string, int>
    /** `currentColorIndex`; None is JavaScript's null. */
    var selected: Option<int>
    var needsRedraw: bool
    var online: bool

    /** The selection and every stored index name an entry of the palette, as drawing needs. */
    ghost predicate Valid()
      reads this
    {
      (selected.Some? ==> 0 <= selected.value < |palette|) &&
      (forall k :: k in pixels ==> 0 <= pixels[k] < |palette|)
    }

    /** The script's initial globals. */
    constructor ()
      ensures Valid()
      ensures width == DefaultSize && height == DefaultSize && palette == FallbackPalette
      ensures pixels == map[] && selected.None? && needsRedraw && !online
    {
      width := DefaultSize;
      height := DefaultSize;
      palette := FallbackPalette;
      pixels := map[];
      selected := None;
      needsRedraw := true;
      online := false;
    }

    /**
     * The settings step of `init`, run once before any click: with the
     * server's settings, its size and its first twelve colours; without
     * them, the default size and the fallback palette.
     */
    method Init(settings: Option<Settings>)
      requires pixels == map[] && selected.None?
      modifies this
      ensures Valid()
      ensures online <==> settings.Some?
      ensures settings.Some? ==> (width == settings.value.width && height == settings.value.height &&
        palette == ServerPalette(settings.value.palette.colors))
      ensures settings.None? ==> width == DefaultSize && height == DefaultSize && palette == FallbackPalette
      ensures pixels == map[] && selected.None? && needsRedraw == old(needsRedraw)
    {
      if settings.None? {
        online := false;
        width := DefaultSize;
        height := DefaultSize;
        palette := FallbackPalette;
        return;
      }
      online := true;
      var s := settings.value;
      width := s.width;
      height := s.height;
      var colors := s.palette.colors;
      var n := if |colors| < PaletteLimit then |colors| else PaletteLimit;
      var colorsToUse := colors[..n];
      var out: seq<string> := [];
      var i := 0;
      while i < |colorsToUse|
        invariant 0 <= i <= |colorsToUse|
        invariant out == seq(i, j requires 0 <= j < i => HexColor(colors[j].hex))
        invariant online && width == s.width && height == s.height
        invariant pixels == map[] && selected.None? && needsRedraw == old(needsRedraw)
      {
        var h := NumberToHexColor(colorsToUse[i].hex);
        out := out + [h];
        i := i + 1;
      }
      palette := out;
    }

    /**
     * `loadAllPixels`: nothing while offline; online, it asks for the
     * rectangle (0, 0, width - 1, height - 1). A failed request (None)
     * leaves the map as it was; a reply replaces the map by the pixels
     * whose colours the palette knows.
     */
    method LoadAllPixels(reply: Option<seq<Pixel>>) returns (request: Option<(int, int, int, int)>)
      requires Valid()
      modifies this
      ensures Valid()
      ensures width == old(width) && height == old(height) && palette == old(palette)
      ensures selected == old(selected) && online == old(online)
      ensures !online ==> request.None?
      ensures online ==> request == Some((0, 0, width - 1, height - 1))
      ensures !online || reply.None? ==> pixels == old(pixels) && needsRedraw == old(needsRedraw)
      ensures online && reply.Some? ==> pixels == LoadedPixels(palette, reply.value) && needsRedraw
    {
      if !online {
        return None;
      }
      request := Some((0, 0, width - 1, height - 1));
      if reply.None? {
        return;
      }
      pixels := CollectPixels(palette, reply.value);
      needsRedraw := true;
    }

    /** `toggleColorSelection` for the swatch of palette entry index. */
    method ToggleColorSelection(index: int)
      requires Valid() && 0 <= index < |palette|
      modifies this
      ensures Valid()
      ensures selected == Toggled(old(selected), index)
      ensures width == old(width) && height == old(height) && palette == old(palette)
      ensures pixels == old(pixels) && needsRedraw == old(needsRedraw) && online == old(online)
    {
      if selected == Some(index) {
        selected := None;
      } else {
        selected := Some(index);
      }
    }

    /** `updatePixelFromStream`: only a colour id inside the palette is stored. */
    method UpdatePixelFromStream(x: int, y: int, colorId: int)
      requires Valid()
      modifies this
      ensures Valid()
      ensures 0 <= colorId < |palette| ==> pixels == old(pixels)[Key(x, y) := colorId] && needsRedraw
      ensures !(0 <= colorId < |palette|) ==> pixels == old(pixels) && needsRedraw == old(needsRedraw)
      ensures width == old(width) && height == old(height) && palette == old(palette)
      ensures selected == old(selected) && online == old(online)
    {
      if colorId >= 0 && colorId < |palette| {
        pixels := pixels[Key(x, y) := colorId];
        needsRedraw := true;
      }
    }

    /** The "update" event handler: every change of the decoded array, in order. */
    method ApplyUpdate(changes: seq<Pixel>)
      requires Valid()
      modifies this
      ensures Valid()
      ensures pixels == StreamApplied(old(pixels), |palette|, changes)
      ensures width == old(width) && height == old(height) && palette == old(palette)
      ensures selected == old(selected) && online == old(online)
      ensures needsRedraw == (old(needsRedraw) || exists j :: 0 <= j < |changes| && 0 <= changes[j].color.colorId < |palette|)
    {
      ghost var es := StreamEntries(|palette|, changes);
      var k := 0;
      while k < |changes|
        invariant 0 <= k <= |changes| && Valid()
        invariant pixels == Overlay(old(pixels), es[..k])
        invariant width == old(width) && height == old(height) && palette == old(palette)
        invariant selected == old(selected) && online == old(online)
        invariant needsRedraw == (old(needsRedraw) || exists j :: 0 <= j < k && 0 <= changes[j].color.colorId < |palette|)
      {
        OverlayPrefixStep(old(pixels), es, k);
        UpdatePixelFromStream(changes[k].x, changes[k].y, changes[k].color.colorId);
        k := k + 1;
      }
      assert es[..k] == es;
    }


    /**
     * A click on canvas cell (x, y): with no colour selected or outside the
     * board nothing happens; otherwise the cell is painted locally and,
     * online only, the POST body (x, y, colour) is sent.
     */
    method Tap(x: int, y: int) returns (request: Option<(int, int, int)>)
      requires Valid()
      modifies this
      ensures Valid()
      ensures width == old(width) && height == old(height) && palette == old(palette)
      ensures selected == old(selected) && online == old(online)
      ensures selected.None? || !(0 <= x < width && 0 <= y < height) ==>
        request.None? && pixels == old(pixels) && needsRedraw == old(needsRedraw)
      ensures selected.Some? && 0 <= x < width && 0 <= y < height ==>
        pixels == old(pixels)[Key(x, y) := selected.value] && needsRedraw &&
        request == (if online then Some((x, y, selected.value)) else None)
    {
      if selected.None? {
        return None;
      }
      if x < 0 || x >= width || y < 0 || y >= height {
        return None;
      }
      if !online {
        pixels := pixels[Key(x, y) := selected.value];
        needsRedraw := true;
        return None;
      }
      pixels := pixels[Key(x, y) := selected.value];
      needsRedraw := true;
      request := Some((x, y, selected.value));
    }

    /** What `draw` fills cell (x, y) with: the palette string of its stored index, if any. */
    function Painted(x: int, y: int): (r: Option<string>)
      reads this
      requires Valid()
      ensures r.Some? <==> Key(x, y) in pixels
      ensures r.Some? ==> r.value in palette
    {
      if Key(x, y) in pixels then Some(palette[pixels[Key(x, y)]]) else None
    }
  }
}
