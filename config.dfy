/**
 * The configuration of backend/internal/config.py: the board section of the
 * main file, the palettes loaded from the palette files through one reused
 * parser, and the clamped choice of palette.
 */
module PaletteConfig {
  import opened Common
  import opened Numerals
  import opened ColorPalettes
  import opened Ini

  const PaletteSection := "PALETTE"
  const BoardSection := "PIXELBOARD"

  /** The colours an empty palette gets instead: black, then white. */
  const BlackAndWhite := [Color(0x000000, 0), Color(0xFFFFFF, 1)]

  /** A ValueError from `int(value, base=16)`, which the loader does not catch. */
  datatype LoadError = BadHex(key: string, value: string)

  /**
   * The comprehension over the palette section: one colour per key, in key
   * order, its value read as hex and its id its position; the first value that
   * is not hex raises.
   */
  function PaletteColors(entries: seq<Entry>): Result<seq<Color>, LoadError>
  {
    match ParseValues(entries, ParseHexInt)
    case Failure(e) => Failure(BadHex(e.key, e.value))
    case Success(hs) => Success(seq(|hs|, i requires 0 <= i < |hs| => Color(hs[i], i)))
  }

  /** Succeeds exactly when every value is hex, and then holds one colour per key in key order, its id its position. */
  lemma PaletteColorsParsed(entries: seq<Entry>)
    ensures PaletteColors(entries).Success? <==> forall i :: 0 <= i < |entries| ==> ParseHexInt(entries[i].value).Some?
    ensures PaletteColors(entries).Success? ==> (|PaletteColors(entries).value| == |entries| &&
      forall i :: 0 <= i < |entries| ==> PaletteColors(entries).value[i] == Color(ParseHexInt(entries[i].value).value, i))
    ensures PaletteColors(entries).Failure? ==>
      exists i :: 0 <= i < |entries| &&
        PaletteColors(entries).error == BadHex(entries[i].key, entries[i].value) && ParseHexInt(entries[i].value).None? &&
        forall j :: 0 <= j < i ==> ParseHexInt(entries[j].value).Some?
  {
    ParseValuesSpec(entries, ParseHexInt);
  }

  /** The loader's state between files: the reused parser and the palettes so far. */
  datatype Loaded = Loaded(parser: Parser, palettes: seq<ColorPalette>)

  /**
   * One file of `load_color_palettes`: read it into the parser; if the parser
   * then has a palette section, add a palette numbered by how many came before.
   */
  function LoadStep(st: Loaded, file: Option<seq<Section>>): Result<Loaded, LoadError>
  {
    var p := Read(st.parser, file);
    if !HasSection(p, PaletteSection) then Success(Loaded(p, st.palettes))
    else
      match PaletteColors(SectionEntries(p, PaletteSection))
      case Failure(e) => Failure(e)
      case Success(cs) =>
        Success(Loaded(p, st.palettes + [ColorPalette(|st.palettes|, if cs == [] then BlackAndWhite else cs)]))
  }

  /** The whole load over the palette files in glob order; the first error ends it. */
  function LoadSpec(files: seq<Option<seq<Section>>>): Result<Loaded, LoadError>
    decreases |files|
  {
    if files == [] then Success(Loaded(EmptyParser, []))
    else
      match LoadSpec(files[..|files| - 1])
      case Failure(e) => Failure(e)
      case Success(st) => LoadStep(st, files[|files| - 1])
  }

  /** An error on some prefix of the files is the error of the whole load. */
  lemma {:induction false} LoadSpecFailureSticks(files: seq<Option<seq<Section>>>, k: nat)
    requires k <= |files| && LoadSpec(files[..k]).Failure?
    ensures LoadSpec(files) == LoadSpec(files[..k])
    decreases |files| - k
  {
    if k < |files| {
      assert files[..k + 1][..k] == files[..k];
      LoadSpecFailureSticks(files, k + 1);
    } else {
      assert files[..k] == files;
    }
  }

  /**
   * `load_color_palettes`: the id counter goes up before each read and back
   * down for a file the palette check skips.
   */
  method LoadColorPalettes(files: seq<Option<seq<Section>>>) returns (r: Result<seq<ColorPalette>, LoadError>)
    ensures r.Success? <==> LoadSpec(files).Success?
    ensures r.Success? ==> r.value == LoadSpec(files).value.palettes
    ensures r.Failure? ==> r.error == LoadSpec(files).error
  {
    var parser := EmptyParser;
    var palettes: seq<ColorPalette> := [];
    var id := -1;
    var k := 0;
    while k < |files|
      invariant 0 <= k <= |files|
      invariant id == |palettes| - 1
      invariant LoadSpec(files[..k]) == Success(Loaded(parser, palettes))
    {
      assert files[..k + 1][..k] == files[..k];
      ghost var before := Loaded(parser, palettes);
      assert LoadSpec(files[..k + 1]) == LoadStep(before, files[k]);
      id := id + 1;
      parser := Read(parser, files[k]);
      if !HasSection(parser, PaletteSection) {
        id := id - 1;
        k := k + 1;
        continue;
      }
      var colors := PaletteColors(SectionEntries(parser, PaletteSection));
      if colors.Failure? {
        LoadSpecFailureSticks(files, k + 1);
        return Failure(colors.error);
      }
      var cs := colors.value;
      if |cs| == 0 {
        cs := cs + [Color(0x000000, 0)];
        cs := cs + [Color(0xFFFFFF, 1)];
        assert cs == BlackAndWhite;
      }
      palettes := palettes + [ColorPalette(id, cs)];
      k := k + 1;
    }
    assert files[..k] == files;
    return Success(palettes);
  }

  /** Palettes are numbered 0, 1, 2, ... in load order; skipped files leave no gap. */
  lemma {:induction false} PaletteIdsConsecutive(files: seq<Option<seq<Section>>>)
    requires LoadSpec(files).Success?
    ensures forall k :: 0 <= k < |LoadSpec(files).value.palettes| ==> LoadSpec(files).value.palettes[k].id == k
    decreases |files|
  {
    if files != [] {
      PaletteIdsConsecutive(files[..|files| - 1]);
    }
  }

  /** Every loaded palette has at least one colour, and colour ids are positions. */
  lemma {:induction false} PalettesWellFormed(files: seq<Option<seq<Section>>>)
    requires LoadSpec(files).Success?
    ensures forall k :: 0 <= k < |LoadSpec(files).value.palettes| ==>
      |LoadSpec(files).value.palettes[k].colors| > 0 &&
      forall i :: 0 <= i < |LoadSpec(files).value.palettes[k].colors| ==>
        LoadSpec(files).value.palettes[k].colors[i].colorId == i
    decreases |files|
  {
    if files != [] {
      PalettesWellFormed(files[..|files| - 1]);
    }
  }

  /**
   * Once some file had a palette section, every later file adds a palette,
   * and its colours begin with the keys already in the parser: the parser is
   * never reset between files.
   */
  lemma AfterPaletteEveryFileCounts(st: Loaded, file: Option<seq<Section>>)
    requires HasSection(st.parser, PaletteSection)
    requires LoadStep(st, file).Success?
    ensures |LoadStep(st, file).value.palettes| == |st.palettes| + 1
    ensures Keys(SectionEntries(st.parser, PaletteSection)) <= Keys(SectionEntries(LoadStep(st, file).value.parser, PaletteSection))
    ensures |SectionEntries(st.parser, PaletteSection)| <= |LoadStep(st, file).value.palettes[|st.palettes|].colors|
  {
    ReadAccumulates(st.parser, file, PaletteSection);
    PaletteColorsParsed(SectionEntries(Read(st.parser, file), PaletteSection));
  }

  /** `min(max(raw, 0), count - 1)`: the clamp of the selected palette id. */
  function ClampPaletteId(raw: int, count: int): (id: int)
    ensures count >= 1 ==> 0 <= id < count
    ensures 0 <= raw < count ==> id == raw
    ensures count >= 1 && raw >= count ==> id == count - 1
    ensures raw < 0 && count >= 1 ==> id == 0
    ensures count == 0 ==> id == -1
  {
    var low := if raw > 0 then raw else 0;
    if low < count - 1 then low else count - 1
  }

  /** The over-range warning: fewer palettes than the raw id needs. */
  predicate OverRange(raw: int, count: int)
  {
    count < raw + 1
  }

  /** With at least one palette, the warning is given exactly when a non-negative raw id was lowered. */
  lemma WarningIffLowered(raw: int, count: int)
    requires count >= 1 && raw >= 0
    ensures OverRange(raw, count) <==> ClampPaletteId(raw, count) < raw
  {
  }

  /** Why `Config(...)` raises. */
  datatype ConfigError =
    | MissingBoardSection          // AssertionError
    | MissingKey(key: string)       // KeyError
    | NotAnInteger(key: string)     // ValueError from int()
    | Palette(cause: LoadError)     // ValueError from the palette loader

  datatype Config = Config(boardWidth: int, boardHeight: int, palettes: seq<ColorPalette>, colorPaletteId: int, warned: bool)

  /** `int(config["PIXELBOARD"][key])`. */
  function BoardInt(p: Parser, key: string): (r: Result<int, ConfigError>)
    ensures r.Success? <==> (Lookup(SectionEntries(p, BoardSection), key).Some? &&
      ParseInt(Lookup(SectionEntries(p, BoardSection), key).value).Some?)
  {
    match Lookup(SectionEntries(p, BoardSection), key)
    case None => Failure(MissingKey(key))
    case Some(v) =>
      match ParseInt(v)
      case None => Failure(NotAnInteger(key))
      case Some(n) => Success(n)
  }

  /** `Config.__init__`: the checks and reads in source order, the palettes loaded between them. */
  function ConfigSpec(configFile: Option<seq<Section>>, paletteFiles: seq<Option<seq<Section>>>): Result<Config, ConfigError>
  {
    var p := Read(EmptyParser, configFile);
    if !HasSection(p, BoardSection) then Failure(MissingBoardSection)
    else match (BoardInt(p, "width"), BoardInt(p, "height"))
      case (Failure(e), _) => Failure(e)
      case (_, Failure(e)) => Failure(e)
      case (Success(w), Success(h)) =>
        match LoadSpec(paletteFiles)
        case Failure(e) => Failure(Palette(e))
        case Success(st) =>
          match BoardInt(p, "color_palette_id")
          case Failure(e) => Failure(e)
          case Success(raw) =>
            Success(Config(w, h, st.palettes, ClampPaletteId(raw, |st.palettes|), OverRange(raw, |st.palettes|)))
  }

  /** Builds the configuration: an assertion on the board section, then the reads of source order. */
  method NewConfig(configFile: Option<seq<Section>>, paletteFiles: seq<Option<seq<Section>>>) returns (r: Result<Config, ConfigError>)
    ensures r == ConfigSpec(configFile, paletteFiles)
  {
    var p := Read(EmptyParser, configFile);
    if !HasSection(p, BoardSection) {
      return Failure(MissingBoardSection);
    }
    var width := BoardInt(p, "width");
    if width.Failure? {
      return Failure(width.error);
    }
    var height := BoardInt(p, "height");
    if height.Failure? {
      return Failure(height.error);
    }
    var palettes := LoadColorPalettes(paletteFiles);
    if palettes.Failure? {
      return Failure(Palette(palettes.error));
    }
    var raw := BoardInt(p, "color_palette_id");
    if raw.Failure? {
      return Failure(raw.error);
    }
    var count := |palettes.value|;
    r := Success(Config(width.value, height.value, palettes.value, ClampPaletteId(raw.value, count), OverRange(raw.value, count)));
  }

  /** A built configuration names a palette that exists whenever some palette was loaded. */
  lemma ConfigSelectsLoadedPalette(configFile: Option<seq<Section>>, paletteFiles: seq<Option<seq<Section>>>)
    requires ConfigSpec(configFile, paletteFiles).Success?
    requires |ConfigSpec(configFile, paletteFiles).value.palettes| > 0
    ensures 0 <= ConfigSpec(configFile, paletteFiles).value.colorPaletteId < |ConfigSpec(configFile, paletteFiles).value.palettes|
    ensures HasSection(Read(EmptyParser, configFile), BoardSection)
  {
  }
}
