/**
 * The earlier configuration loader, backend/config.py: hex-only colours, a
 * palette check that raises instead of skipping, no fallback colours, and a
 * palette-id clamp against the palette count itself.
 */
module LegacyConfig {
  import opened Common
  import opened Numerals
  import opened Ini
  import PaletteConfig

  /** The colour of backend/color_palettes.py: a hex value and nothing else. */
  datatype LegacyColor = LegacyColor(hex: int)

  datatype LegacyPalette = LegacyPalette(id: int, colors: seq<LegacyColor>)

  /** Why the legacy loader raises; the AssertionError is not the IOError it catches. */
  datatype LegacyError = MissingPaletteSection | BadHex(key: string, value: string)

  /** The comprehension of backend/config.py: one hex-only colour per key, in key order. */
  function LegacyColors(entries: seq<Entry>): Result<seq<LegacyColor>, LegacyError>
  {
    match ParseValues(entries, ParseHexInt)
    case Failure(e) => Failure(BadHex(e.key, e.value))
    case Success(hs) => Success(seq(|hs|, i requires 0 <= i < |hs| => LegacyColor(hs[i])))
  }

  /** Succeeds exactly when every value is hex, and then holds one colour per key in key order. */
  lemma LegacyColorsParsed(entries: seq<Entry>)
    ensures LegacyColors(entries).Success? <==> forall i :: 0 <= i < |entries| ==> ParseHexInt(entries[i].value).Some?
    ensures LegacyColors(entries).Success? ==> (|LegacyColors(entries).value| == |entries| &&
      forall i :: 0 <= i < |entries| ==> LegacyColors(entries).value[i] == LegacyColor(ParseHexInt(entries[i].value).value))
    ensures LegacyColors(entries).Failure? ==>
      exists i :: 0 <= i < |entries| &&
        LegacyColors(entries).error == BadHex(entries[i].key, entries[i].value) && ParseHexInt(entries[i].value).None? &&
        forall j :: 0 <= j < i ==> ParseHexInt(entries[j].value).Some?
  {
    ParseValuesSpec(entries, ParseHexInt);
  }

  datatype LegacyLoaded = LegacyLoaded(parser: Parser, palettes: seq<LegacyPalette>)

  /** One file: read, assert the palette section, then number and add the palette. */
  function LegacyStep(st: LegacyLoaded, file: Option<seq<Section>>): Result<LegacyLoaded, LegacyError>
  {
    var p := Read(st.parser, file);
    if !HasSection(p, PaletteConfig.PaletteSection) then Failure(MissingPaletteSection)
    else
      match LegacyColors(SectionEntries(p, PaletteConfig.PaletteSection))
      case Failure(e) => Failure(e)
      case Success(cs) => Success(LegacyLoaded(p, st.palettes + [LegacyPalette(|st.palettes|, cs)]))
  }

  function LegacySpec(files: seq<Option<seq<Section>>>): Result<LegacyLoaded, LegacyError>
    decreases |files|
  {
    if files == [] then Success(LegacyLoaded(EmptyParser, []))
    else
      match LegacySpec(files[..|files| - 1])
      case Failure(e) => Failure(e)
      case Success(st) => LegacyStep(st, files[|files| - 1])
  }

  lemma {:induction false} LegacySpecFailureSticks(files: seq<Option<seq<Section>>>, k: nat)
    requires k <= |files| && LegacySpec(files[..k]).Failure?
    ensures LegacySpec(files) == LegacySpec(files[..k])
    decreases |files| - k
  {
    if k < |files| {
      assert files[..k + 1][..k] == files[..k];
      LegacySpecFailureSticks(files, k + 1);
    } else {
      assert files[..k] == files;
    }
  }

  /** The legacy `load_color_palettes`: the id goes up only once the assertion has passed. */
  method LegacyLoadColorPalettes(files: seq<Option<seq<Section>>>) returns (r: Result<seq<LegacyPalette>, LegacyError>)
    ensures r.Success? <==> LegacySpec(files).Success?
    ensures r.Success? ==> r.value == LegacySpec(files).value.palettes
    ensures r.Failure? ==> r.error == LegacySpec(files).error
  {
    var parser := EmptyParser;
    var palettes: seq<LegacyPalette> := [];
    var id := -1;
    var k := 0;
    while k < |files|
      invariant 0 <= k <= |files|
      invariant id == |palettes| - 1
      invariant LegacySpec(files[..k]) == Success(LegacyLoaded(parser, palettes))
    {
      assert files[..k + 1][..k] == files[..k];
      ghost var before := LegacyLoaded(parser, palettes);
      assert LegacySpec(files[..k + 1]) == LegacyStep(before, files[k]);
      parser := Read(parser, files[k]);
      if !HasSection(parser, PaletteConfig.PaletteSection) {
        LegacySpecFailureSticks(files, k + 1);
        return Failure(MissingPaletteSection);
      }
      id := id + 1;
      var colors := LegacyColors(SectionEntries(parser, PaletteConfig.PaletteSection));
      if colors.Failure? {
        LegacySpecFailureSticks(files, k + 1);
        return Failure(colors.error);
      }
      palettes := palettes + [LegacyPalette(id, colors.value)];
      k := k + 1;
    }
    assert files[..k] == files;
    return Success(palettes);
  }

  /** Legacy palettes are numbered 0, 1, 2, ... in file order. */
  lemma {:induction false} LegacyIdsConsecutive(files: seq<Option<seq<Section>>>)
    requires LegacySpec(files).Success?
    ensures |LegacySpec(files).value.palettes| == |files|
    ensures forall k :: 0 <= k < |files| ==> LegacySpec(files).value.palettes[k].id == k
    decreases |files|
  {
    if files != [] {
      LegacyIdsConsecutive(files[..|files| - 1]);
    }
  }

  /** A file after which the parser still has no palette section makes the whole load raise. */
  lemma MissingSectionRaises(files: seq<Option<seq<Section>>>, k: nat)
    requires k < |files| && LegacySpec(files[..k]).Success?
    requires !HasSection(Read(LegacySpec(files[..k]).value.parser, files[k]), PaletteConfig.PaletteSection)
    ensures LegacySpec(files) == Failure(MissingPaletteSection)
  {
    var st := LegacySpec(files[..k]).value;
    assert LegacySpec(files[..k + 1]) == Failure(MissingPaletteSection) by {
      assert files[..k + 1][..k] == files[..k];
      assert LegacyStep(st, files[k]) == Failure(MissingPaletteSection);
    }
    LegacySpecFailureSticks(files, k + 1);
  }

  /** Keys from earlier files stay at the head of every later palette. */
  lemma LegacyKeysAccumulate(st: LegacyLoaded, file: Option<seq<Section>>)
    requires HasSection(st.parser, PaletteConfig.PaletteSection)
    requires LegacyStep(st, file).Success?
    ensures Keys(SectionEntries(st.parser, PaletteConfig.PaletteSection)) <=
      Keys(SectionEntries(LegacyStep(st, file).value.parser, PaletteConfig.PaletteSection))
    ensures |SectionEntries(st.parser, PaletteConfig.PaletteSection)| <=
      |LegacyStep(st, file).value.palettes[|st.palettes|].colors|
  {
    ReadAccumulates(st.parser, file, PaletteConfig.PaletteSection);
    LegacyColorsParsed(SectionEntries(Read(st.parser, file), PaletteConfig.PaletteSection));
  }

  /** `min(max(raw, 0), len(palettes))`, as written: the bound is the count, not the last index. */
  function LegacyClampPaletteId(raw: int, count: nat): (id: int)
    ensures 0 <= id <= count
    ensures 0 <= raw <= count ==> id == raw
    ensures raw >= count ==> id == count
  {
    var low := if raw > 0 then raw else 0;
    if low < count then low else count
  }

  /** Too large an id clamps to one past the last palette, which `palettes[id]` cannot index. */
  lemma LegacyClampOverflows(raw: int, count: nat)
    requires raw >= count
    ensures LegacyClampPaletteId(raw, count) == count
    ensures !(0 <= LegacyClampPaletteId(raw, count) < count)
    ensures count >= 1 ==> PaletteConfig.ClampPaletteId(raw, count) == count - 1
  {
  }

  datatype LegacyConfigError = MissingBoardSection | ConfigKey(key: string) | PaletteLoad(cause: LegacyError)

  datatype LegacyConfigValues = LegacyConfigValues(boardWidth: int, boardHeight: int, palettes: seq<LegacyPalette>, colorPaletteId: int)

  function LegacyInt(p: Parser, key: string): Result<int, LegacyConfigError>
  {
    match PaletteConfig.BoardInt(p, key)
    case Failure(_) => Failure(ConfigKey(key))
    case Success(n) => Success(n)
  }

  /** The legacy `Config.__init__`: the palettes load before the board keys are read. */
  function LegacyConfigSpec(configFile: Option<seq<Section>>, paletteFiles: seq<Option<seq<Section>>>): Result<LegacyConfigValues, LegacyConfigError>
  {
    var p := Read(EmptyParser, configFile);
    if !HasSection(p, PaletteConfig.BoardSection) then Failure(MissingBoardSection)
    else match LegacySpec(paletteFiles)
      case Failure(e) => Failure(PaletteLoad(e))
      case Success(st) =>
        match (LegacyInt(p, "width"), LegacyInt(p, "height"), LegacyInt(p, "color_palette_id"))
        case (Failure(e), _, _) => Failure(e)
        case (_, Failure(e), _) => Failure(e)
        case (_, _, Failure(e)) => Failure(e)
        case (Success(w), Success(h), Success(raw)) =>
          Success(LegacyConfigValues(w, h, st.palettes, LegacyClampPaletteId(raw, |st.palettes|)))
  }

  method NewLegacyConfig(configFile: Option<seq<Section>>, paletteFiles: seq<Option<seq<Section>>>) returns (r: Result<LegacyConfigValues, LegacyConfigError>)
    ensures r == LegacyConfigSpec(configFile, paletteFiles)
  {
    var p := Read(EmptyParser, configFile);
    if !HasSection(p, PaletteConfig.BoardSection) {
      return Failure(MissingBoardSection);
    }
    var palettes := LegacyLoadColorPalettes(paletteFiles);
    if palettes.Failure? {
      return Failure(PaletteLoad(palettes.error));
    }
    var width := LegacyInt(p, "width");
    if width.Failure? {
      return Failure(width.error);
    }
    var height := LegacyInt(p, "height");
    if height.Failure? {
      return Failure(height.error);
    }
    var raw := LegacyInt(p, "color_palette_id");
    if raw.Failure? {
      return Failure(raw.error);
    }
    r := Success(LegacyConfigValues(width.value, height.value, palettes.value, LegacyClampPaletteId(raw.value, |palettes.value|)));
  }
}
