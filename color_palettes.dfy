/** The palette value types of backend/internal/color_palettes.py. */
module ColorPalettes {
  import opened Common
  import opened Numerals

  /** A palette entry: its RGB value and its position in the palette. Equality is structural. */
  datatype Color = Color(hex: int, colorId: int)

  /** A palette: an id and its ordered colours. A datatype value, so it cannot be reassigned (frozen). */
  datatype ColorPalette = ColorPalette(id: int, colors: seq<Color>)

  /** `format(hex, 'X').zfill(6)`: upper-case hex, zero-filled after any sign to six characters. */
  function HexField(hex: int): string
  {
    ZFill(SignedDigits(hex, Hexadecimal, true), 6)
  }

  /** `str(Color(hex, id))`. */
  function ColorString(c: Color): string
  {
    "Color(#" + HexField(c.hex) + ", id:" + DecimalString(c.colorId) + ")"
  }

  /** Reads a rendering with a six-digit hex field back into a colour. */
  function ReadColorString(s: string): Option<Color>
  {
    if |s| >= 19 && s[..7] == "Color(#" && s[13..18] == ", id:" && s[|s| - 1] == ')' then
      match (ParseNat(s[7..13], Hexadecimal), ParseInt(s[18..|s| - 1]))
      case (Some(h), Some(i)) => Some(Color(h, i))
      case _ => None
    else None
  }

  /** For a 24-bit colour the hex field is exactly six upper-case digits, worth `hex`. */
  lemma HexFieldSix(hex: int)
    requires 0 <= hex <= 0xFFFFFF
    ensures |HexField(hex)| == 6
    ensures IsUpperHex(HexField(hex)) && AllDigits(HexField(hex), Hexadecimal)
    ensures Value(HexField(hex), Hexadecimal) == hex
  {
    var d := Digits(hex, Hexadecimal, true);
    assert Pow16(6) == 0x1000000;
    HexDigitsAtMost(hex, true, 6);
    DigitsValue(hex, Hexadecimal, true);
    PadLeftValue(d, 6, Hexadecimal);
    assert d[0] != '-' && d[0] != '+';
    PadLeftCase(d, 6);
    assert HexField(hex) == PadLeft(d, 6);
  }

  /** Above 0xFFFFFF the hex field is all the digits: nothing is truncated. */
  lemma HexFieldWide(hex: int)
    requires hex > 0xFFFFFF
    ensures HexField(hex) == Digits(hex, Hexadecimal, true)
    ensures |HexField(hex)| > 6
  {
    assert Pow16(6) == 0x1000000;
    HexDigitsMoreThan(hex, true, 6);
    var d := Digits(hex, Hexadecimal, true);
    assert d[0] != '-' && d[0] != '+';
  }

  /** A negative value keeps its sign in front, and the zeros go between sign and digits. */
  lemma HexFieldNegative(hex: int)
    requires hex < 0
    ensures HexField(hex) == "-" + PadLeft(Digits(-hex, Hexadecimal, true), 5)
  {
    var s := SignedDigits(hex, Hexadecimal, true);
    assert s[1..] == Digits(-hex, Hexadecimal, true);
  }

  /** Rendering a 24-bit colour and reading it back gives the colour: a round trip. */
  lemma ColorStringRoundTrip(c: Color)
    requires 0 <= c.hex <= 0xFFFFFF
    ensures ReadColorString(ColorString(c)) == Some(c)
  {
    HexFieldSix(c.hex);
    DecimalRoundTrip(c.colorId);
    var f := HexField(c.hex);
    var d := DecimalString(c.colorId);
    var s := ColorString(c);
    assert s == "Color(#" + f + ", id:" + d + ")";
    assert s[..7] == "Color(#";
    assert s[7..13] == f;
    assert s[13..18] == ", id:";
    assert s[18..|s| - 1] == d;
  }
}
