/**
 * The number/text conversions the source relies on from its languages' runtimes:
 * Python's `format(n, 'X')`, `hex`, `str`, `int(s)`, `int(s, 16)`, `str.zfill`,
 * `bytes.fromhex` and `int.from_bytes(..., 'big')`, and JavaScript's
 * `Number.prototype.toString(16)`, `String(n)` and unary `+`, all on integers.
 */
module Numerals {
  import opened Common

  newtype byte = x: int | 0 <= x < 256

  /** The two bases the source prints and parses numbers in. */
  datatype Radix = Decimal | Hexadecimal {
    function Base(): nat {
      if Decimal? then 10 else 16
    }
  }

  function Pow16(k: nat): (r: nat)
    ensures r >= 1
  {
    if k == 0 then 1 else 16 * Pow16(k - 1)
  }

  /** The character of digit `d` (0..15); letters in upper or lower case. */
  function DigitChar(d: nat, upper: bool): char
    requires d < 16
  {
    if d < 10 then ('0' as int + d) as char
    else if upper then ('A' as int + (d - 10)) as char
    else ('a' as int + (d - 10)) as char
  }

  /** The value of a decimal or hexadecimal digit character of either case. */
  function DigitValue(c: char): Option<nat>
  {
    if '0' <= c <= '9' then Some(c as int - '0' as int)
    else if 'a' <= c <= 'f' then Some(c as int - 'a' as int + 10)
    else if 'A' <= c <= 'F' then Some(c as int - 'A' as int + 10)
    else None
  }

  predicate IsDigit(c: char, r: Radix)
  {
    DigitValue(c).Some? && DigitValue(c).value < r.Base()
  }

  predicate AllDigits(s: string, r: Radix)
  {
    forall i :: 0 <= i < |s| ==> IsDigit(s[i], r)
  }

  /** Hexadecimal digits written with `0-9` and `A-F` only. */
  predicate IsUpperHex(s: string)
  {
    forall i :: 0 <= i < |s| ==> '0' <= s[i] <= '9' || 'A' <= s[i] <= 'F'
  }

  /** Hexadecimal digits written with `0-9` and `a-f` only. */
  predicate IsLowerHex(s: string)
  {
    forall i :: 0 <= i < |s| ==> '0' <= s[i] <= '9' || 'a' <= s[i] <= 'f'
  }

  /** Digits of `n`, most significant first, no leading zeros ("0" for zero). */
  function Digits(n: nat, r: Radix, upper: bool): (s: string)
    ensures |s| >= 1 && AllDigits(s, r)
    ensures upper ==> IsUpperHex(s)
    ensures !upper ==> IsLowerHex(s)
    decreases n
  {
    var b := r.Base();
    if n < b then
      DigitCharValue(n, upper);
      [DigitChar(n, upper)]
    else
      var high, c := Digits(n / b, r, upper), DigitChar(n % b, upper);
      DigitCharValue(n % b, upper);
      AppendDigit(high, c, r, upper);
      high + [c]
  }

  /** Appending one more digit of the same case keeps a digit string one. */
  lemma AppendDigit(s: string, c: char, r: Radix, upper: bool)
    requires AllDigits(s, r) && IsDigit(c, r)
    requires upper ==> IsUpperHex(s) && ('0' <= c <= '9' || 'A' <= c <= 'F')
    requires !upper ==> IsLowerHex(s) && ('0' <= c <= '9' || 'a' <= c <= 'f')
    ensures AllDigits(s + [c], r)
    ensures upper ==> IsUpperHex(s + [c])
    ensures !upper ==> IsLowerHex(s + [c])
  {
  }

  /** The value of a string of digits, most significant first ("" is 0). */
  function Value(s: string, r: Radix): nat
    requires AllDigits(s, r)
  {
    if s == [] then 0 else Value(s[..|s| - 1], r) * r.Base() + DigitValue(s[|s| - 1]).value
  }

  /** A sign for negative numbers, then the digits of the magnitude. */
  function SignedDigits(n: int, r: Radix, upper: bool): string
  {
    if n < 0 then "-" + Digits(-n, r, upper) else Digits(n, r, upper)
  }

  /** Python's `str(n)` and JavaScript's `String(n)` of an integer. */
  function DecimalString(n: int): string
  {
    SignedDigits(n, Decimal, false)
  }

  function Zeros(k: nat): (z: string)
    ensures |z| == k && forall i :: 0 <= i < k ==> z[i] == '0'
  {
    seq(k, _ => '0')
  }

  /** Prefixes zeros until `s` is at least `width` long. */
  function PadLeft(s: string, width: nat): string
  {
    if |s| >= width then s else Zeros(width - |s|) + s
  }

  /** Python's `str.zfill`: like PadLeft, but a leading sign stays in front of the zeros. */
  function ZFill(s: string, width: nat): string
  {
    if width > 0 && |s| > 0 && (s[0] == '-' || s[0] == '+') then [s[0]] + PadLeft(s[1..], width - 1)
    else PadLeft(s, width)
  }

  /** A non-empty run of digits. */
  function ParseNat(s: string, r: Radix): Option<nat>
  {
    if s != [] && AllDigits(s, r) then Some(Value(s, r)) else None
  }

  /** An optional sign followed by decimal digits (the forms `int(s)` and unary `+` share). */
  function ParseInt(s: string): Option<int>
  {
    if |s| > 0 && (s[0] == '-' || s[0] == '+') then
      match ParseNat(s[1..], Decimal)
      case None => None
      case Some(v) => if s[0] == '-' then Some(-(v as int)) else Some(v as int)
    else
      match ParseNat(s, Decimal)
      case None => None
      case Some(v) => Some(v as int)
  }

  /** Python's `int(s, 16)`: an optional sign, an optional `0x` prefix, then hex digits of either case. */
  function ParseHexInt(s: string): Option<int>
  {
    var signed := |s| > 0 && (s[0] == '-' || s[0] == '+');
    var t := if signed then s[1..] else s;
    var u := if |t| >= 2 && t[0] == '0' && (t[1] == 'x' || t[1] == 'X') then t[2..] else t;
    match ParseNat(u, Hexadecimal)
    case None => None
    case Some(v) => if signed && s[0] == '-' then Some(-(v as int)) else Some(v as int)
  }

  /** The hex digits of n, of either case and with or without a `0x` prefix, parse back to n. */
  lemma HexRoundTrip(n: nat, upper: bool)
    ensures ParseHexInt(Digits(n, Hexadecimal, upper)) == Some(n)
    ensures ParseHexInt("0x" + Digits(n, Hexadecimal, upper)) == Some(n)
  {
    DigitsValue(n, Hexadecimal, upper);
    var d := Digits(n, Hexadecimal, upper);
    ParsePlainHex(d);
    ParsePrefixedHex(d);
  }

  lemma ParsePlainHex(d: string)
    requires |d| >= 1 && AllDigits(d, Hexadecimal)
    ensures ParseHexInt(d) == Some(Value(d, Hexadecimal) as int)
  {
    assert IsDigit(d[0], Hexadecimal);
    assert |d| >= 2 ==> IsDigit(d[1], Hexadecimal);
  }

  lemma ParsePrefixedHex(d: string)
    requires |d| >= 1 && AllDigits(d, Hexadecimal)
    ensures ParseHexInt("0x" + d) == Some(Value(d, Hexadecimal) as int)
  {
    assert ("0x" + d)[2..] == d;
  }

  /** Pairs of hex digits as bytes, the first pair first. */
  function HexPairs(s: string): (bs: seq<byte>)
    requires |s| % 2 == 0 && AllDigits(s, Hexadecimal)
    ensures |bs| == |s| / 2
    decreases |s|
  {
    if s == [] then []
    else HexPairs(s[..|s| - 2]) + [(DigitValue(s[|s| - 2]).value * 16 + DigitValue(s[|s| - 1]).value) as byte]
  }

  /** Python's `bytes.fromhex` on a string without spaces: ValueError unless it is pairs of hex digits. */
  function FromHex(s: string): Option<seq<byte>>
  {
    if |s| % 2 == 0 && AllDigits(s, Hexadecimal) then Some(HexPairs(s)) else None
  }

  /** Python's `int.from_bytes(bs, byteorder='big')`. */
  function FromBytesBE(bs: seq<byte>): nat
  {
    if bs == [] then 0 else FromBytesBE(bs[..|bs| - 1]) * 256 + bs[|bs| - 1] as int
  }

  // ---------------------------------------------------------------------------
  // Properties

  lemma DigitCharValue(d: nat, upper: bool)
    requires d < 16
    ensures DigitValue(DigitChar(d, upper)) == Some(d)
    ensures upper ==> '0' <= DigitChar(d, upper) <= '9' || 'A' <= DigitChar(d, upper) <= 'F'
    ensures !upper ==> '0' <= DigitChar(d, upper) <= '9' || 'a' <= DigitChar(d, upper) <= 'f'
  {
  }

  lemma DivMod(n: nat, r: Radix)
    ensures n == (n / r.Base()) * r.Base() + n % r.Base()
  {
    if r == Decimal {
      assert n == (n / 10) * 10 + n % 10;
    } else {
      assert n == (n / 16) * 16 + n % 16;
    }
  }

  /** Digits(n) read back with Value is n: a round trip. */
  lemma {:induction false} DigitsValue(n: nat, r: Radix, upper: bool)
    ensures Value(Digits(n, r, upper), r) == n
    decreases n
  {
    var b := r.Base();
    if n >= b {
      var q, m := n / b, n % b;
      calc {
        Value(Digits(n, r, upper), r);
        == { DigitsStep(n, r, upper); }
        Value(Digits(q, r, upper), r) * b + m;
        == { DigitsValue(q, r, upper); }
        q * b + m;
        == { DivMod(n, r); }
        n;
      }
    } else {
      var s := Digits(n, r, upper);
      DigitCharValue(n, upper);
      assert s[..|s| - 1] == [];
    }
  }

  /** The last digit of n is n's remainder; the digits before it are those of the quotient. */
  lemma DigitsStep(n: nat, r: Radix, upper: bool)
    requires n >= r.Base()
    ensures Value(Digits(n, r, upper), r) == Value(Digits(n / r.Base(), r, upper), r) * r.Base() + n % r.Base()
  {
    var s := Digits(n, r, upper);
    var d := Digits(n / r.Base(), r, upper);
    var c := DigitChar(n % r.Base(), upper);
    DigitCharValue(n % r.Base(), upper);
    assert s == d + [c];
    assert s[..|s| - 1] == d && s[|s| - 1] == c;
  }

  /** A number below 16^k has at most k hex digits. */
  lemma {:induction false} HexDigitsAtMost(n: nat, upper: bool, k: nat)
    requires k >= 1 && n < Pow16(k)
    ensures |Digits(n, Hexadecimal, upper)| <= k
    decreases n
  {
    if n >= 16 {
      assert k - 1 >= 1;
      HexDigitsAtMost(n / 16, upper, k - 1);
    }
  }

  /** A number at least 16^k has more than k hex digits. */
  lemma {:induction false} HexDigitsMoreThan(n: nat, upper: bool, k: nat)
    requires n >= Pow16(k)
    ensures |Digits(n, Hexadecimal, upper)| > k
    decreases n
  {
    if k > 0 {
      HexDigitsMoreThan(n / 16, upper, k - 1);
    }
  }

  /** Leading zeros do not change a digit string's value. */
  lemma {:induction false} ZerosValue(k: nat, s: string, r: Radix)
    requires AllDigits(s, r)
    ensures AllDigits(Zeros(k) + s, r)
    ensures Value(Zeros(k) + s, r) == Value(s, r)
    decreases |s|
  {
    var z := Zeros(k);
    assert AllDigits(z + s, r) by {
      forall i | 0 <= i < |z + s| ensures IsDigit((z + s)[i], r) {
        if i < k {
          assert (z + s)[i] == '0';
        } else {
          assert (z + s)[i] == s[i - k];
        }
      }
    }
    if s == [] {
      assert z + s == z;
      ZerosOnlyValue(k, r);
    } else {
      assert (z + s)[..|z + s| - 1] == z + s[..|s| - 1];
      ZerosValue(k, s[..|s| - 1], r);
    }
  }

  lemma {:induction false} ZerosOnlyValue(k: nat, r: Radix)
    ensures AllDigits(Zeros(k), r) && Value(Zeros(k), r) == 0
  {
    if k > 0 {
      assert Zeros(k)[..k - 1] == Zeros(k - 1);
      ZerosOnlyValue(k - 1, r);
    }
  }

  /** Padding a digit string keeps its digits and value, and gives it at least `width` characters. */
  lemma PadLeftValue(s: string, width: nat, r: Radix)
    requires AllDigits(s, r)
    ensures |PadLeft(s, width)| == if |s| >= width then |s| else width
    ensures AllDigits(PadLeft(s, width), r)
    ensures Value(PadLeft(s, width), r) == Value(s, r)
  {
    if |s| < width {
      ZerosValue(width - |s|, s, r);
    }
  }

  /** Padding with zeros keeps the letters of hex digits in the case they were written in. */
  lemma PadLeftCase(s: string, width: nat)
    ensures IsLowerHex(s) ==> IsLowerHex(PadLeft(s, width))
    ensures IsUpperHex(s) ==> IsUpperHex(PadLeft(s, width))
  {
    if |s| < width {
      var z := Zeros(width - |s|);
      var f := z + s;
      assert forall i :: |z| <= i < |f| ==> f[i] == s[i - |z|];
      assert forall i :: 0 <= i < |z| ==> f[i] == '0';
    }
  }

  /** The decimal digits of an integer contain no comma and parse back to it: a round trip. */
  lemma DecimalRoundTrip(n: int)
    ensures ',' !in DecimalString(n)
    ensures |DecimalString(n)| >= 1
    ensures ParseInt(DecimalString(n)) == Some(n)
  {
    var m: nat := if n < 0 then -n else n;
    DigitsValue(m, Decimal, false);
    var d := Digits(m, Decimal, false);
    DecimalDigitsParse(d);
  }

  /** A run of decimal digits, bare or after a minus sign, has no comma and parses to its (negated) value. */
  lemma DecimalDigitsParse(d: string)
    requires |d| >= 1 && AllDigits(d, Decimal)
    ensures ',' !in d && ',' !in "-" + d
    ensures ParseInt(d) == Some(Value(d, Decimal) as int)
    ensures ParseInt("-" + d) == Some(-(Value(d, Decimal) as int))
  {
    assert forall i :: 0 <= i < |d| ==> IsDigit(d[i], Decimal);
    assert IsDigit(d[0], Decimal);
    assert ("-" + d)[1..] == d;
  }

  /** bytes.fromhex then int.from_bytes reads a hex digit string back as its value. */
  lemma {:induction false} HexPairsValue(s: string)
    requires |s| % 2 == 0 && AllDigits(s, Hexadecimal)
    ensures FromBytesBE(HexPairs(s)) == Value(s, Hexadecimal)
    decreases |s|
  {
    if s != [] {
      var n := |s|;
      var t := s[..n - 2];
      HexPairsValue(t);
      var bs := HexPairs(s);
      assert bs[..|bs| - 1] == HexPairs(t);
      assert s[..n - 1][..n - 2] == t;
    }
  }

  /** The value of the first k hex digits is the whole value divided by 16^(|s| - k). */
  lemma {:induction false} HexPrefixValue(s: string, k: nat)
    requires AllDigits(s, Hexadecimal) && k <= |s|
    ensures AllDigits(s[..k], Hexadecimal)
    ensures Value(s[..k], Hexadecimal) == Value(s, Hexadecimal) / Pow16(|s| - k)
    decreases |s| - k
  {
    if k == |s| {
      assert s[..k] == s;
    } else {
      var t := s[..|s| - 1];
      HexPrefixValue(t, k);
      assert t[..k] == s[..k];
      var p := Pow16(|t| - k);
      var d := DigitValue(s[|s| - 1]).value;
      assert Value(s, Hexadecimal) == Value(t, Hexadecimal) * 16 + d;
      assert Pow16(|s| - k) == 16 * p;
      DivStep(Value(t, Hexadecimal), d, p);
    }
  }

  lemma DivStep(v: nat, d: nat, p: nat)
    requires d < 16 && p >= 1
    ensures (v * 16 + d) / (16 * p) == v / p
  {
    var q := v / p;
    var r := v % p;
    assert v == q * p + r && 0 <= r < p;
    var x := v * 16 + d;
    assert x == q * (16 * p) + (r * 16 + d);
    assert r * 16 + d < 16 * p;
    DivUnique(x, 16 * p, q, r * 16 + d);
  }

  lemma DivBelow(n: nat, b: nat, p: nat)
    requires b >= 1 && n < b * p
    ensures n / b < p
  {
    var q := n / b;
    assert q * b <= n;
    assert (p - q) * b == p * b - q * b;
  }

  lemma DivAbove(n: nat, b: nat, p: nat)
    requires b >= 1 && n >= b * p
    ensures n / b >= p
  {
    var q := n / b;
    assert n < q * b + b;
    assert (q + 1 - p) * b == q * b + b - p * b;
  }

  lemma DivUnique(x: nat, m: nat, q: nat, r: nat)
    requires m >= 1 && x == q * m + r && r < m
    ensures x / m == q
  {
    DivAbove(x, m, q);
    DivBelow(x, m, q + 1);
  }
}
