/** The JavaScript conversions from text to numbers the application uses:
    `parseInt` (with and without radix 10), `parseFloat` and `Number(...)`.
    Values are exact: a finite result is a mathematical integer or real, so
    the rounding of IEEE doubles is not modelled. */
module JsNumber {
  import opened Wrappers
  import opened JsText

  /** A JavaScript number as far as the application observes it. */
  datatype Num = NaN | Fin(v: real) | Inf(negative: bool)

  /** `isNaN(n)`. */
  predicate IsNaN(n: Num) {
    n.NaN?
  }

  /** `n <= 0`: false for NaN. */
  predicate AtMostZero(n: Num) {
    match n
    case NaN => false
    case Fin(v) => v <= 0.0
    case Inf(neg) => neg
  }

  /** `n < 0`: false for NaN. */
  predicate BelowZero(n: Num) {
    match n
    case NaN => false
    case Fin(v) => v < 0.0
    case Inf(neg) => neg
  }

  /** The value of a digit character in the given radix, or -1. */
  function DigitValue(c: char, radix: int): (d: int)
    ensures d == -1 || 0 <= d < radix
  {
    var v := if '0' <= c <= '9' then c as int - '0' as int
             else if 'a' <= c <= 'z' then c as int - 'a' as int + 10
             else if 'A' <= c <= 'Z' then c as int - 'A' as int + 10
             else -1;
    if 0 <= v < radix then v else -1
  }

  /** The length of the longest prefix of `s` made of digits of the radix. */
  function DigitRun(s: string, radix: int): (k: nat)
    ensures k <= |s|
    decreases |s|
  {
    if |s| > 0 && DigitValue(s[0], radix) >= 0 then 1 + DigitRun(s[1..], radix) else 0
  }

  /** Every character of the run is a digit. */
  lemma {:induction false} DigitRunIsDigits(s: string, radix: int, i: int)
    requires 0 <= i < DigitRun(s, radix)
    ensures DigitValue(s[i], radix) >= 0
    decreases i
  {
    if i > 0 {
      DigitRunIsDigits(s[1..], radix, i - 1);
    }
  }

  /** The value of a digit string in the given radix, most significant digit first. */
  function DigitsValue(ds: string, radix: Radix): (v: nat)
    decreases |ds|
  {
    if |ds| == 0 then 0
    else
      var d := DigitValue(ds[|ds| - 1], radix);
      Shift(DigitsValue(ds[..|ds| - 1], radix), radix) + (if d < 0 then 0 else d)
  }

  /** The radices the readers use. */
  type Radix = r: nat | r == 2 || r == 8 || r == 10 || r == 16 witness 10

  /** `v * radix`, spelt out per radix so that it stays linear. */
  function Shift(v: nat, radix: Radix): nat {
    if radix == 10 then v * 10 else if radix == 16 then v * 16 else if radix == 8 then v * 8 else v * 2
  }

  /** The sign and the rest of a numeral, for an optional leading `+` or `-`. */
  function StripSign(t: string): (bool, string) {
    if |t| > 0 && (t[0] == '-' || t[0] == '+') then (t[0] == '-', t[1..]) else (false, t)
  }

  /** `parseInt(s)` (`autoRadix`) or `parseInt(s, 10)`: leading white space and one
      sign are skipped; without an explicit radix a `0x`/`0X` prefix selects
      hexadecimal; the longest run of digits that follows is read, and NaN
      (`None`) results when there is none. */
  function ParseIntWith(s: string, autoRadix: bool): Option<int> {
    var (negative, u) := StripSign(TrimStart(s));
    var hex := autoRadix && |u| >= 2 && u[0] == '0' && (u[1] == 'x' || u[1] == 'X');
    var radix := if hex then 16 else 10;
    var body := if hex then u[2..] else u;
    var k := DigitRun(body, radix);
    if k == 0 then None
    else
      var n: int := DigitsValue(body[..k], radix);
      Some(if negative then -n else n)
  }

  /** `parseInt(s)`. */
  function ParseInt(s: string): Option<int> {
    ParseIntWith(s, true)
  }

  /** `parseInt(s, 10)`. */
  function ParseInt10(s: string): Option<int> {
    ParseIntWith(s, false)
  }

  /** Reading back the decimal rendering of `n` gives `n`. */
  lemma {:induction false} DigitsValueShowNat(n: nat)
    ensures DigitRun(ShowNat(n), 10) == |ShowNat(n)|
    ensures DigitsValue(ShowNat(n), 10) == n
    decreases n
  {
    if n >= 10 {
      DigitsValueShowNat(n / 10);
      var s := ShowNat(n);
      assert s[..|s| - 1] == ShowNat(n / 10);
      DigitRunAll(s, 10);
    }
  }

  /** A string made only of digits is one run of digits. */
  lemma {:induction false} DigitRunAll(s: string, radix: int)
    requires forall i :: 0 <= i < |s| ==> IsDigit(s[i])
    requires radix >= 10
    ensures DigitRun(s, radix) == |s|
    decreases |s|
  {
    if |s| > 0 {
      DigitRunAll(s[1..], radix);
    }
  }

  /** Leading zeros do not change the value of a digit string. */
  lemma {:induction false} LeadingZeros(k: nat, s: string, radix: Radix)
    ensures DigitsValue(Repeat('0', k) + s, radix) == DigitsValue(s, radix)
    decreases |s|
  {
    if |s| == 0 {
      ZerosValue(k, radix);
      assert Repeat('0', k) + s == Repeat('0', k);
    } else {
      var t := Repeat('0', k) + s;
      assert t[..|t| - 1] == Repeat('0', k) + s[..|s| - 1];
      LeadingZeros(k, s[..|s| - 1], radix);
    }
  }

  /** A string of zeros is worth zero. */
  lemma {:induction false} ZerosValue(k: nat, radix: Radix)
    ensures DigitsValue(Repeat('0', k), radix) == 0
    decreases k
  {
    if k > 0 {
      assert Repeat('0', k)[..k - 1] == Repeat('0', k - 1);
      ZerosValue(k - 1, radix);
    }
  }

  /** A non-empty string of decimal digits is read whole by both forms of
      `parseInt`. */
  lemma ParseAllDigits(p: string)
    requires |p| > 0 && forall i :: 0 <= i < |p| ==> IsDigit(p[i])
    ensures ParseInt10(p) == Some(DigitsValue(p, 10))
    ensures ParseInt(p) == Some(DigitsValue(p, 10))
  {
    ParseAllDigitsWith(p, false);
    ParseAllDigitsWith(p, true);
  }

  /** `ParseAllDigits` for either form. */
  lemma ParseAllDigitsWith(p: string, autoRadix: bool)
    requires |p| > 0 && forall i :: 0 <= i < |p| ==> IsDigit(p[i])
    ensures ParseIntWith(p, autoRadix) == Some(DigitsValue(p, 10))
  {
    assert !IsSpace(p[0]);
    assert TrimStart(p) == p;
    assert StripSign(p) == (false, p);
    assert !(|p| >= 2 && p[0] == '0' && (p[1] == 'x' || p[1] == 'X'));
    DigitRunAll(p, 10);
    assert p[..|p|] == p;
  }

  /** `parseInt(String(n).padStart(w, '0'), 10)` and `parseInt` without radix both
      read back `n`. */
  lemma ParseShowNat(n: nat, w: nat)
    ensures ParseInt10(PadStart(ShowNat(n), w, '0')) == Some(n)
    ensures ParseInt(PadStart(ShowNat(n), w, '0')) == Some(n)
  {
    var s := ShowNat(n);
    var p := PadStart(s, w, '0');
    var z := |p| - |s|;
    assert p == Repeat('0', z) + s;
    forall i | 0 <= i < |p| ensures IsDigit(p[i]) {
      if i >= z { assert p[i] == s[i - z]; }
    }
    ParseAllDigits(p);
    DigitsValueShowNat(n);
    LeadingZeros(z, s, 10);
  }

  /** Reading back the plain decimal rendering of `n` gives `n`. */
  lemma ParseShowNatPlain(n: nat)
    ensures ParseInt10(ShowNat(n)) == Some(n)
  {
    ParseShowNat(n, 0);
    assert PadStart(ShowNat(n), 0, '0') == ShowNat(n);
  }

  // ---------------------------------------------------------------------------
  // Decimal literals: `parseFloat` and `Number(...)`

  /** 10 raised to `n`. */
  function Pow10(n: nat): (p: real)
    ensures p >= 1.0
  {
    if n == 0 then 1.0 else 10.0 * Pow10(n - 1)
  }

  /** `m` times 10 raised to `e`. */
  function Scale(m: real, e: int): (r: real)
    ensures m >= 0.0 ==> r >= 0.0
    ensures m == 0.0 ==> r == 0.0
  {
    if e >= 0 then m * Pow10(e) else m / Pow10(-e)
  }

  /** The value of the digits after a decimal point. */
  function Fraction(ds: string): (f: real)
    ensures f >= 0.0
  {
    var n := DigitsValue(ds, 10);
    var p := Pow10(|ds|);
    n as real / p
  }

  /** The length of the digits-and-fraction part at the start of `u`
      (`DecimalDigits . DecimalDigits?`, `. DecimalDigits` or `DecimalDigits`),
      0 when there is none. */
  function MantissaLength(u: string): (m: nat)
    ensures m <= |u|
  {
    var a := DigitRun(u, 10);
    if a < |u| && u[a] == '.' then
      var b := DigitRun(u[a + 1..], 10);
      if a == 0 && b == 0 then 0 else a + 1 + b
    else a
  }

  /** The value of the digits-and-fraction part at the start of `u`. */
  function MantissaValue(u: string): (v: real)
    ensures v >= 0.0
  {
    var a := DigitRun(u, 10);
    var whole: real := DigitsValue(u[..a], 10) as real;
    if a < |u| && u[a] == '.' then
      var b := DigitRun(u[a + 1..], 10);
      whole + Fraction(u[a + 1..a + 1 + b])
    else whole
  }

  /** The longest prefix of `u` that forms an unsigned decimal literal (a
      mantissa and an optional exponent part), as its length and its value, or
      `None` when `u` does not start with one. */
  function ScanDecimal(u: string): (r: Option<(nat, real)>)
    ensures r.Some? ==> 0 < r.value.0 <= |u| && r.value.1 >= 0.0
  {
    var m := MantissaLength(u);
    if m == 0 then None
    else
      var x := ScanExponent(u[m..]);
      if x.None? then Some((m, MantissaValue(u)))
      else Some((m + x.value.0, Scale(MantissaValue(u), x.value.1)))
  }

  /** An exponent part `e`/`E`, an optional sign and at least one digit at the
      start of `r`, as its length and its value. */
  function ScanExponent(r: string): (x: Option<(nat, int)>)
    ensures x.Some? ==> 2 <= x.value.0 <= |r|
  {
    if |r| >= 2 && (r[0] == 'e' || r[0] == 'E') then
      var signed := r[1] == '+' || r[1] == '-';
      var digits := if signed then r[2..] else r[1..];
      var k := DigitRun(digits, 10);
      if k == 0 then None
      else
        var e: int := DigitsValue(digits[..k], 10);
        Some(((if signed then 2 else 1) + k, if r[1] == '-' then -e else e))
    else None
  }

  /** A signed decimal literal or `Infinity` at the start of `t` (`whole` false, as
      `parseFloat` reads it) or forming all of `t` (`whole` true, as `Number`
      reads it); NaN when there is none. */
  function SignedDecimal(t: string, whole: bool): Num {
    var (negative, u) := StripSign(t);
    if (if whole then u == "Infinity" else StartsWith(u, "Infinity")) then Inf(negative)
    else
      var x := ScanDecimal(u);
      if x.None? || (whole && x.value.0 != |u|) then NaN
      else Fin(if negative then -x.value.1 else x.value.1)
  }

  /** `parseFloat(s)`: leading white space is skipped and the longest prefix that
      is a signed decimal literal or `Infinity` is read; NaN when there is none. */
  function ParseFloat(s: string): Num {
    SignedDecimal(TrimStart(s), false)
  }

  /** A `0x`/`0o`/`0b` prefix, which `Number(...)` reads as a non-decimal integer. */
  predicate NonDecimalPrefix(t: string) {
    |t| >= 2 && t[0] == '0' && t[1] in "xXoObB"
  }

  /** `Number(s)`: the whole string, once trimmed, must be a numeric literal; the
      empty string is 0, `0x`/`0o`/`0b` prefixes give hexadecimal, octal and
      binary integers, and a decimal literal may carry a sign. */
  function ToNumber(s: string): Num {
    var t := Trim(s);
    if |t| == 0 then Fin(0.0)
    else if NonDecimalPrefix(t) then
      var radix := if t[1] in "xX" then 16 else if t[1] in "oO" then 8 else 2;
      var body := t[2..];
      if |body| > 0 && DigitRun(body, radix) == |body| then Fin(DigitsValue(body, radix) as real)
      else NaN
    else SignedDecimal(t, true)
  }

  /** The strings an `<input type="number">` hands to the page as its value: a
      "valid floating-point number" of HTML, that is an optional `-`, digits, an
      optional fraction `.digits` and an optional exponent `e[+-]digits`. */
  predicate HtmlFloat(s: string) {
    |s| > 0 && UnsignedFloat(if s[0] == '-' then s[1..] else s)
  }

  /** Digits, then an optional fraction and exponent. */
  predicate UnsignedFloat(u: string) {
    var a := DigitRun(u, 10);
    a > 0 && FractionAndExponent(u[a..])
  }

  /** An optional `.digits`, then an optional exponent. */
  predicate FractionAndExponent(r: string) {
    if |r| > 0 && r[0] == '.' then
      var b := DigitRun(r[1..], 10);
      b > 0 && Exponent(r[1 + b..])
    else Exponent(r)
  }

  /** Nothing, or `e`/`E`, an optional sign and digits up to the end. */
  predicate Exponent(r: string) {
    |r| == 0
    || ((r[0] == 'e' || r[0] == 'E')
        && var t := if |r| > 1 && (r[1] == '+' || r[1] == '-') then r[2..] else r[1..];
           |t| > 0 && DigitRun(t, 10) == |t|)
  }

  /** The exponent scanner reads a whole exponent part. */
  lemma ScanWholeExponent(r: string)
    requires Exponent(r)
    ensures |r| == 0 ==> ScanExponent(r).None?
    ensures |r| > 0 ==> ScanExponent(r).Some? && ScanExponent(r).value.0 == |r|
  {
    if |r| > 0 {
      var signed := r[1] == '+' || r[1] == '-';
      var digits := if signed then r[2..] else r[1..];
      assert |digits| > 0 && DigitRun(digits, 10) == |digits|;
    }
  }

  /** On an HTML floating-point number the mantissa is followed by an exponent
      part or nothing. */
  lemma MantissaOfHtmlFloat(u: string)
    requires UnsignedFloat(u)
    ensures MantissaLength(u) > 0 && Exponent(u[MantissaLength(u)..])
  {
    var a := DigitRun(u, 10);
    var r := u[a..];
    if a < |u| && u[a] == '.' {
      var b := DigitRun(r[1..], 10);
      assert u[a + 1..] == r[1..];
      assert u[a + 1 + b..] == r[1 + b..];
    }
  }

  /** On an HTML floating-point number the scanner reads the whole string. */
  lemma ScanHtmlFloat(u: string)
    requires UnsignedFloat(u)
    ensures ScanDecimal(u).Some? && ScanDecimal(u).value.0 == |u|
  {
    MantissaOfHtmlFloat(u);
    ScanWholeExponent(u[MantissaLength(u)..]);
  }

  /** An HTML floating-point number without its sign starts with a digit. */
  lemma HtmlFloatStartsWithDigit(s: string)
    requires HtmlFloat(s)
    ensures var u := if s[0] == '-' then s[1..] else s; |u| > 0 && IsDigit(u[0])
  {
    DigitRunIsDigits(if s[0] == '-' then s[1..] else s, 10, 0);
  }

  /** An HTML floating-point number neither starts nor ends with white space. */
  lemma HtmlFloatTrimmed(s: string)
    requires HtmlFloat(s)
    ensures Trim(s) == s && TrimStart(s) == s
  {
    var u := if s[0] == '-' then s[1..] else s;
    HtmlFloatStartsWithDigit(s);
    LastIsDigit(u);
    assert s[|s| - 1] == u[|u| - 1];
    TrimNoSpace(s);
  }

  /** A string that starts with a digit is not `Infinity`, nor starts with it. */
  lemma NotInfinity(u: string)
    requires |u| > 0 && IsDigit(u[0])
    ensures !StartsWith(u, "Infinity") && u != "Infinity"
  {
  }

  /** An HTML floating-point number has no `0x`/`0o`/`0b` prefix. */
  lemma HtmlFloatIsDecimal(s: string)
    requires HtmlFloat(s)
    ensures !NonDecimalPrefix(s)
  {
    if |s| >= 2 && s[0] == '0' {
      var a := DigitRun(s, 10);
      if a == 1 {
        assert s[1..] == s[a..];
      } else {
        DigitRunIsDigits(s, 10, 1);
      }
    }
  }

  /** Read whole or read as a prefix, a decimal literal that the scanner reads to
      its end has the same value. */
  lemma SignedDecimalWhole(t: string)
    requires var u := StripSign(t).1; |u| > 0 && IsDigit(u[0])
    requires var u := StripSign(t).1; ScanDecimal(u).Some? && ScanDecimal(u).value.0 == |u|
    ensures SignedDecimal(t, true) == SignedDecimal(t, false)
    ensures SignedDecimal(t, true).Fin?
    ensures !StripSign(t).0 ==> SignedDecimal(t, true).v >= 0.0
    ensures StripSign(t).0 ==> SignedDecimal(t, true).v <= 0.0
  {
    NotInfinity(StripSign(t).1);
  }

  /** On the strings a number input produces, `Number(s)` and `parseFloat(s)`
      agree and are finite, with the sign the string shows: validating with one
      and storing the other reads the same amount. */
  lemma NumberAgreesWithParseFloat(s: string)
    requires HtmlFloat(s)
    ensures ToNumber(s) == ParseFloat(s)
    ensures ToNumber(s).Fin?
    ensures s[0] != '-' ==> ToNumber(s).v >= 0.0
    ensures s[0] == '-' ==> ToNumber(s).v <= 0.0
  {
    var u := if s[0] == '-' then s[1..] else s;
    HtmlFloatStartsWithDigit(s);
    HtmlFloatTrimmed(s);
    HtmlFloatIsDecimal(s);
    assert ToNumber(s) == SignedDecimal(s, true);
    assert ParseFloat(s) == SignedDecimal(s, false);
    assert StripSign(s) == (s[0] == '-', u);
    ScanHtmlFloat(u);
    SignedDecimalWhole(s);
  }

  /** An HTML floating-point number ends with a digit. */
  lemma LastIsDigit(u: string)
    requires UnsignedFloat(u)
    ensures |u| > 0 && IsDigit(u[|u| - 1])
  {
    var a := DigitRun(u, 10);
    var r := u[a..];
    if |r| == 0 {
      DigitRunIsDigits(u, 10, a - 1);
    } else if r[0] == '.' {
      var b := DigitRun(r[1..], 10);
      var e := r[1 + b..];
      if |e| == 0 {
        DigitRunIsDigits(r[1..], 10, b - 1);
        assert u[|u| - 1] == r[1..][b - 1];
      } else {
        LastOfExponent(e);
        assert u[|u| - 1] == e[|e| - 1];
      }
    } else {
      LastOfExponent(r);
      assert u[|u| - 1] == r[|r| - 1];
    }
  }

  /** A non-empty exponent part ends with a digit. */
  lemma LastOfExponent(r: string)
    requires Exponent(r) && |r| > 0
    ensures IsDigit(r[|r| - 1])
  {
    var t := if |r| > 1 && (r[1] == '+' || r[1] == '-') then r[2..] else r[1..];
    DigitRunIsDigits(t, 10, |t| - 1);
    assert r[|r| - 1] == t[|t| - 1];
  }
}
