/**
 * The floating-point values the collector handles, modelled exactly: a
 * finite value is a decimal mantissa times a power of ten, next to the two
 * infinities and NaN. Parsing follows the grammar of Rust's
 * `<f64 as FromStr>::from_str`; rendering follows `{}` (Display), which
 * never uses exponent notation.
 */
module Numbers {
  import opened Wrappers
  import opened Strings

  datatype Num = Finite(mantissa: int, exponent: int) | Infinite(negative: bool) | NaN {

    /** Unary minus. */
    function Negate(): Num {
      match this
      case Finite(m, e) => Finite(-m, e)
      case Infinite(neg) => Infinite(!neg)
      case NaN => NaN
    }

    /** Multiplication by a non-negative integer factor (an infinity times zero is NaN). */
    function Scale(k: nat): (r: Num)
      ensures r.Finite? <==> this.Finite?
      ensures r.NaN? <==> (this.NaN? || (this.Infinite? && k == 0))
      ensures this.Finite? ==> r.exponent == this.exponent
    {
      match this
      case Finite(m, e) => Finite(m * k, e)
      case Infinite(_) => if k == 0 then NaN else this
      case NaN => NaN
    }

    /** Scaling by one changes nothing. */
    lemma ScaleByOne()
      ensures Scale(1) == this
    {
    }
  }

  /**
   * Two finite values are equal as numbers: after aligning the exponents,
   * the mantissas agree.
   */
  predicate SameValue(a: Num, b: Num)
    requires a.Finite? && b.Finite?
  {
    if a.exponent <= b.exponent then a.mantissa == b.mantissa * Pow10(b.exponent - a.exponent)
    else b.mantissa == a.mantissa * Pow10(a.exponent - b.exponent)
  }

  lemma Pow10Add(a: nat, b: nat)
    ensures Pow10(a + b) == Pow10(a) * Pow10(b)
  {
    if a > 0 {
      Pow10Add(a - 1, b);
    }
  }

  // ---------------------------------------------------------------- parsing

  /** Length of the longest prefix of ASCII digits. */
  function DigitRun(s: string): (n: nat)
    ensures n <= |s| && AllDigits(s[..n])
    ensures n < |s| ==> !IsDigit(s[n])
  {
    if s != [] && IsDigit(s[0]) then
      var n := 1 + DigitRun(s[1..]);
      assert forall i :: 1 <= i < n ==> s[..n][i] == s[1..][..n - 1][i - 1];
      n
    else
      0
  }

  function ToLowerAscii(c: char): char {
    if 'A' <= c <= 'Z' then (c as int + 32) as char else c
  }

  /** `s` spells the lower-case ASCII `word` up to ASCII case. */
  predicate EqualsIgnoreCase(s: string, word: string) {
    |s| == |word| && forall i :: 0 <= i < |s| ==> ToLowerAscii(s[i]) == word[i]
  }

  /** The exponent after `e`: an optional sign and at least one digit, to the end of the text. */
  function ParseExponent(s: string): (r: Option<int>)
    ensures r.Some? ==> s != []
  {
    if s != [] && (s[0] == '+' || s[0] == '-') then
      var d := s[1..];
      if d != [] && AllDigits(d) then
        var v: int := DigitsValue(d);
        Some(if s[0] == '-' then -v else v)
      else None
    else if s != [] && AllDigits(s) then Some(DigitsValue(s))
    else None
  }

  /**
   * An unsigned decimal: digits, optionally a point and more digits (at
   * least one digit in all), optionally `e`/`E` and an exponent, and
   * nothing else.
   */
  function ParseDecimal(s: string): Option<Num> {
    var i := DigitRun(s);
    if i < |s| && s[i] == '.' then ParseFraction(s[..i], s[i + 1..])
    else ParseExponentPart(s[..i], [], s[i..])
  }

  /** What follows the point: the fraction digits, then the exponent part. */
  function ParseFraction(whole: string, rest: string): Option<Num>
    requires AllDigits(whole)
  {
    var j := DigitRun(rest);
    ParseExponentPart(whole, rest[..j], rest[j..])
  }

  /** The digits read so far and what is left after them: nothing, or an exponent. */
  function ParseExponentPart(whole: string, frac: string, rest: string): Option<Num>
    requires AllDigits(whole) && AllDigits(frac)
  {
    DigitsConcat(whole, frac);
    if |whole| + |frac| == 0 then None
    else if rest == [] then Some(Finite(DigitsValue(whole + frac), -|frac|))
    else if rest[0] == 'e' || rest[0] == 'E' then
      match ParseExponent(rest[1..])
      case None => None
      case Some(x) => Some(Finite(DigitsValue(whole + frac), x - |frac|))
    else None
  }

  /** What follows the sign: a decimal, or `inf`, `infinity` or `nan` in any case. */
  function ParseUnsigned(s: string): Option<Num> {
    match ParseDecimal(s)
    case Some(n) => Some(n)
    case None =>
      if EqualsIgnoreCase(s, "inf") || EqualsIgnoreCase(s, "infinity") then Some(Infinite(false))
      else if EqualsIgnoreCase(s, "nan") then Some(NaN)
      else None
  }

  /** `str::parse::<f64>`: an optional `+` or `-`, then an unsigned number. */
  function ParseFloat(s: string): (r: Option<Num>)
    ensures s == [] ==> r.None?
    ensures s == "+" || s == "-" ==> r.None?
  {
    if s != [] && (s[0] == '+' || s[0] == '-') then
      match ParseUnsigned(s[1..])
      case None => None
      case Some(n) => Some(if s[0] == '-' then n.Negate() else n)
    else
      ParseUnsigned(s)
  }

  /** `parse::<f64>().unwrap_or(f64::NAN)`. */
  function ParseOrNaN(s: string): (n: Num)
    ensures ParseFloat(s).None? ==> n.NaN?
    ensures ParseFloat(s).Some? ==> n == ParseFloat(s).value
  {
    match ParseFloat(s)
    case Some(v) => v
    case None => NaN
  }

  /** The digit run of digits followed by a non-digit is exactly those digits. */
  lemma {:induction false} DigitRunPrefix(d: string, rest: string)
    requires AllDigits(d) && (rest == [] || !IsDigit(rest[0]))
    ensures DigitRun(d + rest) == |d|
  {
    if d != [] {
      assert (d + rest)[1..] == d[1..] + rest;
      DigitRunPrefix(d[1..], rest);
    } else {
      assert d + rest == rest;
    }
  }

  /** A non-empty run of digits parses as the integer it spells. */
  lemma ParseDigits(d: string)
    requires d != [] && AllDigits(d)
    ensures ParseUnsigned(d) == Some(Finite(DigitsValue(d), 0))
    ensures ParseFloat(d) == Some(Finite(DigitsValue(d), 0))
  {
    DigitRunPrefix(d, []);
    assert d + [] == d;
    assert d[..|d|] == d;
    UnsignedIsUnsigned(d);
  }

  /** Digits, a point and digits parse as the decimal they spell. */
  lemma ParsePointed(w: string, f: string)
    requires AllDigits(w) && AllDigits(f) && |w| + |f| > 0
    ensures ParseUnsigned(w + "." + f) == Some(Finite(DigitsValue(w + f), -|f|))
    ensures ParseFloat(w + "." + f) == Some(Finite(DigitsValue(w + f), -|f|))
  {
    PointedDecimal(w, f);
    UnsignedIsUnsigned(w + "." + f);
  }

  lemma PointedDecimal(w: string, f: string)
    requires AllDigits(w) && AllDigits(f) && |w| + |f| > 0
    ensures ParseDecimal(w + "." + f) == Some(Finite(DigitsValue(w + f), -|f|))
  {
    var s := w + "." + f;
    assert s == w + ("." + f);
    DigitRunPrefix(w, "." + f);
    assert s[..|w|] == w;
    assert s[|w| + 1..] == f;
    DigitRunPrefix(f, []);
    assert f + [] == f;
    assert f[..|f|] == f;
  }

  /** Text that parses without a sign does not start with one, so it parses the same with the sign check. */
  lemma UnsignedIsUnsigned(t: string)
    ensures ParseUnsigned(t).Some? ==> t != [] && t[0] != '+' && t[0] != '-'
    ensures ParseUnsigned(t).Some? ==> ParseFloat(t) == ParseUnsigned(t)
  {
    if t != [] && (t[0] == '+' || t[0] == '-') {
      assert DigitRun(t) == 0;
      assert t[..0] == [];
      assert ToLowerAscii(t[0]) == t[0];
    }
  }

  /** A leading minus negates whatever the rest of the text parses to. */
  lemma ParseNegative(u: string)
    ensures ParseFloat("-" + u) == match ParseUnsigned(u) case None => None case Some(n) => Some(n.Negate())
  {
    assert ("-" + u)[1..] == u;
  }

  /** The example of Raw mode: `42.5` is forty-two and a half. */
  lemma ParseFortyTwoAndAHalf()
    ensures ParseFloat("42.5") == Some(Finite(425, -1))
  {
    ParsePointed("42", "5");
    FortyTwoAndAHalfDigits();
  }

  lemma FortyTwoAndAHalfDigits()
    ensures "42" + "." + "5" == "42.5" && DigitsValue("42" + "5") == 425
  {
    assert "42" + "5" == "425";
    assert "425"[..2] == "42";
    assert "42"[..1] == "4";
    assert "4"[..0] == "";
  }

  /** The other example of Raw mode: `not-a-number` does not parse. */
  lemma ParseNotANumber()
    ensures ParseFloat("not-a-number").None?
  {
    var x := "not-a-number";
    assert DigitRun(x) == 0;
    assert ToLowerAscii(x[1]) == 'o';
  }

  /** The special spellings: `NaN` in any case, a signed `inf`. */
  lemma ParseSpecial()
    ensures ParseFloat("NaN") == Some(NaN) && ParseFloat("-inf") == Some(Infinite(true))
  {
    assert DigitRun("NaN") == 0;
    assert EqualsIgnoreCase("NaN", "nan");
    assert "-inf"[1..] == "inf";
    assert DigitRun("inf") == 0;
    assert EqualsIgnoreCase("inf", "inf");
  }

  // ------------------------------------------------------------- rendering

  function Zeros(n: nat): (r: string)
    ensures |r| == n && AllDigits(r)
  {
    if n == 0 then [] else "0" + Zeros(n - 1)
  }

  /** Removes trailing `0` characters. */
  function StripTrailingZeros(s: string): (r: string)
    ensures r <= s && (r == [] || r[|r| - 1] != '0')
    ensures s == r + Zeros(|s| - |r|)
  {
    if s != [] && s[|s| - 1] == '0' then
      var r := StripTrailingZeros(s[..|s| - 1]);
      assert Zeros(|s| - |r|) == Zeros(|s| - 1 - |r|) + "0" by {
        ZerosSnoc(|s| - 1 - |r|);
      }
      r
    else
      assert Zeros(0) == [];
      s
  }

  lemma {:induction false} ZerosSnoc(n: nat)
    ensures Zeros(n + 1) == Zeros(n) + "0"
  {
    if n > 0 {
      ZerosSnoc(n - 1);
    }
  }

  /** Left-pads `s` with zeros to width `w`. */
  function PadZeros(s: string, w: nat): (r: string)
    ensures |r| == if |s| < w then w else |s|
  {
    if |s| < w then Zeros(w - |s|) + s else s
  }

  /**
   * The decimal text of `a * 10^e` for a natural `a`, without exponent and
   * without needless zeros: the digits of `a`, padded on the left so that at
   * least one digit precedes the point, split `-e` places from the right.
   */
  function DecimalText(a: nat, e: int): string {
    if e >= 0 then
      var s := NatToString(a);
      if a == 0 then s else s + Zeros(e)
    else FractionText(a, -e)
  }

  /** The digits of `a` padded to more than `w` places, split `w` places from the right. */
  function FractionText(a: nat, w: nat): string {
    var padded := PadZeros(NatToString(a), w + 1);
    var k := |padded| - w;
    var frac := StripTrailingZeros(padded[k..]);
    if frac == [] then padded[..k] else padded[..k] + "." + frac
  }

  /** `{}` formatting of an f64. */
  function Display(n: Num): string {
    match n
    case NaN => "NaN"
    case Infinite(neg) => if neg then "-inf" else "inf"
    case Finite(m, e) => if m < 0 then "-" + DecimalText(Magnitude(m), e) else DecimalText(Magnitude(m), e)
  }

  function Magnitude(m: int): (r: nat)
    ensures m < 0 ==> r == -m
    ensures m >= 0 ==> r == m
  {
    if m < 0 then -m else m
  }

  // ------------------------------------------- the rendering reads back

  lemma {:induction false} DigitsConcat(a: string, b: string)
    requires AllDigits(a) && AllDigits(b)
    ensures AllDigits(a + b)
    ensures DigitsValue(a + b) == DigitsValue(a) * Pow10(|b|) + DigitsValue(b)
  {
    if b != [] {
      var ab := a + b;
      var b' := b[..|b| - 1];
      assert ab[..|ab| - 1] == a + b';
      assert ab[|ab| - 1] == b[|b| - 1];
      DigitsConcat(a, b');
      var x, y, p := DigitsValue(a), DigitsValue(b'), Pow10(|b'|);
      var d := b[|b| - 1] as int - '0' as int;
      assert DigitsValue(ab) == DigitsValue(a + b') * 10 + d;
      assert DigitsValue(b) == y * 10 + d;
      assert Pow10(|b|) == p * 10;
      ShiftDigit(x, p, y, d);
    } else {
      assert a + b == a;
    }
  }

  lemma ShiftDigit(x: int, p: int, y: int, d: int)
    ensures (x * p + y) * 10 + d == x * (p * 10) + (y * 10 + d)
  {
  }

  lemma {:induction false} ZerosValue(n: nat)
    ensures DigitsValue(Zeros(n)) == 0
  {
    if n > 0 {
      ZerosValue(n - 1);
      DigitsConcat("0", Zeros(n - 1));
      assert "0"[..0] == [];
    }
  }

  lemma {:induction false} NatToStringWidth(n: nat, w: nat)
    requires n < Pow10(w)
    ensures |NatToString(n)| <= w || (n == 0 && w == 0)
  {
    if n >= 10 {
      NatToStringWidth(n / 10, w - 1);
    }
  }

  /** What Display renders parses back to the same value: written samples round-trip. */
  lemma DisplayRoundTrip(n: Num)
    ensures ParseFloat(Display(n)).Some?
    ensures n.Finite? ==> ParseFloat(Display(n)).value.Finite? && SameValue(ParseFloat(Display(n)).value, n)
    ensures !n.Finite? ==> ParseFloat(Display(n)) == Some(n)
  {
    if n.Finite? {
      DisplayFiniteRoundTrip(n);
    } else {
      DisplaySpecialRoundTrip(n);
    }
  }

  lemma DisplaySpecialRoundTrip(n: Num)
    requires !n.Finite?
    ensures ParseFloat(Display(n)) == Some(n)
  {
    match n
    case NaN =>
      assert DigitRun("NaN") == 0;
      assert EqualsIgnoreCase("NaN", "nan");
    case Infinite(neg) =>
      assert DigitRun("inf") == 0;
      assert EqualsIgnoreCase("inf", "inf");
      if neg {
        assert "-inf"[1..] == "inf";
      }
  }

  lemma DisplayFiniteRoundTrip(n: Num)
    requires n.Finite?
    ensures ParseFloat(Display(n)).Some? && ParseFloat(Display(n)).value.Finite?
    ensures SameValue(ParseFloat(Display(n)).value, n)
  {
    var a := Magnitude(n.mantissa);
    var t := DecimalText(a, n.exponent);
    var p := DecimalTextParses(a, n.exponent);
    if n.mantissa < 0 {
      assert Display(n) == "-" + t;
      NegateParsed(t, p);
      SameValueNegate(p, Finite(a, n.exponent));
      assert Finite(a, n.exponent).Negate() == n;
    } else {
      assert Display(n) == t;
      UnsignedIsUnsigned(t);
      assert Finite(a, n.exponent) == n;
    }
  }

  /** A minus sign before text that parses unsigned negates its value. */
  lemma NegateParsed(t: string, p: Num)
    requires ParseUnsigned(t) == Some(p)
    ensures ParseFloat("-" + t) == Some(p.Negate())
  {
    ParseNegative(t);
  }

  lemma SameValueNegate(a: Num, b: Num)
    requires a.Finite? && b.Finite? && SameValue(a, b)
    ensures SameValue(a.Negate(), b.Negate())
  {
    var k := if a.exponent <= b.exponent then b.exponent - a.exponent else a.exponent - b.exponent;
    var x, y := a.mantissa, b.mantissa;
    assert -(y * Pow10(k)) == (-y) * Pow10(k);
    assert -(x * Pow10(k)) == (-x) * Pow10(k);
  }

  /** The unsigned part of Display parses to a value equal to `a * 10^e`; it starts with a digit. */
  lemma DecimalTextParses(a: nat, e: int) returns (p: Num)
    ensures ParseUnsigned(DecimalText(a, e)) == Some(p) && p.Finite?
    ensures SameValue(p, Finite(a, e))
  {
    if e >= 0 {
      p := IntegralTextParses(a, e);
    } else {
      var w: nat := -e;
      assert -(w as int) == e;
      p := FractionTextParses(a, w);
    }
  }

  /** With no negative exponent the text is the digits of `a` followed by `e` zeros. */
  lemma IntegralTextParses(a: nat, e: nat) returns (p: Num)
    ensures ParseUnsigned(DecimalText(a, e)) == Some(p) && p.Finite?
    ensures SameValue(p, Finite(a, e))
  {
    var s := NatToString(a);
    if a == 0 {
      ParseDigits(s);
      p := Finite(0, 0);
    } else {
      DigitsConcat(s, Zeros(e));
      ZerosValue(e);
      ParseDigits(s + Zeros(e));
      p := Finite(a * Pow10(e), 0);
    }
  }

  /** With exponent `-w` the text has at most `w` places after the point. */
  lemma FractionTextParses(a: nat, w: nat) returns (p: Num)
    requires w > 0
    ensures ParseUnsigned(DecimalText(a, -(w as int))) == Some(p) && p.Finite?
    ensures SameValue(p, Finite(a, -(w as int)))
  {
    assert DecimalText(a, -(w as int)) == FractionText(a, w);
    var v, z;
    p, v, z := FractionTextValue(a, w);
    var e: int := -(w as int);
    assert p == Finite(v, e + z);
    SameValueShift(v, a, z, e);
  }

  /** `v * 10^(e + z)` equals `a * 10^e` when `v * 10^z == a`. */
  lemma SameValueShift(v: nat, a: nat, z: nat, e: int)
    requires v * Pow10(z) == a
    ensures SameValue(Finite(v, e + z), Finite(a, e))
  {
    if z == 0 {
      assert Pow10(0) == 1;
      assert a == v;
    }
  }

  /** The fraction text parses to its digits over `10^(w - z)`, where `z` zeros were dropped. */
  lemma FractionTextValue(a: nat, w: nat) returns (p: Num, v: nat, z: nat)
    ensures ParseUnsigned(FractionText(a, w)) == Some(p)
    ensures p == Finite(v, z - w) && z <= w && v * Pow10(z) == a
  {
    var whole, frac;
    whole, frac, z := FractionTextShape(a, w);
    v := DigitsValue(whole + frac);
    if frac == [] {
      assert whole + frac == whole;
      ParseDigits(whole);
    } else {
      ParsePointed(whole, frac);
    }
    p := Finite(v, z - w);
  }

  /**
   * The text splits into the integral digits and the fraction digits, and
   * dropping the trailing zeros of the fraction divides out a power of ten.
   */
  lemma FractionTextShape(a: nat, w: nat) returns (whole: string, frac: string, z: nat)
    ensures AllDigits(whole) && AllDigits(frac) && whole != [] && AllDigits(whole + frac)
    ensures FractionText(a, w) == if frac == [] then whole else whole + "." + frac
    ensures z + |frac| == w && DigitsValue(whole + frac) * Pow10(z) == a
  {
    var padded := PadZeros(NatToString(a), w + 1);
    PaddedValue(NatToString(a), w + 1);
    var k := |padded| - w;
    SplitDigits(padded, k);
    whole := padded[..k];
    var tail := padded[k..];
    frac := StripTrailingZeros(tail);
    StripDigits(tail);
    z := |tail| - |frac|;
    JoinValue(padded, whole, frac, z);
  }

  /** Digits cut into a whole part, a fraction and trailing zeros are worth the first two times a power of ten. */
  lemma JoinValue(padded: string, whole: string, frac: string, z: nat)
    requires AllDigits(padded) && AllDigits(whole) && AllDigits(frac) && padded == whole + (frac + Zeros(z))
    ensures AllDigits(whole + frac) && DigitsValue(whole + frac) * Pow10(z) == DigitsValue(padded)
  {
    var v := SplitValue(whole, frac, z);
    ConcatAssoc(whole, frac, Zeros(z));
  }

  lemma SplitDigits(s: string, k: nat)
    requires AllDigits(s) && k <= |s|
    ensures AllDigits(s[..k]) && AllDigits(s[k..]) && s == s[..k] + s[k..]
  {
    assert forall i :: 0 <= i < k ==> s[..k][i] == s[i];
    assert forall i :: 0 <= i < |s| - k ==> s[k..][i] == s[k + i];
  }

  lemma StripDigits(s: string)
    requires AllDigits(s)
    ensures AllDigits(StripTrailingZeros(s))
  {
    var r := StripTrailingZeros(s);
    assert forall i :: 0 <= i < |r| ==> r[i] == s[i];
  }

  /** Left-padding with zeros keeps the value of a digit string. */
  lemma PaddedValue(s: string, w: nat)
    requires AllDigits(s)
    ensures AllDigits(PadZeros(s, w)) && DigitsValue(PadZeros(s, w)) == DigitsValue(s)
  {
    if |s| < w {
      var z := Zeros(w - |s|);
      DigitsConcat(z, s);
      ZerosValue(w - |s|);
      assert DigitsValue(z) * Pow10(|s|) == 0;
    }
  }

  /** Digits followed by `z` zeros are worth the digits times `10^z`. */
  lemma SplitValue(whole: string, frac: string, z: nat) returns (v: nat)
    requires AllDigits(whole) && AllDigits(frac)
    ensures AllDigits(whole + frac) && v == DigitsValue(whole + frac)
    ensures AllDigits((whole + frac) + Zeros(z)) && DigitsValue((whole + frac) + Zeros(z)) == v * Pow10(z)
  {
    DigitsConcat(whole, frac);
    DigitsConcat(whole + frac, Zeros(z));
    ZerosValue(z);
    v := DigitsValue(whole + frac);
  }
}
