/**
 * Python's `float(text)` on the decimal notation it accepts: surrounding
 * whitespace, an optional sign, digits with an optional fraction, and an
 * optional exponent. The value is the exact real number written, so IEEE
 * rounding is not part of this model.
 */
module PyFloat {
  import opened Options
  import opened Numerals
  import opened Text

  datatype Sign = Unsigned | Plus | Minus

  datatype Exponent = Exponent(marker: char, sign: Sign, digits: string)

  /** A decimal literal as it is written: `fraction` is `Some("")` for "1." and `None` for "1". */
  datatype Literal = Literal(sign: Sign, whole: string, fraction: Option<string>, exponent: Option<Exponent>)

  function FractionDigits(fraction: Option<string>): string {
    if fraction.Some? then fraction.value else ""
  }

  predicate WellFormedExponent(e: Exponent) {
    (e.marker == 'e' || e.marker == 'E') && |e.digits| > 0 && AllDigits(e.digits)
  }

  /** What `float()` accepts once the whitespace is stripped: some digit before or after the point. */
  predicate WellFormed(lit: Literal) {
    && AllDigits(lit.whole)
    && AllDigits(FractionDigits(lit.fraction))
    && |lit.whole| + |FractionDigits(lit.fraction)| > 0
    && (lit.exponent.Some? ==> WellFormedExponent(lit.exponent.value))
  }

  function SignText(sign: Sign): string {
    match sign
    case Unsigned => ""
    case Plus => "+"
    case Minus => "-"
  }

  function FractionText(fraction: Option<string>): string {
    if fraction.Some? then "." + fraction.value else ""
  }

  function ExponentText(exponent: Option<Exponent>): string {
    if exponent.Some? then [exponent.value.marker] + SignText(exponent.value.sign) + exponent.value.digits else ""
  }

  /** The characters of a literal, in order. */
  function Render(lit: Literal): string {
    SignText(lit.sign) + lit.whole + FractionText(lit.fraction) + ExponentText(lit.exponent)
  }

  function SignFactor(sign: Sign): real {
    if sign == Minus then -1.0 else 1.0
  }

  /** Multiplying by ten to the power `e`, for either sign of `e`. */
  function Scale(e: int): (r: real)
    ensures r > 0.0
  {
    if e >= 0 then Pow10(e) as real else 1.0 / Pow10(-e) as real
  }

  function ExponentValue(exponent: Option<Exponent>): int
    requires exponent.Some? ==> WellFormedExponent(exponent.value)
  {
    if exponent.None? then 0
    else if exponent.value.sign == Minus then 0 - DigitsValue(exponent.value.digits)
    else DigitsValue(exponent.value.digits)
  }

  /** The number `whole.fraction` denotes. */
  function Magnitude(whole: string, fraction: string): real
    requires AllDigits(whole) && AllDigits(fraction)
  {
    DigitsValue(whole) as real + DigitsValue(fraction) as real / Pow10(|fraction|) as real
  }

  /** The exact number a literal denotes. */
  function Value(lit: Literal): real
    requires WellFormed(lit)
  {
    SignFactor(lit.sign) * Magnitude(lit.whole, FractionDigits(lit.fraction)) * Scale(ExponentValue(lit.exponent))
  }

  // ---- Lexing -------------------------------------------------------------

  function LexSign(s: string): (Sign, string) {
    if s != [] && s[0] == '+' then (Plus, s[1..])
    else if s != [] && s[0] == '-' then (Minus, s[1..])
    else (Unsigned, s)
  }

  /** The longest run of digits at the start of `s`. */
  function DigitRun(s: string): (run: string)
    ensures AllDigits(run) && |run| <= |s| && run == s[..|run|]
    ensures |run| < |s| ==> !IsDigit(s[|run|])
  {
    if s != [] && IsDigit(s[0]) then [s[0]] + DigitRun(s[1..]) else ""
  }

  /** The exponent part, which must run to the end of the text: `Some(None)` when there is none. */
  function LexExponent(s: string): Option<Option<Exponent>> {
    if s == [] then Some(None)
    else if s[0] == 'e' || s[0] == 'E' then
      var signed := LexSign(s[1..]);
      if signed.1 != [] && AllDigits(signed.1) then Some(Some(Exponent(s[0], signed.0, signed.1))) else None
    else None
  }

  /** An optional point and the digits after it, followed by what is left. */
  function LexFraction(s: string): (Option<string>, string) {
    if s != [] && s[0] == '.' then
      var digits := DigitRun(s[1..]);
      (Some(digits), s[1 + |digits|..])
    else (None, s)
  }

  /** Reads a whole literal out of already stripped text, or `None` when `float()` raises `ValueError`. */
  function Lex(s: string): (r: Option<Literal>)
    ensures r.Some? ==> WellFormed(r.value)
  {
    var signed := LexSign(s);
    var whole := DigitRun(signed.1);
    var fraction := LexFraction(signed.1[|whole|..]);
    if |whole| + |FractionDigits(fraction.0)| == 0 then None
    else
      var exponent := LexExponent(fraction.1);
      if exponent.None? then None else Some(Literal(signed.0, whole, fraction.0, exponent.value))
  }

  /** `float(text)`: `None` stands for the `ValueError` it raises. */
  function Parse(text: string): Option<real> {
    var lit := Lex(Strip(text));
    if lit.None? then None else Some(Value(lit.value))
  }

  // ---- Lexing and rendering are inverse ----------------------------------

  lemma {:induction false} DigitRunPrefix(digits: string, rest: string)
    requires AllDigits(digits)
    requires rest == [] || !IsDigit(rest[0])
    ensures DigitRun(digits + rest) == digits
  {
    if digits != [] {
      assert (digits + rest)[1..] == digits[1..] + rest;
      DigitRunPrefix(digits[1..], rest);
    } else {
      assert digits + rest == rest;
    }
  }

  lemma {:induction false} LexSignOf(sign: Sign, rest: string)
    requires rest == [] || (rest[0] != '+' && rest[0] != '-')
    ensures LexSign(SignText(sign) + rest) == (sign, rest)
  {
    if sign == Unsigned {
      assert SignText(sign) + rest == rest;
    }
  }

  lemma {:induction false} LexExponentOf(exponent: Option<Exponent>)
    requires exponent.Some? ==> WellFormedExponent(exponent.value)
    ensures LexExponent(ExponentText(exponent)) == Some(exponent)
  {
    if exponent.Some? {
      var e := exponent.value;
      var text := ExponentText(exponent);
      assert text[1..] == SignText(e.sign) + e.digits;
      LexSignOf(e.sign, e.digits);
    }
  }

  lemma {:induction false} LexFractionOf(fraction: Option<string>, rest: string)
    requires AllDigits(FractionDigits(fraction))
    requires rest == [] || (!IsDigit(rest[0]) && rest[0] != '.')
    ensures LexFraction(FractionText(fraction) + rest) == (fraction, rest)
  {
    if fraction.Some? {
      var digits := fraction.value;
      var s := FractionText(fraction) + rest;
      assert s[1..] == digits + rest;
      DigitRunPrefix(digits, rest);
      assert s[1 + |digits|..] == rest;
    } else {
      assert FractionText(fraction) + rest == rest;
    }
  }

  lemma {:induction false} LexSignSplits(s: string)
    ensures SignText(LexSign(s).0) + LexSign(s).1 == s
  {
  }

  lemma {:induction false} LexFractionSplits(s: string)
    ensures FractionText(LexFraction(s).0) + LexFraction(s).1 == s
  {
    if s != [] && s[0] == '.' {
      var digits := DigitRun(s[1..]);
      assert s == "." + digits + s[1 + |digits|..];
    }
  }

  lemma {:induction false} LexExponentSplits(s: string)
    requires LexExponent(s).Some?
    ensures ExponentText(LexExponent(s).value) == s
  {
    if s != [] {
      var signed := LexSign(s[1..]);
      LexSignSplits(s[1..]);
      assert LexExponent(s).value == Some(Exponent(s[0], signed.0, signed.1));
      assert [s[0]] + SignText(signed.0) + signed.1 == [s[0]] + (SignText(signed.0) + signed.1);
      assert [s[0]] + s[1..] == s;
    }
  }

  /** Every well-formed literal is read back as itself. */
  lemma {:induction false} LexRender(lit: Literal)
    requires WellFormed(lit)
    ensures Lex(Render(lit)) == Some(lit)
  {
    var exponentText := ExponentText(lit.exponent);
    var afterWhole := FractionText(lit.fraction) + exponentText;
    var afterSign := lit.whole + afterWhole;
    assert Render(lit) == SignText(lit.sign) + afterSign;
    LexSignOf(lit.sign, afterSign);
    DigitRunPrefix(lit.whole, afterWhole);
    assert afterSign[|lit.whole|..] == afterWhole;
    LexFractionOf(lit.fraction, exponentText);
    LexExponentOf(lit.exponent);
  }

  /** Whatever `Lex` accepts is exactly the rendering of what it returns. */
  lemma {:induction false} RenderLex(s: string)
    requires Lex(s).Some?
    ensures Render(Lex(s).value) == s
  {
    var lit := Lex(s).value;
    var signed := LexSign(s);
    LexSignSplits(s);
    var whole := DigitRun(signed.1);
    var afterWhole := signed.1[|whole|..];
    assert signed.1 == whole + afterWhole;
    var fraction := LexFraction(afterWhole);
    LexFractionSplits(afterWhole);
    LexExponentSplits(fraction.1);
    assert lit == Literal(signed.0, whole, fraction.0, LexExponent(fraction.1).value);
    Reassociate(SignText(lit.sign), lit.whole, FractionText(lit.fraction), ExponentText(lit.exponent));
  }

  lemma {:induction false} Reassociate(a: string, b: string, c: string, d: string)
    ensures a + b + c + d == a + (b + (c + d))
  {
  }

  /** `float()` of a literal, with any whitespace around it, is the literal's exact value. */
  lemma {:induction false} ParseRender(lead: string, lit: Literal, trail: string)
    requires AllSpace(lead) && AllSpace(trail) && WellFormed(lit)
    ensures Parse(lead + Render(lit) + trail) == Some(Value(lit))
  {
    var s := Render(lit);
    RenderEnds(lit);
    StripPadded(lead, s, trail);
    LexRender(lit);
  }

  /** `float()` of a literal's own text is the literal's exact value. */
  lemma {:induction false} ParseLiteral(lit: Literal)
    requires WellFormed(lit)
    ensures Parse(Render(lit)) == Some(Value(lit))
  {
    var s := Render(lit);
    RenderEnds(lit);
    StripPadded("", s, "");
    assert "" + s + "" == s;
    LexRender(lit);
  }

  lemma {:induction false} RenderEnds(lit: Literal)
    requires WellFormed(lit)
    ensures Render(lit) != [] && !IsSpace(Render(lit)[0]) && !IsSpace(Render(lit)[|Render(lit)| - 1])
  {
    RenderFirst(lit);
    RenderLast(lit);
  }

  lemma {:induction false} RenderFirst(lit: Literal)
    requires WellFormed(lit)
    ensures Render(lit) != [] && !IsSpace(Render(lit)[0])
  {
    var s := Render(lit);
    var tail := lit.whole + FractionText(lit.fraction) + ExponentText(lit.exponent);
    assert s == SignText(lit.sign) + tail;
    if lit.whole == [] {
      assert tail == FractionText(lit.fraction) + ExponentText(lit.exponent);
    } else {
      assert tail[0] == lit.whole[0];
    }
  }

  lemma {:induction false} RenderLast(lit: Literal)
    requires WellFormed(lit)
    ensures Render(lit) != [] && !IsSpace(Render(lit)[|Render(lit)| - 1])
  {
    var s := Render(lit);
    if lit.exponent.Some? {
      var e := lit.exponent.value.digits;
      assert s[|s| - 1] == e[|e| - 1];
    } else if lit.fraction.Some? && lit.fraction.value != [] {
      var f := lit.fraction.value;
      assert s == SignText(lit.sign) + lit.whole + "." + f;
      assert s[|s| - 1] == f[|f| - 1];
    } else if lit.fraction.Some? {
      assert s == SignText(lit.sign) + lit.whole + ".";
    } else {
      assert s == SignText(lit.sign) + lit.whole;
      assert s[|s| - 1] == lit.whole[|lit.whole| - 1];
    }
  }

  /** Any text `float()` accepts has a digit in it. */
  lemma {:induction false} ParseNeedsDigit(text: string)
    requires Parse(text).Some?
    ensures exists i :: 0 <= i < |text| && IsDigit(text[i])
  {
    var stripped := Strip(text);
    RenderLex(stripped);
    var k := RenderHasDigit(Lex(stripped).value);
    var off := StripIsSlice(text);
    assert text[off + k] == stripped[k];
  }

  /** The position of a digit in the rendering of a well-formed literal. */
  lemma {:induction false} RenderHasDigit(lit: Literal) returns (k: nat)
    requires WellFormed(lit)
    ensures k < |Render(lit)| && IsDigit(Render(lit)[k])
  {
    var rest := FractionText(lit.fraction) + ExponentText(lit.exponent);
    Reassociate(SignText(lit.sign), lit.whole, FractionText(lit.fraction), ExponentText(lit.exponent));
    assert Render(lit) == SignText(lit.sign) + (lit.whole + rest);
    k := |SignText(lit.sign)|;
    if lit.whole != [] {
      assert Render(lit)[k] == lit.whole[0];
    } else {
      var f := lit.fraction.value;
      assert lit.whole + rest == "." + f + ExponentText(lit.exponent);
      assert Render(lit)[k + 1] == f[0];
      k := k + 1;
    }
  }

  /** `Strip` returns a contiguous slice of its argument, starting at `off`. */
  lemma {:induction false} StripIsSlice(text: string) returns (off: nat)
    ensures off + |Strip(text)| <= |text| && Strip(text) == text[off..off + |Strip(text)|]
  {
    var t := TrimStart(text);
    off := |text| - |t|;
    assert Strip(text) == t[..|Strip(text)|];
  }

  /** An unsigned literal without exponent denotes its whole part plus its fraction over a power of ten. */
  lemma {:induction false} PlainValue(lit: Literal)
    requires WellFormed(lit) && lit.sign == Unsigned && lit.exponent.None?
    ensures Value(lit) == Magnitude(lit.whole, FractionDigits(lit.fraction))
  {
    assert Scale(ExponentValue(lit.exponent)) == 1.0;
    assert SignFactor(lit.sign) == 1.0;
  }

  /** `float(str(n))` is `n`. */
  lemma {:induction false} ParseNat(n: nat)
    ensures Parse(NatToString(n)) == Some(n as real)
  {
    var lit := Literal(Unsigned, NatToString(n), None, None);
    RenderPlain(lit);
    ParseLiteral(lit);
    PlainValue(lit);
    MagnitudeWhole(lit.whole);
  }

  lemma {:induction false} MagnitudeWhole(whole: string)
    requires AllDigits(whole)
    ensures Magnitude(whole, "") == DigitsValue(whole) as real
  {
    assert DigitsValue("") == 0;
    assert Pow10(|""|) == 1;
  }

  lemma {:induction false} RenderPlain(lit: Literal)
    requires lit.sign == Unsigned && lit.exponent.None?
    ensures lit.fraction.None? ==> Render(lit) == lit.whole
    ensures lit.fraction.Some? ==> Render(lit) == lit.whole + "." + lit.fraction.value
  {
    assert Render(lit) == "" + lit.whole + FractionText(lit.fraction) + "";
  }

  /** `float("w.ff")` for digit strings is the whole part plus the fraction over a power of ten. */
  lemma {:induction false} ParseDecimal(whole: string, fraction: string)
    requires |whole| > 0 && AllDigits(whole) && AllDigits(fraction)
    ensures Parse(whole + "." + fraction) == Some(Magnitude(whole, fraction))
  {
    var lit := Literal(Unsigned, whole, Some(fraction), None);
    RenderPlain(lit);
    ParseLiteral(lit);
    PlainValue(lit);
  }

  /** `float("w.dd")` with a zero whole part and two fraction digits is `dd` hundredths. */
  lemma {:induction false} ParseHundredths(whole: string, fraction: string, n: nat)
    requires |whole| > 0 && AllDigits(whole) && DigitsValue(whole) == 0
    requires |fraction| == 2 && AllDigits(fraction) && DigitsValue(fraction) == n
    ensures Parse(whole + "." + fraction) == Some(n as real / 100.0)
  {
    ParseDecimal(whole, fraction);
    MagnitudeHundredths(whole, fraction, n);
    ParseSameValue(whole + "." + fraction, Magnitude(whole, fraction), n as real / 100.0);
  }

  lemma {:induction false} MagnitudeHundredths(whole: string, fraction: string, n: nat)
    requires AllDigits(whole) && DigitsValue(whole) == 0
    requires |fraction| == 2 && AllDigits(fraction) && DigitsValue(fraction) == n
    ensures Magnitude(whole, fraction) == n as real / 100.0
  {
    assert Pow10(2) == 100 by {
      assert Pow10(2) == 10 * Pow10(1);
      assert Pow10(1) == 10 * Pow10(0);
    }
  }

  lemma ParseSameValue(text: string, m: real, v: real)
    requires Parse(text) == Some(m) && m == v
    ensures Parse(text) == Some(v)
  {
  }
}
