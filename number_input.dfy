/**
 * The constraint the browser checks on the passenger count's `<input type="number" min="1">`
 * before it lets the form's submit event through: the text must be empty, or a valid
 * floating-point number (section 2.3.4.3 of the HTML standard) that suffers neither from a
 * range underflow (it is at least the minimum 1) nor from a step mismatch (with the default
 * step 1 and the minimum as step base, it is a whole number).
 */
module NumberInput {
  import opened Results
  import opened JsText

  const Minus: CodeUnit := 0x2D
  const Plus: CodeUnit := 0x2B
  const FullStop: CodeUnit := 0x2E
  const LowerE: CodeUnit := 0x65
  const UpperE: CodeUnit := 0x45

  predicate AllDigits(s: JsString)
  {
    forall i | 0 <= i < |s| :: IsDecimalDigit(s[i])
  }

  /** The length of the run of ASCII digits a text starts with. */
  function DigitRun(s: JsString): (n: nat)
    ensures n <= |s| && AllDigits(s[..n])
    ensures n < |s| ==> !IsDecimalDigit(s[n])
  {
    if s != [] && IsDecimalDigit(s[0]) then
      var n := 1 + DigitRun(s[1..]);
      assert s[..n] == [s[0]] + s[1..][..n - 1];
      n
    else 0
  }

  /** The number a run of decimal digits denotes. */
  function DigitsValue(s: JsString): nat
    requires AllDigits(s)
  {
    if s == [] then 0 else 10 * DigitsValue(s[..|s| - 1]) + (s[|s| - 1] - 0x30)
  }

  /** A number exactly as written: (-1)^negative × mantissa × 10^exponent. */
  datatype Decimal = Decimal(negative: bool, mantissa: nat, exponent: int)

  /** The exponent after an "e" or "E": an optional sign, then one or more digits, then nothing. */
  function ParseExponent(s: JsString): Option<int>
  {
    var signed := s != [] && (s[0] == Minus || s[0] == Plus);
    var t := if signed then s[1..] else s;
    var n := DigitRun(t);
    if n == 0 || n < |t| then None
    else
      assert t[..n] == t;
      var e: int := DigitsValue(t);
      Some(if signed && s[0] == Minus then -e else e)
  }

  /** A text split into its leading digits, an optional "." with the digits after it, and the rest. */
  datatype Parts = Parts(whole: JsString, hasPoint: bool, fraction: JsString, tail: JsString)

  function NumberParts(a: JsString): (p: Parts)
    ensures AllDigits(p.whole) && AllDigits(p.fraction)
  {
    var n := DigitRun(a);
    var rest := a[n..];
    if rest != [] && rest[0] == FullStop then
      var m := DigitRun(rest[1..]);
      Parts(a[..n], true, rest[1..][..m], rest[1..][m..])
    else Parts(a[..n], false, [], rest)
  }

  /** The exponent a number ends with: none (0), or "e" or "E" and an exponent. */
  function ExponentPart(tail: JsString): Option<int>
  {
    if tail == [] then Some(0)
    else if tail[0] == LowerE || tail[0] == UpperE then ParseExponent(tail[1..])
    else None
  }

  /**
   * The number a valid floating-point number denotes, or None when the text is not one: an
   * optional "-", then digits, or digits followed by "." and one or more digits, or "." and one
   * or more digits, then an optional exponent.
   */
  function ParseNumber(s: JsString): Option<Decimal>
  {
    var negative := s != [] && s[0] == Minus;
    var p := NumberParts(if negative then s[1..] else s);
    if (p.hasPoint && p.fraction == []) || (p.whole == [] && !p.hasPoint) then None
    else
      match ExponentPart(p.tail)
      case None => None
      case Some(e) =>
        assert AllDigits(p.whole + p.fraction);
        Some(Decimal(negative, DigitsValue(p.whole + p.fraction), e - |p.fraction|))
  }

  function Pow10(k: nat): (r: nat)
    ensures r >= 1
  {
    if k == 0 then 1 else 10 * Pow10(k - 1)
  }

  /** The number is a whole number no smaller than 1. */
  predicate IsWholeAtLeastOne(x: Decimal)
  {
    && !x.negative
    && if x.exponent >= 0 then x.mantissa >= 1
       else x.mantissa % Pow10(-x.exponent) == 0 && x.mantissa >= Pow10(-x.exponent)
  }

  /** The text in the box lets the form be submitted: empty, or a whole number of at least 1. */
  predicate AcceptsValue(v: JsString)
  {
    v == [] || (ParseNumber(v).Some? && IsWholeAtLeastOne(ParseNumber(v).value))
  }

  // ---------------------------------------------------------------------------------
  // Lemmas

  lemma {:induction false} DigitRunOfDigits(s: JsString)
    requires AllDigits(s)
    ensures DigitRun(s) == |s|
  {
    if s != [] {
      DigitRunOfDigits(s[1..]);
    }
  }

  lemma {:induction false} DigitRunStops(w: JsString, rest: JsString)
    requires AllDigits(w) && rest != [] && !IsDecimalDigit(rest[0])
    ensures DigitRun(w + rest) == |w|
  {
    if w != [] {
      assert (w + rest)[1..] == w[1..] + rest;
      DigitRunStops(w[1..], rest);
    }
  }

  /** A plain run of digits is read as the number it denotes, with no sign and no exponent. */
  lemma DigitsParse(v: JsString)
    requires v != [] && AllDigits(v)
    ensures ParseNumber(v) == Some(Decimal(false, DigitsValue(v), 0))
  {
    DigitRunOfDigits(v);
    assert v[..|v|] == v && v[|v|..] == [];
    assert NumberParts(v) == Parts(v, false, [], []);
    assert v + [] == v;
  }

  /** A plain run of digits may be submitted exactly when it denotes 1 or more ("0" may not). */
  lemma DigitsAccepted(v: JsString)
    requires v != [] && AllDigits(v)
    ensures AcceptsValue(v) <==> DigitsValue(v) >= 1
  {
    DigitsParse(v);
  }

  /** A negative number never may be submitted, "-0" included. */
  lemma NegativeRejected(v: JsString)
    requires v != [] && v[0] == Minus
    ensures !AcceptsValue(v)
  {
  }

  /** The parts of "w.f" are w and f, with nothing after them. */
  lemma FractionParts(w: JsString, f: JsString)
    requires AllDigits(w) && AllDigits(f) && f != []
    ensures NumberParts(w + [FullStop] + f) == Parts(w, true, f, [])
  {
    var v := w + [FullStop] + f;
    var rest := [FullStop] + f;
    assert v == w + rest;
    DigitRunStops(w, rest);
    assert v[..|w|] == w && v[|w|..] == rest;
    assert rest[1..] == f;
    DigitRunOfDigits(f);
    assert f[..|f|] == f && f[|f|..] == [];
  }

  /** "w.f" is read as the digits of w and f together, scaled down by the length of f. */
  lemma FractionParse(w: JsString, f: JsString)
    requires AllDigits(w) && AllDigits(f) && f != []
    ensures ParseNumber(w + [FullStop] + f) == Some(Decimal(false, DigitsValue(w + f), -|f|))
  {
    var v := w + [FullStop] + f;
    assert v[0] != Minus by { if w == [] { assert v[0] == FullStop; } else { assert v[0] == w[0]; } }
    FractionParts(w, f);
  }

  /** The last digit of a run is its value modulo 10. */
  lemma LastDigit(s: JsString)
    requires s != [] && AllDigits(s)
    ensures DigitsValue(s) % 10 == s[|s| - 1] - 0x30
  {
  }

  /** A multiple of a positive power of 10 is a multiple of 10. */
  lemma MultipleOfPow10(x: nat, k: nat)
    requires k >= 1 && x % Pow10(k) == 0
    ensures x % 10 == 0
  {
    var p, q := Pow10(k), x / Pow10(k);
    var r := Pow10(k - 1);
    assert x == p * q;
    assert x == 10 * (r * q);
  }

  /** A number whose last written fraction digit is not 0 and that has no exponent is not whole. */
  lemma FractionRejected(w: JsString, f: JsString)
    requires AllDigits(w) && AllDigits(f) && f != [] && f[|f| - 1] != 0x30
    ensures !AcceptsValue(w + [FullStop] + f)
  {
    FractionParse(w, f);
    var digits := w + f;
    assert digits[|digits| - 1] == f[|f| - 1];
    LastDigit(digits);
    if DigitsValue(digits) % Pow10(|f|) == 0 {
      MultipleOfPow10(DigitsValue(digits), |f|);
    }
  }
}
