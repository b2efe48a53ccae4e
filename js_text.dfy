/**
 * ECMAScript string values as sequences of UTF-16 code units (section 6.1.4 of ECMA-262),
 * with the string operations the site's code relies on: well-formedness (unpaired
 * surrogates), CodePointAt, UTF16EncodeCodePoint, Array.prototype.join on strings and,
 * as its partner, splitting on one code unit.
 */
module JsText {

  /** One UTF-16 code unit; a string's `length` counts these. */
  type CodeUnit = x: int | 0 <= x < 0x1_0000

  type JsString = seq<CodeUnit>

  /** A Unicode code point, surrogates included, as ECMA-262 uses the term. */
  type CodePoint = x: int | 0 <= x < 0x11_0000

  const LineFeed: CodeUnit := 0x0A

  /** Literals in the source are Basic Multilingual Plane text, one code unit per character. */
  predicate IsBmpText(s: string)
  {
    forall i | 0 <= i < |s| :: s[i] as int < 0x1_0000
  }

  /** The string value of a source literal. */
  function Str(s: string): (r: JsString)
    requires IsBmpText(s)
    ensures |r| == |s|
    ensures forall i | 0 <= i < |s| :: r[i] == s[i] as int
    ensures HasNoSurrogate(r)
  {
    seq(|s|, i requires 0 <= i < |s| => s[i] as int)
  }

  /** An ASCII decimal digit, "0" to "9". */
  predicate IsDecimalDigit(u: int) { 0x30 <= u <= 0x39 }

  predicate IsLeadingSurrogate(u: int)  { 0xD800 <= u <= 0xDBFF }
  predicate IsTrailingSurrogate(u: int) { 0xDC00 <= u <= 0xDFFF }
  predicate IsSurrogate(u: int)         { 0xD800 <= u <= 0xDFFF }

  /** The code unit at index i is a surrogate with no partner next to it. */
  predicate IsUnpairedAt(s: JsString, i: int)
    requires 0 <= i < |s|
  {
    (IsLeadingSurrogate(s[i]) && !(i + 1 < |s| && IsTrailingSurrogate(s[i + 1]))) ||
    (IsTrailingSurrogate(s[i]) && !(0 < i && IsLeadingSurrogate(s[i - 1])))
  }

  /** IsStringWellFormedUnicode: the string contains no unpaired surrogate. */
  predicate IsWellFormed(s: JsString)
  {
    forall i | 0 <= i < |s| :: !IsUnpairedAt(s, i)
  }

  /** UTF16EncodeCodePoint (section 11.1.1 of ECMA-262). */
  function Utf16Encode(cp: CodePoint): (r: JsString)
  {
    if cp <= 0xFFFF then [cp]
    else [(cp - 0x1_0000) / 0x400 + 0xD800, (cp - 0x1_0000) % 0x400 + 0xDC00]
  }

  /** UTF16SurrogatePairToCodePoint (section 11.1.3 of ECMA-262). */
  function SurrogatePairToCodePoint(lead: CodeUnit, trail: CodeUnit): CodePoint
    requires IsLeadingSurrogate(lead) && IsTrailingSurrogate(trail)
  {
    (lead - 0xD800) * 0x400 + (trail - 0xDC00) + 0x1_0000
  }

  /** The record CodePointAt returns. */
  datatype CodePointRecord = CodePointRecord(codePoint: CodePoint, codeUnitCount: nat, isUnpairedSurrogate: bool)

  /**
   * CodePointAt(s, 0) (section 11.1.4 of ECMA-262). The record reports an unpaired surrogate
   * exactly when the first unit is one; otherwise its code point re-encodes to the units read.
   */
  function CodePointAt(s: JsString): (r: CodePointRecord)
    requires |s| > 0
    ensures 1 <= r.codeUnitCount <= 2 && r.codeUnitCount <= |s|
    ensures r.isUnpairedSurrogate <==> IsUnpairedAt(s, 0)
    ensures r.isUnpairedSurrogate ==> r.codeUnitCount == 1 && r.codePoint == s[0]
    ensures !r.isUnpairedSurrogate ==>
              !IsSurrogate(r.codePoint) && Utf16Encode(r.codePoint) == s[..r.codeUnitCount]
  {
    var first := s[0];
    if !IsLeadingSurrogate(first) && !IsTrailingSurrogate(first) then
      CodePointRecord(first, 1, false)
    else if IsTrailingSurrogate(first) || |s| == 1 then
      CodePointRecord(first, 1, true)
    else if !IsTrailingSurrogate(s[1]) then
      CodePointRecord(first, 1, true)
    else
      var cp := SurrogatePairToCodePoint(first, s[1]);
      assert Utf16Encode(cp) == [first, s[1]] == s[..2];
      CodePointRecord(cp, 2, false)
  }

  /**
   * Reading one code point off the front of a string whose first unit is not unpaired leaves
   * the rest exactly as well-formed as the whole.
   */
  lemma WellFormedStep(s: JsString)
    requires |s| > 0 && !IsUnpairedAt(s, 0)
    ensures IsWellFormed(s) <==> IsWellFormed(s[CodePointAt(s).codeUnitCount..])
  {
    var n := CodePointAt(s).codeUnitCount;
    var t := s[n..];
    if IsWellFormed(s) {
      forall j | 0 <= j < |t| ensures !IsUnpairedAt(t, j) {
        assert !IsUnpairedAt(s, j + n);
      }
    }
    if IsWellFormed(t) {
      forall i | 0 <= i < |s| ensures !IsUnpairedAt(s, i) {
        if i >= n {
          assert !IsUnpairedAt(t, i - n);
        }
      }
    }
  }

  /** Appending a unit that is not a surrogate keeps well-formedness in both directions. */
  lemma WellFormedAppendUnit(a: JsString, x: CodeUnit)
    requires !IsSurrogate(x)
    ensures IsWellFormed(a + [x]) <==> IsWellFormed(a)
  {
    var b := a + [x];
    if IsWellFormed(b) {
      forall i | 0 <= i < |a| ensures !IsUnpairedAt(a, i) {
        assert !IsUnpairedAt(b, i);
      }
    }
    if IsWellFormed(a) {
      forall i | 0 <= i < |b| ensures !IsUnpairedAt(b, i) {
        if i < |a| { assert !IsUnpairedAt(a, i); }
      }
    }
  }

  /** When the left part does not end in a surrogate, no pair can span the boundary. */
  lemma WellFormedConcat(a: JsString, b: JsString)
    requires a == [] || !IsSurrogate(a[|a| - 1])
    ensures IsWellFormed(a + b) <==> IsWellFormed(a) && IsWellFormed(b)
  {
    var c := a + b;
    if IsWellFormed(c) {
      forall i | 0 <= i < |a| ensures !IsUnpairedAt(a, i) {
        assert !IsUnpairedAt(c, i);
      }
      forall j | 0 <= j < |b| ensures !IsUnpairedAt(b, j) {
        assert !IsUnpairedAt(c, |a| + j);
        assert c[|a| + j] == b[j];
      }
    }
    if IsWellFormed(a) && IsWellFormed(b) {
      forall i | 0 <= i < |c| ensures !IsUnpairedAt(c, i) {
        if i < |a| {
          assert !IsUnpairedAt(a, i);
        } else {
          assert !IsUnpairedAt(b, i - |a|);
          assert c[i] == b[i - |a|];
        }
      }
    }
  }

  predicate HasNoSurrogate(s: JsString)
  {
    forall i | 0 <= i < |s| :: !IsSurrogate(s[i])
  }

  /** Text without surrogate code units is well formed. */
  lemma NoSurrogateWellFormed(s: JsString)
    requires HasNoSurrogate(s)
    ensures IsWellFormed(s)
  {
  }

  /** Array.prototype.join over strings (section 23.1.3.18 of ECMA-262). */
  function Join(parts: seq<JsString>, sep: JsString): JsString
  {
    if |parts| == 0 then []
    else if |parts| == 1 then parts[0]
    else parts[0] + sep + Join(parts[1..], sep)
  }

  /** Splitting at every occurrence of one code unit, as String.prototype.split does. */
  function SplitOn(t: JsString, sep: CodeUnit): (r: seq<JsString>)
    decreases |t|
    ensures |r| >= 1
    ensures forall k | 0 <= k < |r| :: sep !in r[k]
  {
    if t == [] then [[]]
    else if t[0] == sep then [[]] + SplitOn(t[1..], sep)
    else
      var rest := SplitOn(t[1..], sep);
      [[t[0]] + rest[0]] + rest[1..]
  }

  /** A part free of the separator splits back to itself. */
  lemma {:induction false} SplitOnPart(p: JsString, sep: CodeUnit, rest: JsString)
    requires sep !in p
    ensures SplitOn(p, sep) == [p]
    ensures SplitOn(p + [sep] + rest, sep) == [p] + SplitOn(rest, sep)
    decreases |p|
  {
    if p == [] {
      assert ([] + [sep] + rest)[1..] == rest;
    } else {
      SplitOnPart(p[1..], sep, rest);
      assert (p + [sep] + rest)[1..] == p[1..] + [sep] + rest;
      assert [p[0]] + p[1..] == p;
    }
  }

  /** Splitting undoes joining when no part contains the separator. */
  lemma {:induction false} SplitJoin(parts: seq<JsString>, sep: CodeUnit)
    requires |parts| >= 1
    requires forall k | 0 <= k < |parts| :: sep !in parts[k]
    ensures SplitOn(Join(parts, [sep]), sep) == parts
  {
    if |parts| == 1 {
      SplitOnPart(parts[0], sep, []);
    } else {
      SplitJoin(parts[1..], sep);
      SplitOnPart(parts[0], sep, Join(parts[1..], [sep]));
      assert [parts[0]] + parts[1..] == parts;
    }
  }

  /** Joining undoes splitting, for every string. */
  lemma {:induction false} JoinSplit(t: JsString, sep: CodeUnit)
    ensures Join(SplitOn(t, sep), [sep]) == t
    decreases |t|
  {
    if t == [] {
    } else if t[0] == sep {
      JoinSplit(t[1..], sep);
      assert [sep] + t[1..] == t;
    } else {
      JoinSplit(t[1..], sep);
      var rest := SplitOn(t[1..], sep);
      assert [[t[0]] + rest[0]] + rest[1..] == SplitOn(t, sep);
      if |rest| == 1 {
        assert Join(rest, [sep]) == rest[0];
      } else {
        assert Join(rest, [sep]) == rest[0] + [sep] + Join(rest[1..], [sep]);
      }
      assert [t[0]] + t[1..] == t;
    }
  }

  /**
   * Joining with a separator of non-surrogate units is well formed exactly when every part is:
   * joining neither creates nor repairs an unpaired surrogate.
   */
  lemma {:induction false} WellFormedJoin(parts: seq<JsString>, sep: CodeUnit)
    requires !IsSurrogate(sep)
    ensures IsWellFormed(Join(parts, [sep])) <==> forall k | 0 <= k < |parts| :: IsWellFormed(parts[k])
  {
    if |parts| >= 2 {
      WellFormedJoin(parts[1..], sep);
      WellFormedAppendUnit(parts[0], sep);
      WellFormedConcat(parts[0] + [sep], Join(parts[1..], [sep]));
      assert parts[0] + [sep] + Join(parts[1..], [sep]) == (parts[0] + [sep]) + Join(parts[1..], [sep]);
      assert forall k | 1 <= k < |parts| :: parts[k] == parts[1..][k - 1];
    }
  }
}
