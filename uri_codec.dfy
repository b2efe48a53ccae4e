/**
 * encodeURIComponent and decodeURIComponent (sections 19.2.6.4 and 19.2.6.2 of ECMA-262,
 * through the Encode and Decode operations of sections 19.2.6.5 and 19.2.6.6): UTF-8 octets written as
 * upper-case "%XY" escapes, the unreserved characters of section 2.3 of RFC 3986 plus
 * "!", "*", "'", "(" and ")" copied through.
 */
module UriCodec {
  import opened Results
  import opened JsText

  type Byte = x: int | 0 <= x < 0x100

  /** The URIError exception both operations throw. */
  datatype URIError = URIError

  const Percent: CodeUnit := 0x25

  predicate IsUriAlpha(u: CodeUnit)     { 0x41 <= u <= 0x5A || 0x61 <= u <= 0x7A }

  /** uriMark: - _ . ! ~ * ' ( ) */
  predicate IsUriMark(u: CodeUnit)
  {
    u == 0x2D || u == 0x5F || u == 0x2E || u == 0x21 || u == 0x7E ||
    u == 0x2A || u == 0x27 || u == 0x28 || u == 0x29
  }

  /** The unescaped set of encodeURIComponent: uriAlpha, DecimalDigit and uriMark. */
  predicate IsUnreserved(u: CodeUnit)
  {
    IsUriAlpha(u) || IsDecimalDigit(u) || IsUriMark(u)
  }

  predicate IsUpperHexDigit(u: CodeUnit) { 0x30 <= u <= 0x39 || 0x41 <= u <= 0x46 }

  /** The UTF-8 encoding of a Unicode scalar value (table 3-6 of the Unicode Standard). */
  function Utf8Encode(cp: CodePoint): (r: seq<Byte>)
    requires !IsSurrogate(cp)
    ensures 1 <= |r| <= 4
    ensures |r| == 1 <==> cp < 0x80
    ensures |r| == 2 <==> 0x80 <= cp < 0x800
    ensures |r| == 3 <==> 0x800 <= cp < 0x1_0000
    ensures |r| == 1 ==> r == [cp]
    ensures forall i | 1 <= i < |r| :: IsContinuation(r[i])
  {
    if cp < 0x80 then [cp]
    else if cp < 0x800 then [0xC0 + cp / 64, 0x80 + cp % 64]
    else if cp < 0x1_0000 then [0xE0 + cp / 4096, 0x80 + (cp / 64) % 64, 0x80 + cp % 64]
    else [0xF0 + cp / 0x4_0000, 0x80 + (cp / 4096) % 64, 0x80 + (cp / 64) % 64, 0x80 + cp % 64]
  }

  /** An upper-case hexadecimal digit, as Encode writes it. */
  function HexDigit(n: int): (u: CodeUnit)
    requires 0 <= n < 16
    ensures IsUpperHexDigit(u)
  {
    if n < 10 then 0x30 + n else 0x41 + (n - 10)
  }

  /** "%" followed by the two hexadecimal digits of one octet. */
  function PercentEscape(b: Byte): JsString
  {
    [Percent, HexDigit(b / 16), HexDigit(b % 16)]
  }

  function PercentEscapeAll(octets: seq<Byte>): (r: JsString)
    ensures |r| == 3 * |octets|
  {
    if octets == [] then [] else PercentEscape(octets[0]) + PercentEscapeAll(octets[1..])
  }

  /** Prefix a successful result; an exception passes through unchanged. */
  function Prepend(p: JsString, r: Result<JsString, URIError>): Result<JsString, URIError>
  {
    match r
    case Ok(v) => Ok(p + v)
    case Err(e) => Err(e)
  }

  /**
   * encodeURIComponent(s): Encode(s, unescapedSet) read off the front of the string. An
   * unreserved unit is copied; any other code point is written as its UTF-8 octets, each as
   * "%XY"; an unpaired surrogate throws URIError.
   */
  function EncodeURIComponent(s: JsString): Result<JsString, URIError>
    decreases |s|
  {
    if s == [] then Ok([])
    else if IsUnreserved(s[0]) then Prepend([s[0]], EncodeURIComponent(s[1..]))
    else
      var c := CodePointAt(s);
      if c.isUnpairedSurrogate then Err(URIError)
      else Prepend(PercentEscapeAll(Utf8Encode(c.codePoint)), EncodeURIComponent(s[c.codeUnitCount..]))
  }

  /** The value of one hexadecimal digit of either case. */
  function HexValue(u: CodeUnit): (r: Option<int>)
    ensures r.Some? ==> 0 <= r.value < 16
  {
    if 0x30 <= u <= 0x39 then Some(u - 0x30)
    else if 0x41 <= u <= 0x46 then Some(u - 0x41 + 10)
    else if 0x61 <= u <= 0x66 then Some(u - 0x61 + 10)
    else None
  }

  /** The octet written as "%XY" at index k, if there is one. */
  function EscapedOctetAt(t: JsString, k: nat): Option<Byte>
  {
    if k + 3 <= |t| && t[k] == Percent then
      match (HexValue(t[k + 1]), HexValue(t[k + 2]))
      case (Some(hi), Some(lo)) => Some(hi * 16 + lo)
      case _ => None
    else None
  }

  /** The number of leading 1 bits of an octet. */
  function LeadingOnes(b: Byte): nat
  {
    if b < 0x80 then 0
    else if b < 0xC0 then 1
    else if b < 0xE0 then 2
    else if b < 0xF0 then 3
    else if b < 0xF8 then 4
    else if b < 0xFC then 5
    else if b < 0xFE then 6
    else if b < 0xFF then 7
    else 8
  }

  /** The count escaped octets that follow index k, one "%XY" after another. */
  function EscapedOctets(t: JsString, k: nat, count: nat): (r: Option<seq<Byte>>)
    ensures r.Some? ==> |r.value| == count && (count > 0 ==> k + 3 * count <= |t|)
    decreases count
  {
    if count == 0 then Some([])
    else
      match EscapedOctetAt(t, k)
      case None => None
      case Some(b) =>
        match EscapedOctets(t, k + 3, count - 1)
        case None => None
        case Some(more) => Some([b] + more)
  }

  /** The bits a multi-octet UTF-8 sequence carries, whatever its marker bits. */
  function Utf8Bits(octets: seq<Byte>): int
    requires 2 <= |octets| <= 4
  {
    var o := octets;
    if |o| == 2 then (o[0] as int % 32) * 64 + o[1] as int % 64
    else if |o| == 3 then (o[0] as int % 16) * 4096 + (o[1] as int % 64) * 64 + o[2] as int % 64
    else (o[0] as int % 8) * 0x4_0000 + (o[1] as int % 64) * 4096 + (o[2] as int % 64) * 64 + o[3] as int % 64
  }

  /** A UTF-8 continuation octet, 10xxxxxx. */
  predicate IsContinuation(b: int) { 0x80 <= b < 0xC0 }

  /** The least code point that takes n octets in UTF-8, for n from 2 to 4. */
  function Utf8Least(n: nat): int
  {
    if n == 2 then 0x80 else if n == 3 then 0x800 else 0x1_0000
  }

  /**
   * The code point a multi-octet sequence encodes, when it is the UTF-8 encoding of one (table
   * 3-7 of the Unicode Standard): the lead octet announces the length, every other octet is a
   * continuation, and the value is in shortest form, not a surrogate and at most U+10FFFF.
   */
  function Utf8DecodeOctets(octets: seq<Byte>): (r: Option<CodePoint>)
    requires 2 <= |octets| <= 4
    ensures r.Some? ==> !IsSurrogate(r.value) && Utf8Least(|octets|) <= r.value
  {
    var v := Utf8Bits(octets);
    if && LeadingOnes(octets[0]) == |octets|
       && (forall i | 1 <= i < |octets| :: IsContinuation(octets[i]))
       && Utf8Least(|octets|) <= v < 0x11_0000 && !IsSurrogate(v)
    then Some(v) else None
  }

  /**
   * decodeURIComponent(t): Decode(t, "") read off the front of the string. Units other than
   * "%" are copied; "%XY" below 0x80 becomes that unit; a lead octet with n leading 1 bits and
   * n - 1 further escapes must form a UTF-8 encoding; every malformed escape throws URIError.
   */
  function DecodeURIComponent(t: JsString): Result<JsString, URIError>
    decreases |t|
  {
    if t == [] then Ok([])
    else if t[0] != Percent then Prepend([t[0]], DecodeURIComponent(t[1..]))
    else
      match EscapedOctetAt(t, 0)
      case None => Err(URIError)
      case Some(b) =>
        var n := LeadingOnes(b);
        if n == 0 then Prepend([b], DecodeURIComponent(t[3..]))
        else if n == 1 || n > 4 then Err(URIError)
        else
          match EscapedOctets(t, 3, n - 1)
          case None => Err(URIError)
          case Some(more) =>
            match Utf8DecodeOctets([b] + more)
            case None => Err(URIError)
            case Some(v) => Prepend(Utf16Encode(v), DecodeURIComponent(t[3 * n..]))
  }

  /** The shape of encodeURIComponent's output: unreserved units and upper-case "%XY" escapes. */
  predicate IsEscapedForm(t: JsString)
    decreases |t|
  {
    t == [] ||
    (IsUnreserved(t[0]) && IsEscapedForm(t[1..])) ||
    (|t| >= 3 && t[0] == Percent && IsUpperHexDigit(t[1]) && IsUpperHexDigit(t[2]) && IsEscapedForm(t[3..]))
  }

  // ---------------------------------------------------------------------------------
  // Lemmas

  lemma HexDigitValue(n: int)
    requires 0 <= n < 16
    ensures HexValue(HexDigit(n)) == Some(n)
  {
  }

  /** An escape reads back as the octet it was written from. */
  lemma EscapeReadsBack(b: Byte)
    ensures EscapedOctetAt(PercentEscape(b), 0) == Some(b)
  {
    HexDigitValue(b / 16);
    HexDigitValue(b % 16);
  }

  /** Reading an escape looks at three code units only. */
  lemma EscapedOctetAtWindow(t: JsString, k: nat, u: JsString)
    requires k + 3 <= |t| && u == t[k..k + 3]
    ensures EscapedOctetAt(t, k) == EscapedOctetAt(u, 0)
  {
    assert t[k] == u[0] && t[k + 1] == u[1] && t[k + 2] == u[2];
  }

  /** Each escape in an escaped run reads back as its octet. */
  lemma {:induction false} EscapedOctetAtRun(octets: seq<Byte>, rest: JsString, i: nat)
    requires i < |octets|
    ensures EscapedOctetAt(PercentEscapeAll(octets) + rest, 3 * i) == Some(octets[i])
    decreases i
  {
    var t := PercentEscapeAll(octets) + rest;
    assert t == PercentEscape(octets[0]) + (PercentEscapeAll(octets[1..]) + rest);
    if i == 0 {
      EscapeReadsBack(octets[0]);
      EscapedOctetAtWindow(t, 0, PercentEscape(octets[0]));
    } else {
      EscapedOctetAtRun(octets[1..], rest, i - 1);
      var t' := PercentEscapeAll(octets[1..]) + rest;
      var w := t'[3 * (i - 1)..3 * (i - 1) + 3];
      assert t[3 * i..3 * i + 3] == w;
      EscapedOctetAtWindow(t, 3 * i, w);
      EscapedOctetAtWindow(t', 3 * (i - 1), w);
    }
  }

  /** A run of escapes reads back as its octets. */
  lemma {:induction false} EscapedOctetsRun(octets: seq<Byte>, rest: JsString, j: nat, count: nat)
    requires j + count <= |octets|
    ensures EscapedOctets(PercentEscapeAll(octets) + rest, 3 * j, count) == Some(octets[j..j + count])
    decreases count
  {
    if count > 0 {
      var t := PercentEscapeAll(octets) + rest;
      assert 3 * j + 3 == 3 * (j + 1);
      EscapedOctetAtRun(octets, rest, j);
      EscapedOctetsRun(octets, rest, j + 1, count - 1);
      assert EscapedOctets(t, 3 * j + 3, count - 1) == Some(octets[j + 1..j + count]);
      assert [octets[j]] + octets[j + 1..j + count] == octets[j..j + count];
    } else {
      assert octets[j..j] == [];
    }
  }

  /** Splitting off the low six bits of a value. */
  lemma LowSixBits(x: int)
    requires x >= 0
    ensures x == 64 * (x / 64) + x % 64 && 0 <= x % 64 < 64
    ensures (0x80 + x % 64) % 64 == x % 64
  {
  }

  lemma Utf8TwoOctets(cp: CodePoint)
    requires 0x80 <= cp < 0x800
    ensures LeadingOnes(Utf8Encode(cp)[0]) == 2 && Utf8Bits(Utf8Encode(cp)) == cp
  {
    LowSixBits(cp);
    var c1 := cp / 64;
    assert 2 <= c1 < 32;
    assert (0xC0 + c1) % 32 == c1;
  }

  lemma Utf8ThreeOctets(cp: CodePoint)
    requires 0x800 <= cp < 0x1_0000 && !IsSurrogate(cp)
    ensures LeadingOnes(Utf8Encode(cp)[0]) == 3 && Utf8Bits(Utf8Encode(cp)) == cp
  {
    LowSixBits(cp);
    var c1 := cp / 64;
    LowSixBits(c1);
    var c2 := c1 / 64;
    assert cp / 4096 == c2;
    assert 0 <= c2 < 16;
    assert (0xE0 + c2) % 16 == c2;
    assert Utf8Encode(cp) == [0xE0 + c2, 0x80 + c1 % 64, 0x80 + cp % 64];
  }

  lemma Utf8FourOctets(cp: CodePoint)
    requires 0x1_0000 <= cp
    ensures LeadingOnes(Utf8Encode(cp)[0]) == 4 && Utf8Bits(Utf8Encode(cp)) == cp
  {
    LowSixBits(cp);
    var c1 := cp / 64;
    LowSixBits(c1);
    var c2 := c1 / 64;
    LowSixBits(c2);
    var c3 := c2 / 64;
    assert cp / 4096 == c2;
    assert cp / 0x4_0000 == c3;
    assert 0 <= c3 < 8;
    assert (0xF0 + c3) % 8 == c3;
    assert Utf8Encode(cp) == [0xF0 + c3, 0x80 + c2 % 64, 0x80 + c1 % 64, 0x80 + cp % 64];
  }

  /** The lead octet of a multi-octet encoding announces its length, and the bits give it back. */
  lemma Utf8LeadAndBits(cp: CodePoint)
    requires !IsSurrogate(cp) && cp >= 0x80
    ensures LeadingOnes(Utf8Encode(cp)[0]) == |Utf8Encode(cp)|
    ensures Utf8Bits(Utf8Encode(cp)) == cp
  {
    if cp < 0x800 { Utf8TwoOctets(cp); }
    else if cp < 0x1_0000 { Utf8ThreeOctets(cp); }
    else { Utf8FourOctets(cp); }
  }

  /** The weights that UTF-8 divides by: lead octet marker sizes and the six-bit groups. */
  predicate IsUtf8Weight(m: int)
  {
    m == 8 || m == 16 || m == 32 || m == 64 || m == 4096 || m == 0x4_0000
  }

  /** Division by m of m * q + r, with r less than m, gives back q and r. */
  lemma DivModOf(q: int, r: int, m: int)
    requires q >= 0 && IsUtf8Weight(m) && 0 <= r < m
    ensures (m * q + r) / m == q && (m * q + r) % m == r
  {
    if m == 8 {
      assert (8 * q + r) / 8 == q;
    } else if m == 16 {
      assert (16 * q + r) / 16 == q;
    } else if m == 32 {
      assert (32 * q + r) / 32 == q;
    } else if m == 64 {
      assert (64 * q + r) / 64 == q;
    } else if m == 4096 {
      assert (4096 * q + r) / 4096 == q;
    } else {
      assert (0x4_0000 * q + r) / 0x4_0000 == q;
    }
  }

  /** What the decoder's test establishes about octets it accepts. */
  lemma Utf8DecodeFacts(o: seq<Byte>)
    requires 2 <= |o| <= 4 && Utf8DecodeOctets(o).Some?
    ensures LeadingOnes(o[0]) == |o| && Utf8DecodeOctets(o).value == Utf8Bits(o)
    ensures forall i | 1 <= i < |o| :: IsContinuation(o[i])
  {
  }

  /** An octet between base and base + m, with m dividing base, has x - base as its low bits. */
  lemma LowBitsOf(x: int, base: int, m: int)
    requires IsUtf8Weight(m) && base >= 0 && base % m == 0 && base <= x < base + m
    ensures x % m == x - base
  {
    assert base == m * (base / m);
    DivModOf(base / m, x - base, m);
  }

  /** Two octets that pass the decoder's test are the UTF-8 encoding of the value read. */
  lemma Utf8ReencodeTwo(o: seq<Byte>)
    requires |o| == 2 && Utf8DecodeOctets(o).Some?
    ensures Utf8Encode(Utf8DecodeOctets(o).value) == o
  {
    Utf8DecodeFacts(o);
    var o0, o1 := o[0], o[1];
    assert IsContinuation(o1);
    LowBitsOf(o0, 0xC0, 32);
    LowBitsOf(o1, 0x80, 64);
    DivModOf(o0 - 0xC0, o1 - 0x80, 64);
    assert o == [o0, o1];
  }

  /** The three octets Utf8Encode writes for the value with 4-, 6- and 6-bit parts a, b, c. */
  lemma Utf8EncodeThreeParts(a: int, b: int, c: int)
    requires 0 <= a < 16 && 0 <= b < 64 && 0 <= c < 64
    requires 0x800 <= 4096 * a + 64 * b + c && !IsSurrogate(4096 * a + 64 * b + c)
    ensures Utf8Encode(4096 * a + 64 * b + c) == [0xE0 + a, 0x80 + b, 0x80 + c]
  {
    var v := 4096 * a + 64 * b + c;
    assert v == 64 * (64 * a + b) + c;
    DivModOf(64 * a + b, c, 64);
    DivModOf(a, b, 64);
    DivModOf(a, 64 * b + c, 4096);
  }

  /** The four octets Utf8Encode writes for the value with 3-, 6-, 6- and 6-bit parts. */
  lemma Utf8EncodeFourParts(a: int, b: int, c: int, e: int)
    requires 0 <= a < 8 && 0 <= b < 64 && 0 <= c < 64 && 0 <= e < 64
    requires 0x1_0000 <= 0x4_0000 * a + 4096 * b + 64 * c + e < 0x11_0000
    ensures Utf8Encode(0x4_0000 * a + 4096 * b + 64 * c + e)
            == [0xF0 + a, 0x80 + b, 0x80 + c, 0x80 + e]
  {
    var v := 0x4_0000 * a + 4096 * b + 64 * c + e;
    assert v == 64 * (64 * (64 * a + b) + c) + e;
    DivModOf(64 * (64 * a + b) + c, e, 64);
    DivModOf(64 * a + b, c, 64);
    DivModOf(a, b, 64);
    assert v == 4096 * (64 * a + b) + (64 * c + e);
    DivModOf(64 * a + b, 64 * c + e, 4096);
    DivModOf(a, 4096 * b + 64 * c + e, 0x4_0000);
  }

  /** Three octets that pass the decoder's test are the UTF-8 encoding of the value read. */
  lemma Utf8ReencodeThree(o: seq<Byte>)
    requires |o| == 3 && Utf8DecodeOctets(o).Some?
    ensures Utf8Encode(Utf8DecodeOctets(o).value) == o
  {
    Utf8DecodeFacts(o);
    var o0, o1, o2 := o[0], o[1], o[2];
    assert IsContinuation(o1) && IsContinuation(o2);
    LowBitsOf(o0, 0xE0, 16);
    LowBitsOf(o1, 0x80, 64);
    LowBitsOf(o2, 0x80, 64);
    Utf8EncodeThreeParts(o0 - 0xE0, o1 - 0x80, o2 - 0x80);
    assert o == [o0, o1, o2];
  }

  /** Four octets that pass the decoder's test are the UTF-8 encoding of the value read. */
  lemma Utf8ReencodeFour(o: seq<Byte>)
    requires |o| == 4 && Utf8DecodeOctets(o).Some?
    ensures Utf8Encode(Utf8DecodeOctets(o).value) == o
  {
    Utf8DecodeFacts(o);
    var o0, o1, o2, o3 := o[0], o[1], o[2], o[3];
    assert IsContinuation(o1) && IsContinuation(o2) && IsContinuation(o3);
    LowBitsOf(o0, 0xF0, 8);
    LowBitsOf(o1, 0x80, 64);
    LowBitsOf(o2, 0x80, 64);
    LowBitsOf(o3, 0x80, 64);
    Utf8EncodeFourParts(o0 - 0xF0, o1 - 0x80, o2 - 0x80, o3 - 0x80);
    assert o == [o0, o1, o2, o3];
  }

  /**
   * The decoder's test accepts exactly the UTF-8 encodings: what it accepts re-encodes to the
   * octets read, and (DecodeEscapedCodePoint) the encoding of every scalar value passes it.
   */
  lemma Utf8DecodeReencodes(octets: seq<Byte>)
    requires 2 <= |octets| <= 4
    ensures Utf8DecodeOctets(octets).Some? ==> Utf8Encode(Utf8DecodeOctets(octets).value) == octets
  {
    if Utf8DecodeOctets(octets).Some? {
      if |octets| == 2 { Utf8ReencodeTwo(octets); }
      else if |octets| == 3 { Utf8ReencodeThree(octets); }
      else { Utf8ReencodeFour(octets); }
    }
  }

  /** The UTF-8 encoding of every scalar value from U+0080 on passes the decoder's test. */
  lemma Utf8EncodingPasses(cp: CodePoint)
    requires !IsSurrogate(cp) && cp >= 0x80
    ensures 2 <= |Utf8Encode(cp)| && Utf8DecodeOctets(Utf8Encode(cp)) == Some(cp)
  {
    Utf8LeadAndBits(cp);
  }

  /** Decoding the escaped UTF-8 octets of one code point yields its UTF-16 units. */
  lemma DecodeEscapedCodePoint(cp: CodePoint, rest: JsString)
    requires !IsSurrogate(cp)
    ensures DecodeURIComponent(PercentEscapeAll(Utf8Encode(cp)) + rest)
            == Prepend(Utf16Encode(cp), DecodeURIComponent(rest))
  {
    var octets := Utf8Encode(cp);
    var n := |octets|;
    var t := PercentEscapeAll(octets) + rest;
    EscapedOctetAtRun(octets, rest, 0);
    assert t[0] == Percent;
    assert t[3 * n..] == rest;
    if n == 1 {
      assert t[3..] == rest;
    } else {
      Utf8LeadAndBits(cp);
      Utf8EncodingPasses(cp);
      EscapedOctetsRun(octets, rest, 1, n - 1);
      assert [octets[0]] + octets[1..n] == octets;
    }
  }

  /** decodeURIComponent undoes encodeURIComponent whenever the latter does not throw. */
  lemma {:induction false} DecodeEncode(s: JsString)
    ensures EncodeURIComponent(s).Ok? ==> DecodeURIComponent(EncodeURIComponent(s).value) == Ok(s)
    decreases |s|
  {
    if s != [] {
      if IsUnreserved(s[0]) {
        DecodeEncode(s[1..]);
        if EncodeURIComponent(s[1..]).Ok? {
          var e := EncodeURIComponent(s[1..]).value;
          assert ([s[0]] + e)[1..] == e;
          assert [s[0]] + s[1..] == s;
        }
      } else {
        var c := CodePointAt(s);
        if !c.isUnpairedSurrogate {
          var n := c.codeUnitCount;
          DecodeEncode(s[n..]);
          if EncodeURIComponent(s[n..]).Ok? {
            DecodeEscapedCodePoint(c.codePoint, EncodeURIComponent(s[n..]).value);
            assert s[..n] + s[n..] == s;
          }
        }
      }
    }
  }

  /** encodeURIComponent throws exactly on strings with an unpaired surrogate. */
  lemma {:induction false} EncodeThrowsIffIllFormed(s: JsString)
    ensures EncodeURIComponent(s).Err? <==> !IsWellFormed(s)
    decreases |s|
  {
    if s != [] {
      var c := CodePointAt(s);
      if c.isUnpairedSurrogate {
        if !IsUnreserved(s[0]) {
          assert IsUnpairedAt(s, 0);
        }
      } else {
        WellFormedStep(s);
        EncodeThrowsIffIllFormed(s[c.codeUnitCount..]);
      }
    }
  }

  /** An escaped run followed by escaped-form text is in escaped form. */
  lemma {:induction false} EscapedRunForm(octets: seq<Byte>, rest: JsString)
    requires IsEscapedForm(rest)
    ensures IsEscapedForm(PercentEscapeAll(octets) + rest)
    decreases |octets|
  {
    if octets != [] {
      EscapedRunForm(octets[1..], rest);
      var t := PercentEscapeAll(octets) + rest;
      assert t == PercentEscape(octets[0]) + (PercentEscapeAll(octets[1..]) + rest);
      assert t[..3] == PercentEscape(octets[0]);
      assert t[0] == Percent && IsUpperHexDigit(t[1]) && IsUpperHexDigit(t[2]);
      assert t[3..] == PercentEscapeAll(octets[1..]) + rest;
    } else {
      assert PercentEscapeAll(octets) + rest == rest;
    }
  }

  /** encodeURIComponent's output holds only unreserved units and upper-case "%XY" escapes. */
  lemma {:induction false} EncodeOutputForm(s: JsString)
    ensures EncodeURIComponent(s).Ok? ==> IsEscapedForm(EncodeURIComponent(s).value)
    decreases |s|
  {
    if s != [] {
      if IsUnreserved(s[0]) {
        EncodeOutputForm(s[1..]);
        if EncodeURIComponent(s[1..]).Ok? {
          var e := EncodeURIComponent(s[1..]).value;
          assert ([s[0]] + e)[1..] == e;
        }
      } else {
        var c := CodePointAt(s);
        if !c.isUnpairedSurrogate {
          EncodeOutputForm(s[c.codeUnitCount..]);
          if EncodeURIComponent(s[c.codeUnitCount..]).Ok? {
            EscapedRunForm(Utf8Encode(c.codePoint), EncodeURIComponent(s[c.codeUnitCount..]).value);
          }
        }
      }
    }
  }

  /** Every unit of escaped-form text is unreserved, "%" or an upper-case hexadecimal digit. */
  lemma {:induction false} EscapedFormUnits(t: JsString)
    requires IsEscapedForm(t)
    ensures forall i | 0 <= i < |t| :: IsUnreserved(t[i]) || t[i] == Percent || IsUpperHexDigit(t[i])
    decreases |t|
  {
    if t != [] {
      if IsUnreserved(t[0]) && IsEscapedForm(t[1..]) {
        EscapedFormUnits(t[1..]);
        assert forall i | 1 <= i < |t| :: t[i] == t[1..][i - 1];
      } else {
        EscapedFormUnits(t[3..]);
        assert forall i | 3 <= i < |t| :: t[i] == t[3..][i - 3];
      }
    }
  }
}
