/** Unicode escapes: a code point written as one or two hexadecimal escapes is read as its UTF-8
    encoding (section 7 of RFC 8259, section 3 of RFC 3629). */
module JsonUnicode {
  import opened JsonGrammar

  // ----- UTF-8

  function Byte(c: char): nat
  {
    c as int
  }

  /** Decodes one UTF-8 sequence by its leading byte. */
  function DecodeUtf8(s: string): nat
    requires s != ""
  {
    if Byte(s[0]) < 0x80 || |s| == 1 then Byte(s[0])
    else if Byte(s[0]) < 0xE0 || |s| == 2 then Byte(s[0]) % 0x20 * 0x40 + Byte(s[1]) % 0x40
    else if Byte(s[0]) < 0xF0 || |s| == 3 then Byte(s[0]) % 0x10 * 0x1000 + Byte(s[1]) % 0x40 * 0x40 + Byte(s[2]) % 0x40
    else Byte(s[0]) % 8 * 0x4_0000 + Byte(s[1]) % 0x40 * 0x1000 + Byte(s[2]) % 0x40 * 0x40 + Byte(s[3]) % 0x40
  }

  predicate IsContinuation(c: char)
  {
    0x80 <= Byte(c) < 0xC0
  }

  /** Well-formed UTF-8 for one code point: as short as possible, a leading byte that announces the
      length, continuation bytes after it, and decodable. */
  ghost predicate Encodes(s: string, codepoint: nat)
  {
    && s != "" && DecodeUtf8(s) == codepoint
    && |s| == (if codepoint < 0x80 then 1 else if codepoint < 0x800 then 2 else if codepoint < 0x1_0000 then 3 else 4)
    && (|s| == 1 <==> Byte(s[0]) < 0x80) && (|s| == 2 <==> 0xC0 <= Byte(s[0]) < 0xE0)
    && (|s| == 3 <==> 0xE0 <= Byte(s[0]) < 0xF0) && (|s| == 4 <==> 0xF0 <= Byte(s[0]) < 0xF8)
    && forall k :: 1 <= k < |s| ==> IsContinuation(s[k])
  }

  lemma ContinuationByte(n: nat)
    ensures IsContinuation(Continuation(n)) && Byte(Continuation(n)) % 0x40 == n % 0x40
  {
    assert Byte(Continuation(n)) == 0x80 + n % 0x40;
  }

  /** The six-bit digits of a code point. */
  lemma SixBits(codepoint: nat)
    ensures codepoint == codepoint / 0x40 * 0x40 + codepoint % 0x40
    ensures codepoint / 0x40 == codepoint / 0x1000 * 0x40 + codepoint / 0x40 % 0x40
    ensures codepoint / 0x1000 == codepoint / 0x4_0000 * 0x40 + codepoint / 0x1000 % 0x40
  {
    assert codepoint / 0x40 / 0x40 == codepoint / 0x1000;
    assert codepoint / 0x1000 / 0x40 == codepoint / 0x4_0000;
  }

  lemma Lead(base: nat, n: nat, width: nat)
    requires (base == 0xC0 && width == 0x20) || (base == 0xE0 && width == 0x10) || (base == 0xF0 && width == 8)
    requires n < width
    ensures base + n < 0x100 && Byte((base + n) as char) == base + n && (base + n) % width == n
  {
  }

  /** What the parser appends for a code point is its UTF-8 encoding. */
  lemma Utf8Encodes(codepoint: nat)
    requires codepoint <= 0x10_FFFF
    ensures Encodes(Utf8(codepoint), codepoint)
  {
    hide Continuation, IsContinuation;
    var a, b, c := codepoint / 0x4_0000, codepoint / 0x1000, codepoint / 0x40;
    ContinuationByte(codepoint);
    ContinuationByte(c);
    ContinuationByte(b);
    SixBits(codepoint);
    if 0x80 <= codepoint < 0x800 {
      Lead(0xC0, c, 0x20);
    } else if 0x800 <= codepoint < 0x1_0000 {
      Lead(0xE0, b, 0x10);
    } else if 0x1_0000 <= codepoint {
      Lead(0xF0, a, 8);
    }
  }

  // ----- hexadecimal digits

  function HexChar(n: nat): char
    requires n < 16
  {
    if n < 10 then ('0' as int + n) as char else ('A' as int + n - 10) as char
  }

  lemma HexCharRead(n: nat)
    requires n < 16
    ensures IsHexDigit(HexChar(n)) && HexValue(HexChar(n)) == n && HexChar(n) != '\0'
  {
  }

  function HexText(u: nat): string
    requires u < 0x1_0000
  {
    [HexChar(u / 0x1000), HexChar(u / 0x100 % 16), HexChar(u / 0x10 % 16), HexChar(u % 16)]
  }

  lemma HexStep(n: nat, s: string, digits: nat, value: nat)
    requires n < 16 && 0 < digits <= 4 && value < Sixteens(4 - digits)
    ensures value * 16 + n < Sixteens(4 - (digits - 1))
    ensures Hex4([HexChar(n)] + s, digits, value) == Hex4(s, digits - 1, value * 16 + n)
  {
    HexCharRead(n);
    assert ([HexChar(n)] + s)[1..] == s;
  }

  lemma HexRead(u: nat, s: string)
    requires u < 0x1_0000
    ensures Hex4(HexText(u) + s, 4, 0) == Ok(u, s)
  {
    hide Hex4, HexChar, Sixteens;
    SixteensAre();
    HexParts(u);
    var a, b, c, d := u / 0x1000, u / 0x100 % 16, u / 0x10 % 16, u % 16;
    FourChars(HexChar(a), HexChar(b), HexChar(c), HexChar(d), s);
    HexStep(a, [HexChar(b)] + ([HexChar(c)] + ([HexChar(d)] + s)), 4, 0);
    HexStep(b, [HexChar(c)] + ([HexChar(d)] + s), 3, a);
    HexStep(c, [HexChar(d)] + s, 2, a * 16 + b);
    HexStep(d, s, 1, (a * 16 + b) * 16 + c);
    HexEnds(s, u);
  }

  lemma HexParts(u: nat)
    requires u < 0x1_0000
    ensures u / 0x1000 < 16 && ((u / 0x1000 * 16 + u / 0x100 % 16) * 16 + u / 0x10 % 16) * 16 + u % 16 == u
  {
    assert u / 0x100 / 16 == u / 0x1000 && u / 0x10 / 16 == u / 0x100;
  }

  lemma FourChars(a: char, b: char, c: char, d: char, s: string)
    ensures [a, b, c, d] + s == [a] + ([b] + ([c] + ([d] + s)))
  {
  }

  lemma SixteensAre()
    ensures Sixteens(0) == 1 && Sixteens(4) == 0x1_0000
  {
  }

  lemma HexEnds(s: string, u: nat)
    requires u < Sixteens(4)
    ensures Hex4(s, 0, u) == Ok(u, s)
  {
  }

  // ----- escapes of code points

  function UnitEscape(u: nat): string
    requires u < 0x1_0000
  {
    "\\u" + HexText(u)
  }

  function High(codepoint: nat): nat
    requires 0x1_0000 <= codepoint <= 0x10_FFFF
  {
    0xD800 + (codepoint - 0x1_0000) / 0x400
  }

  function Low(codepoint: nat): nat
    requires 0x1_0000 <= codepoint <= 0x10_FFFF
  {
    0xDC00 + (codepoint - 0x1_0000) % 0x400
  }

  /** The escape of a code point: one code unit, or a surrogate pair. */
  function CodePointEscape(codepoint: nat): string
    requires codepoint <= 0x10_FFFF
  {
    if codepoint < 0x1_0000 then UnitEscape(codepoint) else UnitEscape(High(codepoint)) + UnitEscape(Low(codepoint))
  }

  lemma UnitRead(u: nat, s: string, high: nat, text: string)
    requires u < 0x1_0000 && high < 0x400
    ensures QuotedFrom(UnitEscape(u) + s, '"', high, text)
      == if IsHighSurrogate(u) then QuotedFrom(s, '"', u % 0x400, text)
        else QuotedFrom(s, '"', high, text + Utf8(CodePoint(high, u)))
  {
    hide Hex4, HexText, Utf8;
    HexRead(u, s);
    var t := UnitEscape(u) + s;
    assert t[0] == '\\' && t[1..][0] == 'u' && t[1] == 'u' && t[2..] == HexText(u) + s;
  }

  /** Every Unicode scalar value written as an escape is read as its UTF-8 encoding, whatever high
      surrogate came before. */
  lemma CodePointRead(codepoint: nat, s: string, high: nat, text: string)
    requires codepoint <= 0x10_FFFF && !IsHighSurrogate(codepoint) && !IsLowSurrogate(codepoint) && high < 0x400
    ensures exists after :: after < 0x400 &&
              QuotedFrom(CodePointEscape(codepoint) + s, '"', high, text)
                == QuotedFrom(s, '"', after, text + Utf8(codepoint))
  {
    hide QuotedFrom, UnitEscape, Utf8;
    if codepoint < 0x1_0000 {
      UnitRead(codepoint, s, high, text);
    } else {
      var h, l := High(codepoint), Low(codepoint);
      assert UnitEscape(h) + UnitEscape(l) + s == UnitEscape(h) + (UnitEscape(l) + s);
      UnitRead(h, UnitEscape(l) + s, high, text);
      UnitRead(l, s, h % 0x400, text);
      assert CodePoint(h % 0x400, l) == codepoint;
    }
  }
}
