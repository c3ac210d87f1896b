/** What the JSON parser of pagers-server/json/ArduinoJson.h accepts and returns, as functions of the
    text that is left. The document is large enough, and every value passes the filter. */
module JsonGrammar {
  import opened JsonText
  import opened JsonValue
  import opened Memory

  datatype Parsed<T> = Ok(value: T, rest: string) | Fail(error: Error)

  /** The current character; a text ends with a NUL. */
  function Cur(s: string): char
  {
    if s == "" then '\0' else s[0]
  }

  predicate IsSpace(c: char)
  {
    c == ' ' || c == '\t' || c == '\r' || c == '\n'
  }

  function SkipSpaces(s: string): (t: string)
    ensures |t| <= |s| && !IsSpace(Cur(t))
  {
    if IsSpace(Cur(s)) then SkipSpaces(s[1..]) else s
  }

  /** The text after spaces, which must not be all there was. */
  function Skipped(s: string, found: bool): (r: Parsed<()>)
    ensures r.Ok? ==> |r.rest| <= |s| && r.rest != "" && r.rest[0] != '\0' && !IsSpace(r.rest[0])
  {
    var t := SkipSpaces(s);
    if Cur(t) == '\0' then Fail(if found then IncompleteInput else EmptyInput) else Ok((), t)
  }

  // ----- strings

  predicate IsHighSurrogate(u: nat)
  {
    0xD800 <= u < 0xDC00
  }

  predicate IsLowSurrogate(u: nat)
  {
    0xDC00 <= u < 0xE000
  }

  /** The code point a code unit completes, given the last high surrogate. */
  function CodePoint(high: nat, u: nat): nat
  {
    if IsLowSurrogate(u) then 0x1_0000 + high * 0x400 + u % 0x400 else u
  }

  function Continuation(n: nat): char
  {
    (0x80 + n % 0x40) as char
  }

  function Utf8(codepoint: nat): string
    requires codepoint <= 0x10_FFFF
  {
    if codepoint < 0x80 then [codepoint as char]
    else if codepoint / 0x40 < 0x20 then [(0xC0 + codepoint / 0x40) as char, Continuation(codepoint)]
    else if codepoint / 0x1000 < 0x10 then
      [(0xE0 + codepoint / 0x1000) as char, Continuation(codepoint / 0x40), Continuation(codepoint)]
    else
      [(0xF0 + codepoint / 0x4_0000) as char, Continuation(codepoint / 0x1000), Continuation(codepoint / 0x40),
       Continuation(codepoint)]
  }

  /** A character is a byte. */
  function ByteOf(c: char): char
  {
    (c as int % 0x100) as char
  }

  /** What passes as a hexadecimal digit: beside the digits of both cases also the six characters
      after the nine, and the grave accent. */
  predicate IsHexDigit(c: char)
  {
    var b := ByteOf(c);
    '0' <= b <= '?' || 'A' <= b <= 'F' || 'a' <= b <= 'f' || b == '`'
  }

  function HexValue(c: char): (n: nat)
    requires IsHexDigit(c)
    ensures n <= 15
  {
    var b := ByteOf(c);
    if '0' <= b <= '?' then b as int - '0' as int
    else if 'A' <= b <= 'F' then 10 + b as int - 'A' as int
    else if 'a' <= b <= 'f' then 10 + b as int - 'a' as int
    else 9
  }

  function Hex4(s: string, digits: nat, value: nat): (r: Parsed<nat>)
    requires digits <= 4 && value < Sixteens(4 - digits)
    ensures r.Ok? ==> r.value < 0x1_0000 && |r.rest| <= |s|
    decreases digits
  {
    if digits == 0 then Ok(value, s)
    else if Cur(s) == '\0' then Fail(IncompleteInput)
    else if !IsHexDigit(Cur(s)) then Fail(InvalidInput)
    else Hex4(s[1..], digits - 1, value * 16 + HexValue(Cur(s)))
  }

  function Sixteens(n: nat): nat
  {
    if n == 0 then 1 else 16 * Sixteens(n - 1)
  }

  /** The rest of a quoted string, up to the stop character; text is what was read so far. */
  function QuotedFrom(s: string, stop: char, high: nat, text: string): (r: Parsed<string>)
    requires high < 0x400
    ensures r.Ok? ==> |r.rest| <= |s|
    decreases |s|
  {
    if Cur(s) == stop then Ok(text, if s == "" then "" else s[1..])
    else if Cur(s) == '\0' then Fail(IncompleteInput)
    else if s[0] == '\\' then
      if Cur(s[1..]) == '\0' then Fail(IncompleteInput)
      else if s[1] == 'u' then
        var u := Hex4(s[2..], 4, 0);
        if u.Fail? then Fail(u.error)
        else if IsHighSurrogate(u.value) then QuotedFrom(u.rest, stop, u.value % 0x400, text)
        else QuotedFrom(u.rest, stop, high, text + Utf8(CodePoint(high, u.value)))
      else if Unescape(s[1]) == '\0' then Fail(InvalidInput)
      else QuotedFrom(s[2..], stop, high, text + [Unescape(s[1])])
    else QuotedFrom(s[1..], stop, high, text + [s[0]])
  }

  predicate IsQuote(c: char)
  {
    c == '\'' || c == '"'
  }

  predicate InToken(c: char)
  {
    '0' <= c <= '9' || '_' <= c <= 'z' || 'A' <= c <= 'Z' || c == '+' || c == '-' || c == '.'
  }

  function Token(s: string, most: nat): (t: string)
    ensures |t| <= |s| && |t| <= most && s[..|t|] == t
    ensures most != 0 && InToken(Cur(s)) ==> t != "" && t[0] == s[0]
    ensures !InToken(Cur(s)) ==> t == ""
  {
    if most == 0 || !InToken(Cur(s)) then "" else [s[0]] + Token(s[1..], most - 1)
  }

  function Key(s: string): (r: Parsed<string>)
    requires s != "" && s[0] != '\0'
    ensures r.Ok? ==> |r.rest| < |s|
  {
    if IsQuote(s[0]) then QuotedFrom(s[1..], s[0], 0, "")
    else if InToken(s[0]) then Ok(Token(s, |s|), s[|Token(s, |s|)|..])
    else Fail(InvalidInput)
  }

  // ----- numbers and words

  predicate IsDigit(c: char)
  {
    '0' <= c <= '9'
  }

  function DigitValue(c: char): nat
    requires IsDigit(c)
  {
    c as int - '0' as int
  }

  /** The mantissa, and what it leaves of the text: it stops before a digit that would overflow. */
  function Mantissa(s: string, m: nat): (r: Parsed<nat>)
    requires m <= UINT64_MAX
    ensures r.Ok? && (r.rest == "" ==> r.value <= UINT64_MAX)
    decreases |s|
  {
    if !IsDigit(Cur(s)) || m > UINT64_MAX / 10 || m * 10 > UINT64_MAX - DigitValue(s[0]) then Ok(m, s)
    else Mantissa(s[1..], m * 10 + DigitValue(s[0]))
  }

  /** A number that is not an integer in range is left to the float code. */
  function Number(token: string): Parsed<Value>
  {
    var negative := Cur(token) == '-';
    var s := if negative || Cur(token) == '+' then token[1..] else token;
    if !IsDigit(Cur(s)) && Cur(s) != '.' then Fail(InvalidInput)
    else
      var m := Mantissa(s, 0);
      if m.rest != "" then Fail(FloatNotModelled)
      else if !negative then Ok(Unsigned(m.value), "")
      else if m.value <= -INT64_MIN then Ok(Signed(0 - m.value as int), "")
      else Fail(FloatNotModelled)
  }

  /** A token of at most 63 characters; null leaves the value as it was. */
  function Numeric(s: string, before: Value): (r: Parsed<Value>)
    ensures r.Ok? ==> |r.rest| < |s|
  {
    var t := Token(s, 63);
    var rest := s[|t|..];
    if Cur(t) == 't' then if |t| == 4 then Ok(Bool(true), rest) else Fail(IncompleteInput)
    else if Cur(t) == 'f' then if |t| == 5 then Ok(Bool(false), rest) else Fail(IncompleteInput)
    else if Cur(t) == 'n' then if |t| == 4 then Ok(before, rest) else Fail(IncompleteInput)
    else
      var n := Number(t);
      if n.Ok? then Ok(n.value, rest) else Fail(n.error)
  }

  // ----- values

  function IndexOf(ms: seq<Member>, key: string): (i: nat)
    ensures i <= |ms| && (i < |ms| ==> ms[i].key == key) && forall k :: 0 <= k < i ==> ms[k].key != key
  {
    if ms == [] || ms[0].key == key then 0 else 1 + IndexOf(ms[1..], key)
  }

  /** The value a member has before it is parsed: a repeated key keeps its slot. */
  function Before(ms: seq<Member>, key: string): Value
  {
    var i := IndexOf(ms, key);
    if i < |ms| then ms[i].value else Null
  }

  function WithMember(ms: seq<Member>, key: string, v: Value): seq<Member>
  {
    var i := IndexOf(ms, key);
    if i < |ms| then ms[i := Member(key, v)] else ms + [Member(key, v)]
  }

  function Variant(s: string, limit: nat, found: bool, before: Value): (r: Parsed<Value>)
    ensures r.Ok? ==> |r.rest| < |s|
    decreases |s|, 3
  {
    var t := Skipped(s, found);
    if t.Fail? then Fail(t.error)
    else if t.rest[0] == '[' then Array(t.rest, limit)
    else if t.rest[0] == '{' then Object(t.rest, limit)
    else if IsQuote(t.rest[0]) then StringValue(t.rest)
    else Numeric(t.rest, before)
  }

  function StringValue(s: string): (r: Parsed<Value>)
    requires s != ""
    ensures r.Ok? ==> |r.rest| < |s|
  {
    var q := QuotedFrom(s[1..], s[0], 0, "");
    if q.Ok? then Ok(Str(q.value), q.rest) else Fail(q.error)
  }

  function Array(s: string, limit: nat): (r: Parsed<Value>)
    requires s != ""
    ensures r.Ok? ==> |r.rest| < |s|
    decreases |s|, 2
  {
    if limit == 0 then Fail(TooDeep)
    else
      var t := Skipped(s[1..], true);
      if t.Fail? then Fail(t.error)
      else if t.rest[0] == ']' then Ok(Arr([]), t.rest[1..])
      else Elements(t.rest, limit - 1, [])
  }

  /** One or more elements, the comma or bracket after each; vs are the elements so far. */
  function Elements(s: string, limit: nat, vs: seq<Value>): (r: Parsed<Value>)
    ensures r.Ok? ==> |r.rest| < |s|
    decreases |s|, 4
  {
    var v := Variant(s, limit, true, Null);
    if v.Fail? then Fail(v.error)
    else
      var t := Skipped(v.rest, true);
      if t.Fail? then Fail(t.error)
      else if t.rest[0] == ']' then Ok(Arr(vs + [v.value]), t.rest[1..])
      else if t.rest[0] == ',' then Elements(t.rest[1..], limit, vs + [v.value])
      else Fail(InvalidInput)
  }

  function Object(s: string, limit: nat): (r: Parsed<Value>)
    requires s != ""
    ensures r.Ok? ==> |r.rest| < |s|
    decreases |s|, 2
  {
    if limit == 0 then Fail(TooDeep)
    else
      var t := Skipped(s[1..], true);
      if t.Fail? then Fail(t.error)
      else if t.rest[0] == '}' then Ok(Obj([]), t.rest[1..])
      else Members(t.rest, limit - 1, [])
  }

  function Members(s: string, limit: nat, ms: seq<Member>): (r: Parsed<Value>)
    requires s != "" && s[0] != '\0'
    ensures r.Ok? ==> |r.rest| < |s|
    decreases |s|, 1
  {
    var m := OneMember(s, limit, ms);
    if m.Fail? then Fail(m.error)
    else
      var t := Skipped(m.rest, true);
      if t.Fail? then Fail(t.error)
      else if t.rest[0] == '}' then Ok(Obj(m.value), t.rest[1..])
      else if t.rest[0] != ',' then Fail(InvalidInput)
      else
        var u := Skipped(t.rest[1..], true);
        if u.Fail? then Fail(u.error) else Members(u.rest, limit, m.value)
  }

  /** A key, the colon and a value; the key counts up to its first NUL. */
  function OneMember(s: string, limit: nat, ms: seq<Member>): (r: Parsed<seq<Member>>)
    requires s != "" && s[0] != '\0'
    ensures r.Ok? ==> |r.rest| < |s|
    decreases |s|, 0
  {
    var k := Key(s);
    if k.Fail? then Fail(k.error)
    else
      var t := Skipped(k.rest, true);
      if t.Fail? then Fail(t.error)
      else if t.rest[0] != ':' then Fail(InvalidInput)
      else
        var key := UpToNul(k.value);
        var v := Variant(t.rest[1..], limit, true, Before(ms, key));
        if v.Fail? then Fail(v.error) else Ok(WithMember(ms, key, v.value), v.rest)
  }

  /** A whole document: nothing may follow a number, but anything may follow another value. */
  function Document(s: string, limit: nat): Parsed<Value>
  {
    var v := Variant(s, limit, false, Null);
    if v.Ok? && (v.value.Signed? || v.value.Unsigned?) && Cur(v.rest) != '\0' then Fail(InvalidInput) else v
  }
}
