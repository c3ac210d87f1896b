/** Parsing the text of a value gives the value back. */
module JsonRoundTrip {
  import opened JsonGrammar
  import opened JsonText
  import opened JsonValue
  import opened Memory

  lemma Associates(a: string, b: string, c: string)
    ensures a + b + c == a + (b + c)
  {
  }

  lemma Regroups(a: string, b: string, c: string, d: string)
    ensures a + (b + c) + d == a + (b + (c + d))
  {
  }

  /** The text goes on with something that cannot belong to a number or a word. */
  predicate Ends(rest: string)
  {
    !InToken(Cur(rest))
  }

  lemma NoSpaces(s: string, found: bool)
    requires s != "" && s[0] != '\0' && !IsSpace(s[0])
    ensures Skipped(s, found) == Ok((), s)
  {
  }

  lemma Punctuation(c: char, rest: string)
    requires c == ',' || c == ':' || c == ']' || c == '}'
    ensures Ends([c] + rest) && ([c] + rest)[0] == c && ([c] + rest)[1..] == rest
    ensures forall found :: Skipped([c] + rest, found) == Ok((), [c] + rest)
  {
    forall found
      ensures Skipped([c] + rest, found) == Ok((), [c] + rest)
    {
      NoSpaces([c] + rest, found);
    }
  }

  // ----- strings

  lemma FourZeros(s: string)
    ensures Hex4("0000" + s, 4, 0) == Ok(0, s)
  {
    var t := "0000" + s;
    assert t[0] == '0' && IsHexDigit('0') && HexValue('0') == 0;
    assert t[1..] == "000" + s && t[1..][1..] == "00" + s && t[1..][1..][1..] == "0" + s && t[1..][1..][1..][1..] == s;
    assert Hex4(s, 0, 0) == Ok(0, s);
    assert Hex4("0" + s, 1, 0) == Ok(0, s);
    assert Hex4("00" + s, 2, 0) == Ok(0, s);
    assert Hex4("000" + s, 3, 0) == Ok(0, s);
  }

  lemma CharRead(c: char, s: string, high: nat, text: string)
    requires high < 0x400
    ensures QuotedFrom(CharText(c) + s, '"', high, text) == QuotedFrom(s, '"', high, text + [c])
  {
    hide Hex4, HexValue, IsHexDigit;
    var t := CharText(c) + s;
    if Escape(c) != '\0' {
      assert t[0] == '\\' && t[1] == Escape(c) && t[1..][0] == t[1] && t[2..] == s;
    } else if c != '\0' {
      assert t[0] == c && t[1..] == s;
    } else {
      assert t[0] == '\\' && t[1] == 'u' && t[1..][0] == t[1] && t[2..] == "0000" + s;
      FourZeros(s);
      assert Utf8(CodePoint(high, 0)) == ['\0'];
    }
  }

  lemma {:induction false} EscapedRead(t: string, rest: string, high: nat, text: string)
    requires high < 0x400
    ensures QuotedFrom(Escaped(t) + ("\"" + rest), '"', high, text) == Ok(text + t, rest)
    decreases |t|
  {
    hide CharText, Utf8, Hex4, CodePoint, Unescape;
    if t == "" {
      assert Escaped(t) + ("\"" + rest) == "\"" + rest && ("\"" + rest)[1..] == rest && text + t == text;
    } else {
      Associates(CharText(t[0]), Escaped(t[1..]), "\"" + rest);
      CharRead(t[0], Escaped(t[1..]) + ("\"" + rest), high, text);
      EscapedRead(t[1..], rest, high, text + [t[0]]);
      assert text + [t[0]] + t[1..] == text + t;
    }
  }

  /** A quoted string is read back whole, whatever characters it holds. */
  lemma QuotedRead(t: string, rest: string)
    ensures var s := Quoted(t) + rest;
            s[0] == '"' && s[1..] == Escaped(t) + ("\"" + rest) && QuotedFrom(s[1..], '"', 0, "") == Ok(t, rest)
  {
    hide Escaped;
    EscapedRead(t, rest, 0, "");
    var s := Quoted(t) + rest;
    assert s[1..] == Escaped(t) + ("\"" + rest);
    assert "" + t == t;
  }

  // ----- numbers

  lemma DigitRead(d: nat)
    requires d < 10
    ensures IsDigit(Digit(d)) && DigitValue(Digit(d)) == d && InToken(Digit(d))
  {
  }

  lemma MantissaDigit(d: nat, s: string, m: nat)
    requires d < 10 && 10 * m + d <= UINT64_MAX
    ensures Mantissa([Digit(d)] + s, m) == Mantissa(s, 10 * m + d)
  {
    DigitRead(d);
    assert ([Digit(d)] + s)[1..] == s;
  }

  lemma {:induction false} MantissaRead(n: nat, s: string)
    requires n <= UINT64_MAX
    ensures Mantissa(Decimal(n) + s, 0) == Mantissa(s, n)
    decreases n
  {
    hide Mantissa, Digit;
    if n < 10 {
      MantissaDigit(n, s, 0);
    } else {
      MantissaRead(n / 10, [Digit(n % 10)] + s);
      MantissaDigit(n % 10, s, n / 10);
      Associates(Decimal(n / 10), [Digit(n % 10)], s);
    }
  }

  ghost predicate AllInToken(s: string)
  {
    forall k :: 0 <= k < |s| ==> InToken(s[k])
  }

  /** The digits of a number are digits, no more of them than its magnitude needs. */
  lemma {:induction false} DecimalShape(n: nat, k: nat)
    requires n < PowerOfTen(k) && 0 < k
    ensures Decimal(n) != "" && |Decimal(n)| <= k && AllInToken(Decimal(n)) && IsDigit(Decimal(n)[0])
    decreases k
  {
    DigitRead(n % 10);
    if n >= 10 {
      hide Digit;
      assert n / 10 < PowerOfTen(k - 1);
      assert k != 1;
      DecimalShape(n / 10, k - 1);
    }
  }

  lemma {:induction false} TokenRead(t: string, rest: string, most: nat)
    requires AllInToken(t) && |t| <= most && Ends(rest)
    ensures Token(t + rest, most) == t && (t + rest)[|t|..] == rest
    decreases |t|
  {
    hide InToken;
    if t == "" {
      assert t + rest == rest;
    } else {
      assert (t + rest)[1..] == t[1..] + rest;
      assert InToken(t[0]);
      TokenRead(t[1..], rest, most - 1);
    }
  }

  lemma NumberRead(n: nat, negative: bool)
    requires n <= UINT64_MAX && (negative ==> n <= -INT64_MIN)
    ensures var t := (if negative then "-" else "") + Decimal(n);
            Number(t) == Ok(if negative then Signed(0 - n as int) else Unsigned(n), "") && AllInToken(t)
              && 0 < |t| <= 63
            && t[0] != 't' && t[0] != 'f' && t[0] != 'n'
  {
    hide Mantissa, Decimal, PowerOfTen;
    EnoughDigits();
    DecimalShape(n, 20);
    MantissaRead(n, "");
    MantissaEnds(n);
    var t := (if negative then "-" else "") + Decimal(n);
    assert Decimal(n) + "" == Decimal(n);
    if negative {
      assert t[1..] == Decimal(n);
    } else {
      assert t == Decimal(n);
    }
  }

  lemma MantissaEnds(n: nat)
    requires n <= UINT64_MAX
    ensures Mantissa("", n) == Ok(n, "")
  {
  }

  lemma IntegerRead(v: Value, rest: string, before: Value)
    requires Stored(v) && (v.Signed? || v.Unsigned?) && Ends(rest)
    ensures Numeric(Text(v) + rest, before) == Ok(Normal(v), rest) && Text(v) != "" && InToken(Text(v)[0])
  {
    hide Number, Decimal, Token, InToken, IsDigit;
    var negative := v.Signed? && v.i < 0;
    var n: nat := if v.Unsigned? then v.u else if negative then -v.i else v.i;
    NumberRead(n, negative);
    var t := (if negative then "-" else "") + Decimal(n);
    assert Text(v) == t;
    TokenRead(t, rest, 63);
    assert InToken(t[0]);
  }

  lemma WordRead(v: Value, rest: string, before: Value)
    requires (v.Null? || v.Bool?) && Ends(rest)
    ensures Numeric(Text(v) + rest, before) == Ok(if v.Null? then before else v, rest)
    ensures Text(v) != "" && InToken(Text(v)[0])
  {
    hide Token;
    assert AllInToken("null") && AllInToken("true") && AllInToken("false");
    TokenRead(Text(v), rest, 63);
  }

  // ----- values

  /** The text of a value starts with what tells its kind. */
  lemma TextStarts(v: Value)
    requires Stored(v)
    ensures var t := Text(v);
            t != "" && match v
            case Str(_) => t[0] == '"'
            case Arr(_) => t[0] == '['
            case Obj(_) => t[0] == '{'
            case _ => InToken(t[0])
  {
    match v
    case Null =>
    case Bool(_) =>
    case Str(_) =>
    case Arr(_) =>
    case Obj(_) =>
    case _ => IntegerRead(v, "", Null);
  }

  // ----- what is read back

  /** What the text of a value leaves in an empty variant: keys end at their first NUL, and the
      members of an object that then share a key collapse. */
  function Reread(v: Value): Value
    decreases v, 0
  {
    match v
    case Signed(i) => if i < 0 then v else Unsigned(i)
    case Arr(elements) => Arr(RereadAll(elements))
    case Obj(members) => Obj(RereadMembers([], members))
    case _ => v
  }

  function RereadAll(vs: seq<Value>): (r: seq<Value>)
    ensures |r| == |vs|
    decreases vs
  {
    if vs == [] then [] else [Reread(vs[0])] + RereadAll(vs[1..])
  }

  function RereadMembers(done: seq<Member>, ms: seq<Member>): seq<Member>
    decreases ms
  {
    if ms == [] then done else RereadMembers(Joined(done, ms[0]), ms[1..])
  }

  /** A member read behind others takes the slot of its key, if there is one. */
  function Joined(done: seq<Member>, m: Member): seq<Member>
    decreases m.value, 2
  {
    WithMember(done, UpToNul(m.key), Overwritten(Before(done, UpToNul(m.key)), m.value))
  }

  /** What the text of a value leaves in a variant that has one: null does not overwrite it. */
  function Overwritten(before: Value, v: Value): Value
    decreases v, 1
  {
    if v.Null? then before else Reread(v)
  }

  lemma {:induction false} ValueRead(v: Value, limit: nat, found: bool, before: Value, rest: string)
    requires Stored(v) && Depth(v) <= limit && Ends(rest)
    ensures Variant(Text(v) + rest, limit, found, before) == Ok(Overwritten(before, v), rest)
    decreases v, 1
  {
    hide Numeric, Array, Object, QuotedFrom, Quoted, Text, Stored, Depth;
    var s := Text(v) + rest;
    TextStarts(v);
    assert s[0] == Text(v)[0];
    NoSpaces(s, found);
    match v
    case Null => WordRead(v, rest, before);
    case Bool(_) => WordRead(v, rest, before);
    case Signed(_) => IntegerRead(v, rest, before);
    case Unsigned(_) => IntegerRead(v, rest, before);
    case Str(t) => StringRead(t, rest);
    case Arr(_) => ArrayRead(v, limit, rest);
    case Obj(_) => ObjectRead(v, limit, rest);
  }

  lemma NullKept(v: Value)
    ensures Overwritten(Null, v) == Reread(v)
  {
  }

  lemma StringRead(t: string, rest: string)
    ensures Text(Str(t)) + rest != "" && StringValue(Text(Str(t)) + rest) == Ok(Str(t), rest)
  {
    QuotedRead(t, rest);
  }

  lemma {:induction false} ArrayRead(v: Value, limit: nat, rest: string)
    requires v.Arr? && Stored(v) && Depth(v) <= limit
    ensures Text(v) + rest != "" && Array(Text(v) + rest, limit) == Ok(Reread(v), rest)
    decreases v, 0
  {
    hide Elements, ElementsText, RereadAll, DepthOfAll, Skipped;
    var vs := v.elements;
    var s := Text(v) + rest;
    var after := ElementsText(vs) + ("]" + rest);
    assert s[1..] == after;
    if vs == [] {
      NoElements();
      Punctuation(']', rest);
      assert after == "]" + rest;
    } else {
      ElementsStart(vs, "]" + rest);
      NoSpaces(after, true);
      assert Readable(vs, limit - 1, v);
      ElementsRead(vs, limit - 1, [], rest, v);
      assert [] + RereadAll(vs) == RereadAll(vs);
    }
  }

  lemma NoElements()
    ensures ElementsText([]) == "" && RereadAll([]) == [] && MembersText([]) == "" && RereadMembers([], []) == []
  {
  }

  lemma ElementsStart(vs: seq<Value>, rest: string)
    requires vs != [] && Stored(vs[0])
    ensures var s := ElementsText(vs) + rest; s != "" && s[0] != '\0' && !IsSpace(s[0]) && s[0] != ']'
  {
    hide Text, Stored;
    TextStarts(vs[0]);
    ElementsNext(vs, 0);
    assert vs[0..] == vs;
  }

  lemma {:induction false} ElementsRead(vs: seq<Value>, limit: nat, done: seq<Value>, rest: string, v: Value)
    requires vs != [] && Readable(vs, limit, v)
    ensures Elements(ElementsText(vs) + ("]" + rest), limit, done) == Ok(Arr(done + RereadAll(vs)), rest)
    decreases v, 0, |vs|
  {
    hide *;
    FirstElement(vs, limit, v);
    NullKept(vs[0]);
    ElementsNext(vs, 0);
    assert vs[0..] == vs;
    var first := Reread(vs[0]);
    if |vs| == 1 {
      Punctuation(']', rest);
      ValueRead(vs[0], limit, true, Null, "]" + rest);
      LastElement(ElementsText(vs) + ("]" + rest), limit, done, first, rest);
    } else {
      var tail := ElementsText(vs[1..]) + ("]" + rest);
      Regroups(Text(vs[0]), ",", ElementsText(vs[1..]), "]" + rest);
      Punctuation(',', tail);
      ValueRead(vs[0], limit, true, Null, "," + tail);
      ElementsRead(vs[1..], limit, done + [first], rest, v);
      NextElement(Text(vs[0]) + ("," + tail), limit, done, first, tail);
      assert done + [first] + RereadAll(vs[1..]) == done + ([first] + RereadAll(vs[1..]));
    }
  }

  lemma LastElement(s: string, limit: nat, done: seq<Value>, v: Value, rest: string)
    requires Variant(s, limit, true, Null) == Ok(v, "]" + rest)
    ensures Elements(s, limit, done) == Ok(Arr(done + [v]), rest)
  {
    hide Variant, Skipped;
    Punctuation(']', rest);
  }

  lemma NextElement(s: string, limit: nat, done: seq<Value>, v: Value, tail: string)
    requires Variant(s, limit, true, Null) == Ok(v, "," + tail)
    ensures Elements(s, limit, done) == Elements(tail, limit, done + [v])
  {
    hide Variant, Skipped;
    Punctuation(',', tail);
  }

  /** Elements of v that can be read back. */
  ghost predicate Readable(vs: seq<Value>, limit: nat, v: Value)
  {
    forall k :: 0 <= k < |vs| ==> vs[k] < v && Stored(vs[k]) && Depth(vs[k]) <= limit
  }

  lemma FirstElement(vs: seq<Value>, limit: nat, v: Value)
    requires vs != [] && Readable(vs, limit, v)
    ensures Readable(vs[1..], limit, v)
    ensures vs[0] < v && Stored(vs[0]) && Depth(vs[0]) <= limit
    ensures RereadAll(vs) == [Reread(vs[0])] + RereadAll(vs[1..])
    ensures |vs| == 1 ==> RereadAll(vs) == [Reread(vs[0])]
  {
    hide Stored, Depth, Reread;
  }

  lemma {:induction false} ObjectRead(v: Value, limit: nat, rest: string)
    requires v.Obj? && Stored(v) && Depth(v) <= limit
    ensures Text(v) + rest != "" && Object(Text(v) + rest, limit) == Ok(Reread(v), rest)
    decreases v, 0
  {
    hide Members, MembersText, RereadMembers, DepthOfMembers, Skipped;
    var ms := v.members;
    var s := Text(v) + rest;
    var after := MembersText(ms) + ("}" + rest);
    assert s[1..] == after;
    if ms == [] {
      NoElements();
      Punctuation('}', rest);
      assert after == "}" + rest;
    } else {
      MembersStart(ms, "}" + rest);
      NoSpaces(after, true);
      assert ReadableMembers(ms, limit - 1, v);
      MembersRead(ms, limit - 1, [], rest, v);
    }
  }

  lemma MembersStart(ms: seq<Member>, rest: string)
    requires ms != []
    ensures var s := MembersText(ms) + rest; s != "" && s[0] == '"' && s[0] != '\0' && !IsSpace(s[0])
  {
  }

  lemma KeyOnce(key: string)
    ensures UpToNul(UpToNul(key)) == UpToNul(key)
  {
  }

  lemma {:induction false} MemberRead(m: Member, limit: nat, done: seq<Member>, after: string)
    requires Stored(m.value) && Depth(m.value) <= limit && Ends(after)
    ensures var s := MemberText(m) + after;
            s != "" && s[0] == '"' &&
            OneMember(s, limit, done) == Ok(Joined(done, m), after)
    decreases m.value, 2
  {
    hide Variant, Text, Overwritten, Stored, Depth, QuotedFrom, Quoted, WithMember, Before;
    var text := Text(m.value) + after;
    var s := MemberText(m) + after;
    var key := UpToNul(m.key);
    assert s == Quoted(key) + (":" + text);
    KeyOnce(m.key);
    QuotedRead(key, ":" + text);
    NoSpaces(":" + text, true);
    assert (":" + text)[1..] == text;
    ValueRead(m.value, limit, true, Before(done, key), after);
  }

  lemma {:induction false} MembersRead(ms: seq<Member>, limit: nat, done: seq<Member>, rest: string, v: Value)
    requires ms != [] && ReadableMembers(ms, limit, v)
    ensures var s := MembersText(ms) + ("}" + rest);
            s != "" && s[0] == '"' && Members(s, limit, done) == Ok(Obj(RereadMembers(done, ms)), rest)
    decreases v, 0, |ms|
  {
    hide *;
    FirstMember(done, ms);
    FirstReadable(ms, limit, v);
    MembersNext(ms, 0);
    assert ms[0..] == ms;
    var joined := Joined(done, ms[0]);
    if |ms| == 1 {
      Punctuation('}', rest);
      MemberRead(ms[0], limit, done, "}" + rest);
      LastMember(MembersText(ms) + ("}" + rest), limit, done, joined, rest);
    } else {
      var tail := MembersText(ms[1..]) + ("}" + rest);
      Regroups(MemberText(ms[0]), ",", MembersText(ms[1..]), "}" + rest);
      Punctuation(',', tail);
      MemberRead(ms[0], limit, done, "," + tail);
      MembersRead(ms[1..], limit, joined, rest, v);
      NextMember(MemberText(ms[0]) + ("," + tail), limit, done, joined, tail);
    }
  }

  lemma LastMember(s: string, limit: nat, done: seq<Member>, ms: seq<Member>, rest: string)
    requires s != "" && s[0] != '\0' && OneMember(s, limit, done) == Ok(ms, "}" + rest)
    ensures Members(s, limit, done) == Ok(Obj(ms), rest)
  {
    hide OneMember, Skipped;
    Punctuation('}', rest);
  }

  lemma NextMember(s: string, limit: nat, done: seq<Member>, ms: seq<Member>, tail: string)
    requires s != "" && s[0] != '\0' && OneMember(s, limit, done) == Ok(ms, "," + tail) && tail != "" && tail[0] == '"'
    ensures Members(s, limit, done) == Members(tail, limit, ms)
  {
    hide OneMember, Skipped;
    Punctuation(',', tail);
    NoSpaces(tail, true);
  }

  /** Members of v whose values can be read back. */
  ghost predicate ReadableMembers(ms: seq<Member>, limit: nat, v: Value)
  {
    forall k :: 0 <= k < |ms| ==>
      ms[k].value < v && Stored(ms[k].value) && Depth(ms[k].value) <= limit
  }

  lemma FirstReadable(ms: seq<Member>, limit: nat, v: Value)
    requires ms != [] && ReadableMembers(ms, limit, v)
    ensures ReadableMembers(ms[1..], limit, v)
    ensures ms[0].value < v && Stored(ms[0].value) && Depth(ms[0].value) <= limit
  {
    hide Stored, Depth;
  }

  lemma FirstMember(done: seq<Member>, ms: seq<Member>)
    requires ms != []
    ensures MembersText(ms) != "" && MembersText(ms)[0] == '"'
    ensures RereadMembers(done, ms) == RereadMembers(Joined(done, ms[0]), ms[1..])
    ensures |ms| == 1 ==> RereadMembers(done, ms) == Joined(done, ms[0])
  {
    hide Joined, Text, Escaped, UpToNul;
  }

  // ----- which values survive

  /** No key read so far comes again, and none of those to come comes twice. */
  ghost predicate Fresh(done: seq<Member>, ms: seq<Member>)
  {
    && (forall j, k :: 0 <= j < |done| && 0 <= k < |ms| ==> done[j].key != UpToNul(ms[k].key))
    && (forall j, k :: 0 <= j < k < |ms| ==> UpToNul(ms[j].key) != UpToNul(ms[k].key))
  }

  /** Every member by itself. */
  function RereadEach(ms: seq<Member>): (r: seq<Member>)
    ensures |r| == |ms|
    ensures forall k :: 0 <= k < |ms| ==> r[k] == Member(UpToNul(ms[k].key), Reread(ms[k].value))
  {
    if ms == [] then [] else [Member(UpToNul(ms[0].key), Reread(ms[0].value))] + RereadEach(ms[1..])
  }

  ghost predicate IsNew(done: seq<Member>, key: string)
  {
    forall j :: 0 <= j < |done| ==> done[j].key != key
  }

  lemma JoinedMember(done: seq<Member>, m: Member)
    ensures if IsNew(done, UpToNul(m.key)) then Joined(done, m) == done + [Member(UpToNul(m.key), Reread(m.value))]
            else |Joined(done, m)| == |done|
  {
    hide UpToNul, Reread;
    NullKept(m.value);
  }

  lemma FreshNext(done: seq<Member>, ms: seq<Member>, v: Value)
    requires ms != []
    ensures var m := Member(UpToNul(ms[0].key), v);
            Fresh(done, ms) <==> IsNew(done, m.key) && Fresh(done + [m], ms[1..])
  {
    hide UpToNul;
    var all := done + [Member(UpToNul(ms[0].key), v)];
    if Fresh(done, ms) {
      forall j, k | 0 <= j < |all| && 0 <= k < |ms[1..]|
        ensures all[j].key != UpToNul(ms[1..][k].key)
      {
        assert ms[1..][k] == ms[k + 1];
      }
    }
    if IsNew(done, UpToNul(ms[0].key)) && Fresh(all, ms[1..]) {
      forall j, k | 0 <= j < |done| && 0 <= k < |ms|
        ensures done[j].key != UpToNul(ms[k].key)
      {
        assert all[j] == done[j] && (k == 0 || ms[1..][k - 1] == ms[k]);
      }
      forall j, k | 0 <= j < k < |ms|
        ensures UpToNul(ms[j].key) != UpToNul(ms[k].key)
      {
        assert ms[1..][k - 1] == ms[k] && all[|done|].key == UpToNul(ms[0].key) && (j == 0 || ms[1..][j - 1] == ms[j]);
      }
    }
  }

  /** Members only ever get fewer, and none is lost exactly if no key repeats. */
  lemma {:induction false} MembersKept(done: seq<Member>, ms: seq<Member>)
    ensures |RereadMembers(done, ms)| <= |done| + |ms|
    ensures |RereadMembers(done, ms)| == |done| + |ms| <==> Fresh(done, ms)
    ensures Fresh(done, ms) ==> RereadMembers(done, ms) == done + RereadEach(ms)
    decreases |ms|
  {
    hide *;
    if ms == [] {
      NoneReread(done);
    } else {
      FirstReread(done, ms);
      JoinedMember(done, ms[0]);
      FreshNext(done, ms, Reread(ms[0].value));
      MembersKept(Joined(done, ms[0]), ms[1..]);
      if Fresh(done, ms) {
        var m := Member(UpToNul(ms[0].key), Reread(ms[0].value));
        assert done + [m] + RereadEach(ms[1..]) == done + ([m] + RereadEach(ms[1..]));
      }
    }
  }

  lemma NoneReread(done: seq<Member>)
    ensures RereadMembers(done, []) == done == done + RereadEach([]) && Fresh(done, [])
  {
  }

  lemma FirstReread(done: seq<Member>, ms: seq<Member>)
    requires ms != []
    ensures RereadMembers(done, ms) == RereadMembers(Joined(done, ms[0]), ms[1..])
    ensures RereadEach(ms) == [Member(UpToNul(ms[0].key), Reread(ms[0].value))] + RereadEach(ms[1..])
  {
    hide Joined, Reread, UpToNul;
  }

  lemma {:induction false} AllKept(vs: seq<Value>)
    requires forall k :: 0 <= k < |vs| ==> (Reread(vs[k]) == Normal(vs[k]) <==> WellKeyed(vs[k]))
    ensures RereadAll(vs) == NormalAll(vs) <==> forall k :: 0 <= k < |vs| ==> WellKeyed(vs[k])
    decreases |vs|
  {
    hide Reread, Normal, WellKeyed;
    if vs != [] {
      AllKept(vs[1..]);
      assert vs == [vs[0]] + vs[1..];
      assert RereadAll(vs)[1..] == RereadAll(vs[1..]) && NormalAll(vs)[1..] == NormalAll(vs[1..]);
      assert RereadAll(vs)[0] == Reread(vs[0]) && NormalAll(vs)[0] == Normal(vs[0]);
    }
  }

  lemma {:induction false} NormalAt(ms: seq<Member>, k: nat)
    requires k < |ms|
    ensures NormalMembers(ms)[k] == Member(ms[k].key, Normal(ms[k].value))
    decreases k
  {
    hide Normal;
    if k != 0 {
      NormalAt(ms[1..], k - 1);
    }
  }

  lemma FreshAlone(ms: seq<Member>)
    ensures KeysOk(ms) <==> Fresh([], ms) && forall k :: 0 <= k < |ms| ==> UpToNul(ms[k].key) == ms[k].key
  {
  }

  lemma EachKept(ms: seq<Member>)
    requires forall k :: 0 <= k < |ms| ==> (Reread(ms[k].value) == Normal(ms[k].value) <==> WellKeyed(ms[k].value))
    ensures RereadMembers([], ms) == NormalMembers(ms)
      <==> KeysOk(ms) && forall k :: 0 <= k < |ms| ==> WellKeyed(ms[k].value)
  {
    hide Reread, Normal, WellKeyed, KeysOk, Fresh, UpToNul, RereadMembers, RereadEach, NormalMembers;
    MembersKept([], ms);
    FreshAlone(ms);
    forall k | 0 <= k < |ms|
      ensures NormalMembers(ms)[k] == Member(ms[k].key, Normal(ms[k].value))
    {
      NormalAt(ms, k);
    }
    assert Fresh([], ms) ==> RereadMembers([], ms) == RereadEach(ms);
  }

  lemma {:induction false} KeptExactly(v: Value)
    ensures Reread(v) == Normal(v) <==> WellKeyed(v)
    decreases v
  {
    match v
    case Arr(vs) =>
      forall k | 0 <= k < |vs|
        ensures Reread(vs[k]) == Normal(vs[k]) <==> WellKeyed(vs[k])
      {
        KeptExactly(vs[k]);
      }
      AllKept(vs);
    case Obj(ms) =>
      forall k | 0 <= k < |ms|
        ensures Reread(ms[k].value) == Normal(ms[k].value) <==> WellKeyed(ms[k].value)
      {
        KeptExactly(ms[k].value);
      }
      EachKept(ms);
    case _ =>
  }

  // ----- the round trip

  /** The text of every value nested no deeper than the limit is read: every character of every
      string, every 64-bit integer, arrays and objects. */
  lemma TextRead(v: Value, limit: nat)
    requires Stored(v) && Depth(v) <= limit
    ensures Document(Text(v), limit) == Ok(Reread(v), "")
  {
    hide Variant, Text, Stored, Depth;
    ValueRead(v, limit, false, Null, "");
    NullKept(v);
    assert Text(v) + "" == Text(v);
  }
}
