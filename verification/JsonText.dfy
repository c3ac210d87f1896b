/** The JSON text of a value, and the serializer of pagers-server/json/ArduinoJson.h that prints it
    through a bounded writer. */
module JsonText {
  import opened JsonValue
  import opened Memory

  // ----- escapes

  const BACKSPACE: char := '\U{8}'
  const FORM_FEED: char := '\U{C}'

  /** The escape table: pairs of what follows the backslash and what it stands for, then a NUL. */
  const ESCAPE_TABLE: string :=
    ['/', '/', '"', '"', '\\', '\\', 'b', BACKSPACE, 'f', FORM_FEED, 'n', '\n', 'r', '\r', 't', '\t', '\0']

  /** What follows the backslash when c is printed, or NUL if c needs no backslash. */
  function Escape(c: char): char
  {
    if c == '"' || c == '\\' then c
    else if c == BACKSPACE then 'b'
    else if c == FORM_FEED then 'f'
    else if c == '\n' then 'n'
    else if c == '\r' then 'r'
    else if c == '\t' then 't'
    else '\0'
  }

  /** What an escaped character stands for, or NUL if there is no such escape. */
  function Unescape(c: char): char
  {
    if c == '/' || c == '"' || c == '\\' then c
    else if c == 'b' then BACKSPACE
    else if c == 'f' then FORM_FEED
    else if c == 'n' then '\n'
    else if c == 'r' then '\r'
    else if c == 't' then '\t'
    else '\0'
  }

  lemma EscapeInverse(c: char)
    ensures Escape(c) != '\0' ==> Unescape(Escape(c)) == c
    ensures Unescape(c) != '\0' && c != '/' ==> Escape(Unescape(c)) == c
  {
  }

  /** Printing starts behind the solidus, which needs no backslash. */
  method EscapeChar(c: char) returns (r: char)
    ensures r == Escape(c)
  {
    var p := 2;
    while ESCAPE_TABLE[p] != '\0' && ESCAPE_TABLE[p + 1] != c
      invariant 2 <= p <= 16 && p % 2 == 0
      invariant forall k :: 1 <= k && 2 * k < p ==> ESCAPE_TABLE[2 * k + 1] != c
      decreases 16 - p
    {
      assert p != 16;
      p := p + 2;
    }
    assert ESCAPE_TABLE[2 * 1 + 1] == '"' && ESCAPE_TABLE[2 * 2 + 1] == '\\' && ESCAPE_TABLE[2 * 3 + 1] == BACKSPACE;
    assert ESCAPE_TABLE[2 * 4 + 1] == FORM_FEED && ESCAPE_TABLE[2 * 5 + 1] == '\n' && ESCAPE_TABLE[2 * 6 + 1] == '\r';
    assert ESCAPE_TABLE[2 * 7 + 1] == '\t';
    return ESCAPE_TABLE[p];
  }

  method UnescapeChar(c: char) returns (r: char)
    ensures r == Unescape(c)
  {
    var p := 0;
    while true
      invariant 0 <= p <= 16 && p % 2 == 0
      invariant forall k :: 0 <= k && 2 * k < p ==> ESCAPE_TABLE[2 * k] != c
      decreases 16 - p
    {
      if ESCAPE_TABLE[p] == '\0' {
        assert ESCAPE_TABLE[2 * 0] == '/' && ESCAPE_TABLE[2 * 1] == '"' && ESCAPE_TABLE[2 * 2] == '\\'
          && ESCAPE_TABLE[2 * 3] == 'b';
        assert ESCAPE_TABLE[2 * 4] == 'f' && ESCAPE_TABLE[2 * 5] == 'n' && ESCAPE_TABLE[2 * 6] == 'r'
          && ESCAPE_TABLE[2 * 7] == 't';
        return '\0';
      }
      if ESCAPE_TABLE[p] == c {
        return ESCAPE_TABLE[p + 1];
      }
      assert p != 16;
      p := p + 2;
    }
  }

  // ----- the text of a value

  function CharText(c: char): string
  {
    if Escape(c) != '\0' then ['\\', Escape(c)] else if c != '\0' then [c] else "\\u0000"
  }

  function Escaped(s: string): string
  {
    if s == "" then "" else CharText(s[0]) + Escaped(s[1..])
  }

  function Quoted(s: string): string
  {
    "\"" + Escaped(s) + "\""
  }

  function Digit(n: nat): char
    requires n < 10
  {
    ('0' as int + n) as char
  }

  function Decimal(n: nat): string
  {
    if n < 10 then [Digit(n)] else Decimal(n / 10) + [Digit(n % 10)]
  }

  function Text(v: Value): string
  {
    match v
    case Null => "null"
    case Bool(b) => if b then "true" else "false"
    case Signed(i) => if i < 0 then "-" + Decimal(-i) else Decimal(i)
    case Unsigned(u) => Decimal(u)
    case Str(s) => Quoted(s)
    case Arr(elements) => "[" + ElementsText(elements) + "]"
    case Obj(members) => "{" + MembersText(members) + "}"
  }

  function ElementsText(vs: seq<Value>): string
  {
    if vs == [] then "" else Text(vs[0]) + if |vs| == 1 then "" else "," + ElementsText(vs[1..])
  }

  function MemberText(m: Member): string
  {
    Quoted(UpToNul(m.key)) + ":" + Text(m.value)
  }

  function MembersText(ms: seq<Member>): string
  {
    if ms == [] then "" else MemberText(ms[0]) + if |ms| == 1 then "" else "," + MembersText(ms[1..])
  }

  lemma ElementsNext(vs: seq<Value>, i: nat)
    requires i < |vs|
    ensures ElementsText(vs[i..]) == if i + 1 == |vs| then Text(vs[i])
      else Text(vs[i]) + ("," + ElementsText(vs[i + 1..]))
  {
    assert vs[i..][1..] == vs[i + 1..];
  }

  lemma MembersNext(ms: seq<Member>, i: nat)
    requires i < |ms|
    ensures MembersText(ms[i..])
      == if i + 1 == |ms| then MemberText(ms[i]) else MemberText(ms[i]) + ("," + MembersText(ms[i + 1..]))
  {
    assert ms[i..][1..] == ms[i + 1..];
  }

  lemma TextParts(v: Value)
    ensures v.Arr? ==> Text(v) == "[" + ElementsText(v.elements) + "]"
    ensures v.Obj? ==> Text(v) == "{" + MembersText(v.members) + "}"
    ensures ElementsText([]) == "" && MembersText([]) == ""
  {
  }

  lemma StoredParts(v: Value)
    requires Stored(v)
    ensures v.Arr? ==> forall k :: 0 <= k < |v.elements| ==> Stored(v.elements[k])
    ensures v.Obj? ==> forall k :: 0 <= k < |v.members| ==> Stored(v.members[k].value)
  {
  }

  lemma Separated(output: string, first: string, rest: string, total: string)
    requires output + (first + ("," + rest)) == total
    ensures output + first + [','] + rest == total
  {
  }

  /** Output in four steps is output in one. */
  lemma FourSteps(output: string, a: string, b: string, c: string, d: string)
    ensures output + a + b + c + d == output + (a + b + c + d)
    ensures output + a + b + c == output + (a + b + c)
    ensures output + a + b == output + (a + b)
    ensures a + b + (c + d) == a + b + c + d
  {
  }

  // ----- the writer

  /** The writer of a serializer: into a buffer of a fixed size, or nowhere, to measure the text.
      The text offered so far is ghost: the buffer holds the prefix of it that fits. */
  class Writer {
    const buf: array<char>
    const size: nat
    const dummy: bool
    var p: nat
    ghost var offered: string

    constructor (buf: array<char>, size: nat)
      requires size <= buf.Length
      ensures Valid() && this.buf == buf && this.size == size && !dummy && offered == ""
    {
      this.buf, this.size, dummy, p, offered := buf, size, false, 0, "";
    }

    constructor Dummy()
      ensures Valid() && dummy && offered == "" && fresh(buf)
    {
      buf := new char[0];
      size, dummy, p, offered := 0, true, 0, "";
    }

    ghost predicate Valid()
      reads this, buf
    {
      size <= buf.Length && (!dummy ==> p == Fitting(|offered|, size) && buf[..p] == offered[..p])
    }

    method Write(c: char) returns (n: nat)
      requires Valid()
      modifies this`p, this`offered, buf
      ensures Valid() && offered == old(offered) + [c] && n == Counted(|offered|) - Counted(|old(offered)|)
    {
      offered := offered + [c];
      if dummy {
        return 1;
      }
      if p >= size {
        return 0;
      }
      buf[p] := c;
      p := p + 1;
      return 1;
    }

    method WriteAll(s: string) returns (n: nat)
      requires Valid()
      modifies this`p, this`offered, buf
      ensures Valid() && offered == old(offered) + s && n == Counted(|offered|) - Counted(|old(offered)|)
    {
      if dummy {
        offered := offered + s;
        return |s|;
      }
      var begin, i := p, 0;
      while p < size && i < |s|
        invariant i <= |s| && offered == old(offered) + s[..i] && Valid()
          && p - begin == Counted(|offered|) - Counted(|old(offered)|)
        decreases |s| - i
      {
        buf[p] := s[i];
        p, i := p + 1, i + 1;
        offered := offered + [s[i - 1]];
      }
      n := p - begin;
      offered := old(offered) + s;
    }

    /** How many of n bytes offered were counted as written. */
    ghost function Counted(n: nat): nat
    {
      if dummy then n else Fitting(n, size)
    }
  }

  function Fitting(n: nat, size: nat): nat
  {
    if n <= size then n else size
  }

  // ----- the formatter and the serializer

  class JsonSerializer {
    const writer: Writer
    var count: nat

    constructor (writer: Writer)
      requires writer.Valid() && writer.offered == ""
      ensures Valid() && this.writer == writer
    {
      this.writer, count := writer, 0;
    }

    ghost predicate Valid()
      reads this, writer, writer.buf
    {
      writer.Valid() && count == writer.Counted(|writer.offered|)
    }

    ghost function Output(): string
      reads writer
    {
      writer.offered
    }

    method WriteRaw(s: string)
      requires Valid()
      modifies this`count, writer`p, writer`offered, writer.buf
      ensures Valid() && Output() == old(Output()) + s
    {
      var n := writer.WriteAll(s);
      count := count + n;
    }

    method WriteRawChar(c: char)
      requires Valid()
      modifies this`count, writer`p, writer`offered, writer.buf
      ensures Valid() && Output() == old(Output()) + [c]
    {
      var n := writer.Write(c);
      count := count + n;
    }

    method WriteChar(c: char)
      requires Valid()
      modifies this`count, writer`p, writer`offered, writer.buf
      ensures Valid() && Output() == old(Output()) + CharText(c)
    {
      var special := EscapeChar(c);
      if special != '\0' {
        WriteRawChar('\\');
        WriteRawChar(special);
      } else if c != '\0' {
        WriteRawChar(c);
      } else {
        WriteRaw("\\u0000");
      }
    }

    method WriteString(s: string)
      requires Valid()
      modifies this`count, writer`p, writer`offered, writer.buf
      ensures Valid() && Output() == old(Output()) + Quoted(s)
    {
      hide CharText;
      WriteRawChar('"');
      ghost var start := Output();
      for i := 0 to |s|
        invariant Valid() && Output() + Escaped(s[i..]) == start + Escaped(s)
      {
        assert s[i..][1..] == s[i + 1..];
        FourSteps(Output(), CharText(s[i]), Escaped(s[i + 1..]), "", "");
        WriteChar(s[i]);
      }
      FourSteps(old(Output()), "\"", Escaped(s), "\"", "");
      WriteRawChar('"');
    }

    /** A C string ends at its first NUL. */
    method WriteCString(key: string)
      requires Valid()
      modifies this`count, writer`p, writer`offered, writer.buf
      ensures Valid() && Output() == old(Output()) + Quoted(UpToNul(key))
    {
      hide CharText;
      WriteRawChar('"');
      ghost var start := Output();
      var i := 0;
      assert key[0..] == key;
      while i < |key| && key[i] != '\0'
        invariant i <= |key| && Valid() && Output() + Escaped(UpToNul(key[i..])) == start + Escaped(UpToNul(key))
      {
        assert key[i..][1..] == key[i + 1..];
        assert UpToNul(key[i..])[1..] == UpToNul(key[i + 1..]);
        FourSteps(Output(), CharText(key[i]), Escaped(UpToNul(key[i + 1..])), "", "");
        WriteChar(key[i]);
        i := i + 1;
      }
      assert UpToNul(key[i..]) == "";
      FourSteps(old(Output()), "\"", Escaped(UpToNul(key)), "\"", "");
      WriteRawChar('"');
    }

    method WriteUnsigned(value: nat)
      requires Valid() && value <= UINT64_MAX
      modifies this`count, writer`p, writer`offered, writer.buf
      ensures Valid() && Output() == old(Output()) + Decimal(value)
    {
      var digits := new char[22];
      var begin := FillDigits(digits, value);
      WriteRaw(digits[begin..]);
    }

    /** The digits are put into a local buffer from its end; 22 characters are always enough. */
    static method FillDigits(digits: array<char>, value: nat) returns (begin: nat)
      requires digits.Length == 22 && value <= UINT64_MAX
      modifies digits
      ensures begin <= 22 && digits[begin..] == Decimal(value)
    {
      hide Decimal, PowerOfTen, Digit;
      EnoughDigits();
      begin := 22;
      var v: nat := value;
      ghost var done := "";
      while true
        invariant 2 <= begin <= 22 && v < PowerOfTen(begin - 2) && (begin < 22 ==> v != 0)
        invariant digits[begin..] == done && Decimal(v) + done == Decimal(value)
        decreases v
      {
        LastDigit(v, begin - 2);
        begin := begin - 1;
        digits[begin] := Digit(v % 10);
        DigitsGrow(v, done);
        done := [Digit(v % 10)] + done;
        v := v / 10;
        if v == 0 {
          break;
        }
      }
    }

    method WriteSigned(value: int)
      requires Valid() && INT64_MIN <= value <= INT64_MAX
      modifies this`count, writer`p, writer`offered, writer.buf
      ensures Valid() && Output() == old(Output()) + Text(Signed(value))
    {
      var magnitude := value;
      if value < 0 {
        WriteRawChar('-');
        magnitude := (-value - 1) + 1;
      }
      WriteUnsigned(magnitude);
    }

    /** Prints a value and returns how many characters were written so far. */
    method Visit(v: Value) returns (n: nat)
      requires Valid() && Stored(v)
      modifies this`count, writer`p, writer`offered, writer.buf
      ensures Valid() && Output() == old(Output()) + Text(v) && n == count
      decreases v, 1
    {
      match v {
        case Null => WriteRaw("null");
        case Bool(b) => if b { WriteRaw("true"); } else { WriteRaw("false"); }
        case Signed(i) => WriteSigned(i);
        case Unsigned(u) => WriteUnsigned(u);
        case Str(s) => WriteString(s);
        case Arr(elements) => VisitArray(elements, v);
        case Obj(members) => VisitObject(members, v);
      }
      return count;
    }

    method VisitArray(elements: seq<Value>, ghost v: Value)
      requires Valid() && v == Arr(elements) && Stored(v)
      modifies this`count, writer`p, writer`offered, writer.buf
      ensures Valid() && Output() == old(Output()) + Text(v)
      decreases v, 0
    {
      hide ElementsText, Text, Stored;
      StoredParts(v);
      TextParts(v);
      WriteRawChar('[');
      VisitElements(elements, v);
      FourSteps(old(Output()), "[", ElementsText(elements), "]", "");
      WriteRawChar(']');
    }

    method VisitElements(elements: seq<Value>, ghost v: Value)
      requires Valid() && forall k :: 0 <= k < |elements| ==> elements[k] < v && Stored(elements[k])
      modifies this`count, writer`p, writer`offered, writer.buf
      ensures Valid() && Output() == old(Output()) + ElementsText(elements)
      decreases v, 0, 0
    {
      hide ElementsText, Text, Stored;
      TextParts(Null);
      ghost var total := Output() + ElementsText(elements);
      var i := 0;
      assert elements[0..] == elements;
      assert elements[|elements|..] == [] && total + "" == total;
      while i < |elements|
        invariant i <= |elements| && Valid() && Output() + ElementsText(elements[i..]) == total
      {
        ghost var before := Output();
        ElementsNext(elements, i);
        var n := Visit(elements[i]);
        i := i + 1;
        if i == |elements| {
          break;
        }
        Separated(before, Text(elements[i - 1]), ElementsText(elements[i..]), total);
        WriteRawChar(',');
      }
    }

    method VisitMember(m: Member)
      requires Valid() && Stored(m.value)
      modifies this`count, writer`p, writer`offered, writer.buf
      ensures Valid() && Output() == old(Output()) + MemberText(m)
      decreases m.value, 2
    {
      hide Quoted, UpToNul, Text, Stored;
      FourSteps(Output(), Quoted(UpToNul(m.key)), ":", Text(m.value), "");
      WriteCString(m.key);
      WriteRawChar(':');
      var n := Visit(m.value);
    }

    method VisitObject(members: seq<Member>, ghost v: Value)
      requires Valid() && v == Obj(members) && Stored(v)
      modifies this`count, writer`p, writer`offered, writer.buf
      ensures Valid() && Output() == old(Output()) + Text(v)
      decreases v, 0
    {
      hide MembersText, Text, Stored;
      StoredParts(v);
      TextParts(v);
      WriteRawChar('{');
      VisitMembers(members, v);
      FourSteps(old(Output()), "{", MembersText(members), "}", "");
      WriteRawChar('}');
    }

    method VisitMembers(members: seq<Member>, ghost v: Value)
      requires Valid() && forall k :: 0 <= k < |members| ==> members[k].value < v && Stored(members[k].value)
      modifies this`count, writer`p, writer`offered, writer.buf
      ensures Valid() && Output() == old(Output()) + MembersText(members)
      decreases v, 0, 0
    {
      hide MembersText, MemberText, Text, Stored;
      TextParts(Null);
      ghost var total := Output() + MembersText(members);
      var i := 0;
      assert members[0..] == members;
      assert members[|members|..] == [] && total + "" == total;
      while i < |members|
        invariant i <= |members| && Valid() && Output() + MembersText(members[i..]) == total
      {
        ghost var before := Output();
        MembersNext(members, i);
        VisitMember(members[i]);
        i := i + 1;
        if i == |members| {
          break;
        }
        Separated(before, MemberText(members[i - 1]), MembersText(members[i..]), total);
        WriteRawChar(',');
      }
    }
  }

  function PowerOfTen(n: nat): nat
  {
    if n == 0 then 1 else 10 * PowerOfTen(n - 1)
  }

  lemma DigitsGrow(v: nat, done: string)
    ensures Decimal(v) + done == (if v / 10 == 0 then "" else Decimal(v / 10)) + ([Digit(v % 10)] + done)
  {
  }

  lemma LastDigit(v: nat, n: nat)
    requires v < PowerOfTen(n)
    ensures 0 < n ==> v / 10 < PowerOfTen(n - 1)
    ensures n == 0 ==> v == 0
    ensures v / 10 < v || v == 0
  {
  }

  lemma EnoughDigits()
    ensures UINT64_MAX < PowerOfTen(20)
  {
    assert PowerOfTen(5) == 10_0000;
    assert PowerOfTen(10) == 100_0000_0000;
    assert PowerOfTen(15) == 1000_0000_0000_0000;
  }

  /** Serializing into a buffer of any size writes exactly the prefix of the text that fits and
      returns how much that is; with room to spare a NUL follows. */
  method SerializeJson(v: Value, buffer: array<char>, size: nat) returns (n: nat)
    requires Stored(v) && size <= buffer.Length
    modifies buffer
    ensures n == Fitting(|Text(v)|, size) && buffer[..n] == Text(v)[..n]
    ensures n < size ==> n == |Text(v)| && buffer[n] == '\0'
  {
    var writer := new Writer(buffer, size);
    var serializer := new JsonSerializer(writer);
    n := serializer.Visit(v);
    if n < size {
      buffer[n] := '\0';
    }
  }

  /** Measuring returns the length of the whole text. */
  method MeasureJson(v: Value) returns (n: nat)
    requires Stored(v)
    ensures n == |Text(v)|
  {
    var writer := new Writer.Dummy();
    var serializer := new JsonSerializer(writer);
    n := serializer.Visit(v);
  }
}
