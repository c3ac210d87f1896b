/** The JSON parser of pagers-server/json/ArduinoJson.h: a one-character latch in front of a reader,
    methods that move it over the text, and the pool they take strings and slots from. */
module JsonDeserializer {
  import opened JsonGrammar
  import opened JsonLoading
  import opened JsonMemory
  import opened JsonText
  import opened JsonValue
  import opened Memory

  datatype Status = NoError | Error(error: Error)

  predicate IsNumber(v: Value)
  {
    v.Signed? || v.Unsigned?
  }

  /** An unsigned 64-bit number read as a signed one. */
  function AsInt64(u: nat): int
  {
    if u <= INT64_MAX then u else u - UINT64_MAX - 1
  }

  lemma Spaces()
    ensures !IsSpace('\0') && !InToken('\0')
  {
  }

  lemma CodePointBound(high: nat, u: nat)
    requires high < 0x400 && u < 0x1_0000
    ensures CodePoint(high, u) <= 0x10_FFFF
  {
  }

  class JsonDeserializer {
    const input: string
    const buffer: array<char>

    /** How many characters the reader delivered, the last of them, and whether it is still to be used. */
    var taken: nat
    var last: char
    var loaded: bool

    var found: bool
    var status: Status
    var text: string

    /** The pool, as a value. */
    var pool: Heap

    constructor (input: string, pool: Heap)
      ensures Valid() && Live() && fresh(buffer) && this.input == input && this.pool == pool
      ensures Rest() == input && !found && status.NoError?
    {
      this.input := input;
      buffer := new char[64];
      taken, last, loaded, found, status, text, this.pool := 0, '\0', false, false, NoError, "", pool;
    }

    ghost predicate Valid()
      reads this`taken, this`last, this`loaded
    {
      && buffer.Length == 64 && taken <= |input| + 1
      && (loaded ==> 0 < taken) && (0 < taken ==> last == Cur(input[taken - 1..]))
    }

    /** The end of the text has been read. */
    ghost predicate Ended()
      reads this`taken, this`last, this`loaded
    {
      0 < taken && last == '\0'
    }

    /** Nothing is ever read past the end of the text. */
    ghost predicate Live()
      reads this`taken, this`last, this`loaded
    {
      Ended() ==> loaded
    }

    /** The text from the current character on. */
    ghost function Rest(): string
      requires Valid()
      reads this`taken, this`last, this`loaded
    {
      var at := if loaded then taken - 1 else taken;
      if at <= |input| then input[at..] else ""
    }

    ghost predicate Ready()
      reads this`taken, this`last, this`loaded, this`status
    {
      Valid() && Live() && status.NoError?
    }

    /** The outcome of a method is the one the grammar gives. */
    ghost predicate Matches<T>(r: Parsed<T>, ok: bool, v: T)
      reads this
    {
      match r
      case Ok(value, rest) => ok && v == value && Ready() && Rest() == rest && found
      case Fail(e) => !ok && Valid() && status == Error(e)
    }

    /** The outcome is the one the grammar gives, unless the pool does not meet a request on the way. */
    ghost predicate Loads<T>(p: Heap, rs: seq<Request>, r: Parsed<T>, ok: bool, v: T)
      reads this
    {
      Matches(Limited(p, rs, r), ok, v) && (ok ==> AllServed(p, rs) == Some(pool))
    }

    method Ask(r: Request) returns (ok: bool)
      requires Ready()
      modifies this`pool, this`status
      ensures if Served(old(pool), r).Some? then ok && Ready() && pool == Served(old(pool), r).value
              else !ok && Valid() && status == Error(NoMemory)
    {
      hide Served;
      var q := Served(pool, r);
      if q.None? {
        ok := Fails(NoMemory);
        return;
      }
      pool := q.value;
      return true;
    }

    // ----- the latch

    method Load()
      requires Valid() && !Ended() && !loaded
      modifies this`taken, this`last, this`loaded
      ensures Valid() && Live() && loaded && Rest() == old(Rest())
    {
      last := if taken < |input| then input[taken] else '\0';
      taken := taken + 1;
      loaded := true;
    }

    method Current() returns (c: char)
      requires Valid() && Live()
      modifies this`taken, this`last, this`loaded
      ensures Valid() && Live() && loaded && Rest() == old(Rest()) && c == Cur(Rest()) == last
    {
      if !loaded {
        Load();
      }
      c := last;
    }

    method Move()
      requires Valid() && loaded
      modifies this`loaded
      ensures Valid() && !loaded
      ensures last != '\0' ==> Live() && old(Rest()) != "" && Rest() == old(Rest())[1..]
    {
      loaded := false;
    }

    method Eat(c: char) returns (eaten: bool)
      requires Valid() && Live() && c != '\0'
      modifies this`taken, this`last, this`loaded
      ensures Valid() && Live() && eaten == (Cur(old(Rest())) == c)
      ensures Rest() == if eaten then old(Rest())[1..] else old(Rest())
    {
      var now := Current();
      if now != c {
        return false;
      }
      Move();
      return true;
    }

    method Fails(e: Error) returns (ok: bool)
      requires Valid()
      modifies this`status
      ensures Valid() && status == Error(e) && !ok
    {
      status := Error(e);
      ok := false;
    }

    method SkipSpacesAndComments() returns (ok: bool)
      requires Ready()
      modifies this
      ensures Matches(Skipped(old(Rest()), old(found)), ok, ()) && pool == old(pool) && text == old(text)
      ensures ok ==> loaded
    {
      hide Valid, Ended, Live, Rest, IsSpace;
      Spaces();
      while true
        invariant Ready() && found == old(found) && pool == old(pool) && text == old(text)
        invariant Skipped(Rest(), found) == Skipped(old(Rest()), old(found))
        decreases |Rest()|
      {
        var c := Current();
        if c == '\0' {
          status := Error(if found then IncompleteInput else EmptyInput);
          return false;
        }
        if IsSpace(c) {
          Move();
        } else {
          found := true;
          return true;
        }
      }
    }

    // ----- strings

    /** A value above 15 is no digit. */
    method DecodeHex(c: char) returns (n: nat)
      ensures n <= 15 <==> IsHexDigit(c)
      ensures IsHexDigit(c) ==> n == HexValue(c)
    {
      var b := c as int % 0x100;
      if b < 'A' as int {
        return (b - '0' as int) % 0x100;
      }
      b := if b / 0x20 % 2 == 1 then b - 0x20 else b;
      return (b - 'A' as int + 10) % 0x100;
    }

    method ParseHex4() returns (ok: bool, u: nat)
      requires Ready() && found
      modifies this
      ensures Matches(Hex4(old(Rest()), 4, 0), ok, u) && text == old(text) && pool == old(pool)
    {
      hide IsHexDigit, HexValue, Valid, Ended, Live, Rest;
      u := 0;
      var i := 0;
      while i < 4
        invariant i <= 4 && Ready() && found && text == old(text) && pool == old(pool)
        invariant u < Sixteens(i) && Sixteens(4) == 0x1_0000
        invariant Hex4(Rest(), 4 - i, u) == Hex4(old(Rest()), 4, 0)
      {
        var digit := Current();
        if digit == '\0' {
          ok := Fails(IncompleteInput);
          return;
        }
        var value := DecodeHex(digit);
        if value > 0x0F {
          ok := Fails(InvalidInput);
          return;
        }
        u := u * 16 + value;
        Move();
        i := i + 1;
      }
      ok := true;
    }

    method ParseQuotedString() returns (ok: bool)
      requires Ready() && found && Cur(Rest()) != '\0'
      modifies this
      ensures var q := QuotedFrom(old(Rest())[1..], Cur(old(Rest())), 0, old(text));
              Loads(old(pool), Checked(q), q, ok, text)
    {
      hide Hex4, Utf8, Unescape, CodePoint, Valid, Ended, Live, Rest, Served, AllServed;
      var stop := Current();
      ghost var goal := QuotedFrom(Rest()[1..], stop, 0, text);
      OneRequest(pool, NewSlot);
      var high := 0;
      Move();
      while true
        invariant Ready() && found && high < 0x400 && pool == old(pool) && QuotedFrom(Rest(), stop, high, text) == goal
        decreases |Rest()|
      {
        var c := Current();
        ghost var s := Rest();
        Move();
        if c == stop {
          OneRequest(pool, Compare(text));
          ok := Ask(Compare(text));
          return;
        }
        if c == '\0' {
          ok := Fails(IncompleteInput);
          return;
        }
        if c == '\\' {
          ok, high := ParseEscape(s, stop, high);
          if !ok {
            return;
          }
          continue;
        }
        text := text + [c];
      }
    }

    /** An escape, behind its backslash: one character, or a code unit that may complete a code point. */
    method ParseEscape(ghost s: string, ghost stop: char, high0: nat) returns (ok: bool, high: nat)
      requires Ready() && found && high0 < 0x400 && s != "" && s[0] == '\\' != stop && Rest() == s[1..]
      modifies this
      ensures pool == old(pool)
      ensures ok ==> Ready() && found && high < 0x400 && |Rest()| < |s|
      ensures ok ==> QuotedFrom(Rest(), stop, high, text) == QuotedFrom(s, stop, high0, old(text))
      ensures !ok ==> Valid() && exists e :: status == Error(e) && QuotedFrom(s, stop, high0, old(text)) == Fail(e)
    {
      hide Hex4, Utf8, Unescape, CodePoint, Valid, Ended, Live, Rest;
      high := high0;
      var c := Current();
      if c == '\0' {
        ok := Fails(IncompleteInput);
        return;
      }
      if c == 'u' {
        Move();
        assert Rest() == s[2..];
        var u;
        ok, u := ParseHex4();
        if !ok {
          return;
        }
        if IsHighSurrogate(u) {
          high := u % 0x400;
        } else {
          CodePointBound(high, u);
          text := text + Utf8(CodePoint(high, u));
        }
        return;
      }
      c := UnescapeChar(c);
      if c == '\0' {
        ok := Fails(InvalidInput);
        return;
      }
      Move();
      assert Rest() == s[2..];
      text := text + [c];
      ok := true;
    }

    method ParseNonQuotedString() returns (ok: bool)
      requires Ready() && found && Cur(Rest()) != '\0' && !IsQuote(Cur(Rest())) && text == ""
      modifies this
      ensures Loads(old(pool), Checked(Key(old(Rest()))), Key(old(Rest())), ok, text)
    {
      OneRequest(pool, NewSlot);
      hide Served, AllServed, InToken, Token, Reading, Valid, Ended, Live, Rest;
      Spaces();
      var c := Current();
      ghost var s := Rest();
      if !InToken(c) {
        ok := Fails(InvalidInput);
        return;
      }
      ReadingStarts(s, |s|);
      while InToken(c)
        invariant Ready() && found && c == Cur(Rest()) == last && loaded && pool == old(pool)
        invariant Reading(s, |s|, text, Rest())
        decreases |Rest()|
      {
        ReadingNext(s, |s|, text, Rest());
        Move();
        text := text + [c];
        c := Current();
      }
      ReadingEnds(s, |s|, text, Rest());
      OneRequest(pool, Compare(text));
      ok := Ask(Compare(text));
    }

    method ParseKey() returns (ok: bool)
      requires Ready() && found && Cur(Rest()) != '\0'
      modifies this
      ensures Loads(old(pool), Checked(Key(old(Rest()))), Key(old(Rest())), ok, text)
    {
      hide Served, AllServed, QuotedFrom, Token, Valid, Ended, Live, Rest;
      text := "";
      var c := Current();
      if IsQuote(c) {
        ok := ParseQuotedString();
      } else {
        ok := ParseNonQuotedString();
      }
    }

    method ParseStringValue() returns (ok: bool, v: Value)
      requires Ready() && found && Cur(Rest()) != '\0'
      modifies this
      ensures Loads(old(pool), StringRequests(old(Rest())), StringValue(old(Rest())), ok, v)
      ensures ok ==> v.Str?
    {
      hide Served, AllServed, QuotedFrom, Valid, Ended, Live, Rest;
      text := "";
      StringIsKept(pool, Rest());
      ok := ParseQuotedString();
      v := Str(text);
      if !ok {
        return;
      }
      ok := Ask(Keep(text));
    }

    // ----- numbers and words

    lemma Sized()
      requires Valid()
      ensures buffer.Length == 64
    {
    }

    /** The characters of a token, at most 63 of them, with a NUL behind them. */
    method FillBuffer() returns (n: nat)
      requires Ready() && found
      modifies this`taken, this`last, this`loaded, buffer
      ensures Ready() && loaded
      ensures var t := Token(old(Rest()), 63);
              n == |t| && Rest() == old(Rest())[n..] && buffer.Length == 64 && buffer[..n] == t && buffer[n] == '\0'
    {
      hide InToken, Token, Reading, Valid, Live, Ended, Rest;
      Spaces();
      Sized();
      n := 0;
      ghost var s, done := Rest(), "";
      ReadingStarts(s, 63);
      var c := Current();
      while InToken(c) && n < 63
        invariant Ready() && c == Cur(Rest()) == last && loaded && n == |done| <= 63
        invariant buffer[..n] == done && Reading(s, 63, done, Rest())
        decreases 63 - n
      {
        ReadingNext(s, 63, done, Rest());
        Move();
        Put(n, c);
        n, done := n + 1, done + [c];
        c := Current();
      }
      ReadingEnds(s, 63, done, Rest());
      Put(n, '\0');
    }

    method Put(n: nat, c: char)
      requires n < buffer.Length
      modifies buffer
      ensures buffer[..n + 1] == old(buffer[..n]) + [c] && buffer[..n] == old(buffer[..n]) && buffer[n] == c
    {
      buffer[n] := c;
    }

    /** The integer path of parseNumber, on the NUL-terminated token in the buffer. */
    method ParseNumber(ghost token: string) returns (r: Parsed<Value>)
      requires buffer.Length == 64 && |token| < 64 && buffer[..|token|] == token && buffer[|token|] == '\0'
        && '\0' !in token
      ensures r == Number(token)
    {
      hide Mantissa;
      BufferReads(token, 0);
      var s := 0;
      var negative := buffer[0] == '-';
      if negative || buffer[0] == '+' {
        s := 1;
      }
      BufferReads(token, s);
      if !IsDigit(buffer[s]) && buffer[s] != '.' {
        return Fail(InvalidInput);
      }
      var m, end := ParseMantissa(token, s);
      BufferReads(token, end);
      if buffer[end] == '\0' {
        if negative {
          if m <= 0x8000_0000_0000_0000 {
            Complement(m);
            return Ok(Signed(AsInt64((UINT64_MAX - m + 1) % (UINT64_MAX + 1))), "");
          }
        } else {
          return Ok(Unsigned(m), "");
        }
      }
      return Fail(FloatNotModelled);
    }

    lemma BufferReads(token: string, s: nat)
      requires buffer.Length == 64 && |token| < 64 && buffer[..|token|] == token && buffer[|token|] == '\0'
        && s <= |token|
      ensures buffer[s] == Cur(token[s..])
      ensures token[0..] == token
    {
    }

    method ParseMantissa(ghost token: string, start: nat) returns (m: nat, s: nat)
      requires buffer.Length == 64 && |token| < 64 && buffer[..|token|] == token && buffer[|token|] == '\0'
        && start <= |token|
      ensures s <= |token| && m <= UINT64_MAX && Mantissa(token[start..], 0) == Ok(m, token[s..])
    {
      m, s := 0, start;
      BufferReads(token, s);
      while IsDigit(buffer[s])
        invariant start <= s <= |token| && m <= UINT64_MAX && buffer[s] == Cur(token[s..])
        invariant Mantissa(token[s..], m) == Mantissa(token[start..], 0)
        decreases |token| - s
      {
        var digit := DigitValue(buffer[s]);
        if m > UINT64_MAX / 10 {
          break;
        }
        if m * 10 > UINT64_MAX - digit {
          break;
        }
        m := m * 10 + digit;
        assert token[s..][1..] == token[s + 1..];
        s := s + 1;
        BufferReads(token, s);
      }
    }

    method ParseNumericValue(before: Value) returns (ok: bool, v: Value)
      requires Ready() && found
      modifies this, buffer
      ensures Matches(Numeric(old(Rest()), before), ok, v) && pool == old(pool)
      ensures ok ==> loaded
    {
      hide Number, InToken, Valid, Ended, Live, Rest;
      ghost var s := Rest();
      var n := FillBuffer();
      ghost var token := Token(s, 63);
      NoNul(s, 63);
      BufferReads(token, 0);
      v := before;
      if buffer[0] == 't' {
        v := Bool(true);
        if n != 4 {
          ok := Fails(IncompleteInput);
          return;
        }
      } else if buffer[0] == 'f' {
        v := Bool(false);
        if n != 5 {
          ok := Fails(IncompleteInput);
          return;
        }
      } else if buffer[0] == 'n' {
        if n != 4 {
          ok := Fails(IncompleteInput);
          return;
        }
      } else {
        var r := ParseNumber(token);
        if r.Fail? {
          ok := Fails(r.error);
          return;
        }
        v := r.value;
      }
      ok := true;
    }

    // ----- values

    method ParseVariant(before: Value, limit: nat) returns (ok: bool, v: Value)
      requires Ready()
      modifies this, buffer
      ensures Loads(old(pool), VariantRequests(old(Rest()), limit, old(found)),
        Variant(old(Rest()), limit, old(found), before), ok, v)
      ensures ok && IsNumber(v) && !IsNumber(before) ==> loaded
      decreases |Rest()|, 3
    {
      OneRequest(pool, NewSlot);
      hide Served, AllServed, Array, Object, StringValue, Numeric, ArrayRequests, ObjectRequests, StringRequests;
      hide Skipped, Valid, Ended, Live, Rest;
      v := before;
      ok := SkipSpacesAndComments();
      if !ok {
        return;
      }
      var c := Current();
      if c == '[' {
        ok, v := ParseArray(limit);
      } else if c == '{' {
        ok, v := ParseObject(limit);
      } else if IsQuote(c) {
        ok, v := ParseStringValue();
      } else {
        ok, v := ParseNumericValue(before);
      }
    }

    method ParseArray(limit: nat) returns (ok: bool, v: Value)
      requires Ready() && found && loaded && last == Cur(Rest()) != '\0'
      modifies this, buffer
      ensures Loads(old(pool), ArrayRequests(old(Rest()), limit), Array(old(Rest()), limit), ok, v)
      ensures ok ==> v.Arr?
      decreases |Rest()|, 2
    {
      OneRequest(pool, NewSlot);
      hide Served, AllServed, Elements, AllElementRequests, Skipped, Valid, Ended, Live, Rest;
      v := Arr([]);
      if limit == 0 {
        ok := Fails(TooDeep);
        return;
      }
      Move();
      ok := SkipSpacesAndComments();
      if !ok {
        return;
      }
      var end := Eat(']');
      if end {
        return;
      }
      ok, v := ParseElements(limit - 1);
    }

    /** The elements of an array that is not empty. */
    method ParseElements(limit: nat) returns (ok: bool, v: Value)
      requires Ready() && found
      modifies this, buffer
      ensures Loads(old(pool), AllElementRequests(old(Rest()), limit), Elements(old(Rest()), limit, []), ok, v)
      ensures ok ==> v.Arr?
      decreases |Rest()|, 4
    {
      hide Served, AllServed, AllElementRequests, VariantRequests, Variant, Skipped, Valid, Ended, Live, Rest;
      var elements := [];
      v := Arr(elements);
      while true
        invariant Ready() && found && |Rest()| <= |old(Rest())|
        invariant Elements(Rest(), limit, elements) == Elements(old(Rest()), limit, [])
        invariant AllServed(pool, AllElementRequests(Rest(), limit))
          == AllServed(old(pool), AllElementRequests(old(Rest()), limit))
        decreases |Rest()|
      {
        ElementStep(pool, Rest(), limit);
        ok := Ask(NewSlot);
        if !ok {
          return;
        }
        var value;
        ok, value := ParseVariant(Null, limit);
        if !ok {
          return;
        }
        ok := SkipSpacesAndComments();
        if !ok {
          return;
        }
        elements := elements + [value];
        var end := Eat(']');
        if end {
          v := Arr(elements);
          return;
        }
        var comma := Eat(',');
        if !comma {
          ok := Fails(InvalidInput);
          return;
        }
      }
    }

    method ParseObject(limit: nat) returns (ok: bool, v: Value)
      requires Ready() && found && loaded && last == Cur(Rest()) != '\0'
      modifies this, buffer
      ensures Loads(old(pool), ObjectRequests(old(Rest()), limit), Object(old(Rest()), limit), ok, v)
      ensures ok ==> v.Obj?
      decreases |Rest()|, 2
    {
      OneRequest(pool, NewSlot);
      hide Served, AllServed, Members, AllMemberRequests, Skipped, Valid, Ended, Live, Rest;
      v := Obj([]);
      if limit == 0 {
        ok := Fails(TooDeep);
        return;
      }
      Move();
      ok := SkipSpacesAndComments();
      if !ok {
        return;
      }
      var end := Eat('}');
      if end {
        return;
      }
      ok, v := ParseMembers(limit - 1);
    }

    /** The members of an object that is not empty. */
    method ParseMembers(limit: nat) returns (ok: bool, v: Value)
      requires Ready() && found && Cur(Rest()) != '\0'
      modifies this, buffer
      ensures Loads(old(pool), AllMemberRequests(old(Rest()), limit, []), Members(old(Rest()), limit, []), ok, v)
      ensures ok ==> v.Obj?
      decreases |Rest()|, 1
    {
      hide Served, AllServed, AllMemberRequests, OneMemberRequests, OneMember, Skipped, Valid, Ended, Live, Rest;
      var members := [];
      v := Obj(members);
      while true
        invariant Ready() && found && Cur(Rest()) != '\0' && |Rest()| <= |old(Rest())|
        invariant Members(Rest(), limit, members) == Members(old(Rest()), limit, [])
        invariant AllServed(pool, AllMemberRequests(Rest(), limit, members))
          == AllServed(old(pool), AllMemberRequests(old(Rest()), limit, []))
        decreases |Rest()|
      {
        MemberStep(pool, Rest(), limit, members);
        ok, members := ParseMember(limit, members);
        if !ok {
          return;
        }
        ok := SkipSpacesAndComments();
        if !ok {
          return;
        }
        var end := Eat('}');
        if end {
          v := Obj(members);
          return;
        }
        var comma := Eat(',');
        if !comma {
          ok := Fails(InvalidInput);
          return;
        }
        ok := SkipSpacesAndComments();
        if !ok {
          return;
        }
      }
    }

    /** A member: a key that is already there keeps its slot and the value in it. */
    method ParseMember(limit: nat, members: seq<Member>) returns (ok: bool, ms: seq<Member>)
      requires Ready() && found && Cur(Rest()) != '\0'
      modifies this, buffer
      ensures Loads(old(pool), OneMemberRequests(old(Rest()), limit, members),
        OneMember(old(Rest()), limit, members), ok, ms)
      decreases |Rest()|, 0
    {
      hide Served, AllServed, VariantRequests, Variant, Key, Skipped, Valid, Ended, Live, Rest, Before, WithMember;
      ms := members;
      MemberIsKept(pool, Rest(), limit, members);
      ok := ParseKey();
      if !ok {
        return;
      }
      var key := UpToNul(text);
      ok := SkipSpacesAndComments();
      if !ok {
        return;
      }
      var colon := Eat(':');
      if !colon {
        ok := Fails(InvalidInput);
        return;
      }
      if IndexOf(members, key) == |members| {
        ok := Ask(Keep(text));
        if !ok {
          return;
        }
        ok := Ask(NewSlot);
        if !ok {
          return;
        }
      }
      var value;
      ok, value := ParseVariant(Before(members, key), limit);
      if !ok {
        return;
      }
      ms := WithMember(members, key, value);
    }

    /** Parses the document into the pool: the status and the value are the ones the grammar gives, unless
        memory runs out before. */
    method Parse(limit: nat) returns (v: Value)
      requires Ready() && !found && Rest() == input
      modifies this, buffer
      ensures match Loaded(old(pool), input, limit)
              case Ok(value, _) => status.NoError? && v == value
              case Fail(e) => status == Error(e)
    {
      hide Variant, Ended, Rest;
      var ok;
      ok, v := ParseVariant(Null, limit);
      if ok && IsNumber(v) && last != '\0' {
        LastIsCurrent();
        status := Error(InvalidInput);
      } else if ok && IsNumber(v) {
        LastIsCurrent();
      }
    }

    lemma LastIsCurrent()
      requires Valid() && loaded
      ensures last == Cur(Rest())
    {
    }
  }

  lemma Complement(m: nat)
    requires m <= 0x8000_0000_0000_0000
    ensures AsInt64((UINT64_MAX - m + 1) % (UINT64_MAX + 1)) == 0 - m as int
  {
    if m == 0 {
      assert (UINT64_MAX + 1) % (UINT64_MAX + 1) == 0;
    }
  }

  lemma StringIsKept(p: Heap, s: string)
    requires s != ""
    ensures var q := QuotedFrom(s[1..], s[0], 0, "");
            var checked := AllServed(p, Checked(q));
            if q.Fail? then checked == AllServed(p, StringRequests(s)) == Some(p)
            else if checked.None? then AllServed(p, StringRequests(s)) == None
            else AllServed(p, StringRequests(s)) == Served(checked.value, Keep(q.value))
  {
    hide Served, AllServed, QuotedFrom;
    OneRequest(p, NewSlot);
    KeptChecked(p, QuotedFrom(s[1..], s[0], 0, ""));
  }

  /** What is asked for a member, step by step. */
  lemma MemberIsKept(p: Heap, s: string, limit: nat, ms: seq<Member>)
    requires s != "" && s[0] != '\0'
    ensures var (all, k) := (AllServed(p, OneMemberRequests(s, limit, ms)), Key(s));
            var checked := AllServed(p, Checked(k));
            if checked.None? then all == None
            else if k.Fail? || Skipped(k.rest, true).Fail? || Skipped(k.rest, true).rest[0] != ':' then all == checked
            else
              var rs := VariantRequests(Skipped(k.rest, true).rest[1..], limit, true);
              if IndexOf(ms, UpToNul(k.value)) < |ms| then all == AllServed(checked.value, rs)
              else
                var kept := Served(checked.value, Keep(k.value));
                if kept.None? || Served(kept.value, NewSlot).None? then all == None
                else all == AllServed(Served(kept.value, NewSlot).value, rs)
  {
    hide Served, AllServed, VariantRequests, Key, Skipped, IndexOf;
    var k := Key(s);
    OneRequest(p, NewSlot);
    if k.Ok? {
      OneRequest(p, Compare(k.value));
      KeptAfterCompare(p, k.value);
      if Skipped(k.rest, true).Ok? && Skipped(k.rest, true).rest[0] == ':' {
        var rs := VariantRequests(Skipped(k.rest, true).rest[1..], limit, true);
        FirstRequest(p, Compare(k.value), rs);
        FirstRequest(p, Keep(k.value), [NewSlot] + rs);
        assert [Keep(k.value), NewSlot] + rs == [Keep(k.value)] + ([NewSlot] + rs);
        if Served(p, Keep(k.value)).Some? {
          FirstRequest(Served(p, Keep(k.value)).value, NewSlot, rs);
        }
      }
    }
  }

  /** In the middle of a token: done was read, and the rest of it follows. */
  ghost predicate Reading(s: string, most: nat, done: string, rest: string)
  {
    |done| <= most && s == done + rest && done + Token(rest, most - |done|) == Token(s, most)
  }

  lemma ReadingStarts(s: string, most: nat)
    ensures Reading(s, most, "", s)
  {
  }

  lemma ReadingNext(s: string, most: nat, done: string, rest: string)
    requires Reading(s, most, done, rest) && (|done| < most || most == |s|) && rest != "" && InToken(rest[0])
    ensures Reading(s, most, done + [rest[0]], rest[1..])
  {
  }

  lemma ReadingEnds(s: string, most: nat, done: string, rest: string)
    requires Reading(s, most, done, rest) && (|done| == most || !InToken(Cur(rest)))
    ensures done == Token(s, most) && rest == s[|done|..]
  {
  }

  lemma {:induction false} NoNul(s: string, most: nat)
    ensures '\0' !in Token(s, most)
    decreases most
  {
    Spaces();
    if most != 0 && InToken(Cur(s)) {
      NoNul(s[1..], most - 1);
    }
  }
}
