/** What the JSON parser says of input that is cut: nothing it has understood changes when more follows. */
module JsonCut {
  import opened JsonGrammar
  import opened JsonRoundTrip
  import opened JsonSpellings
  import opened JsonText
  import opened JsonValue
  import opened Memory

  // ----- when more follows

  predicate IsTail(rest: string, s: string)
  {
    |rest| <= |s| && rest == s[|s| - |rest|..]
  }

  /** The input ends in a sign, perhaps of a number to come. */
  predicate SignLast(s: string)
  {
    s != "" && (s[|s| - 1] == '-' || s[|s| - 1] == '+')
  }

  predicate Final(e: Error)
  {
    e == InvalidInput || e == TooDeep || e == FloatNotModelled
  }

  /** r is what is read of s, and q what is read of s and more: the same value if s did not end with it or
      it is closed, and the same error if that is final. */
  ghost predicate Lasts<T>(s: string, more: string, closed: bool, r: Parsed<T>, q: Parsed<T>)
  {
    && (r.Ok? ==> IsTail(r.rest, s) && (closed || r.rest != "" ==> q == Ok(r.value, r.rest + more)))
    && (r.Fail? && Final(r.error) && !SignLast(s) ==> q == r)
  }

  lemma TailOfTail(a: string, b: string, c: string)
    requires IsTail(a, b) && IsTail(b, c)
    ensures IsTail(a, c)
    ensures a != "" ==> SignLast(a) == SignLast(c)
  {
    if a != "" {
      assert a[|a| - 1] == c[|c| - 1];
    }
  }

  lemma DroppedTail(s: string, n: nat)
    requires n <= |s|
    ensures IsTail(s[n..], s)
  {
  }

  /** A result for what is left of s is one for s. */
  lemma LastsBehind<T>(t: string, s: string, more: string, closed: bool, r: Parsed<T>, q: Parsed<T>)
    requires IsTail(t, s) && Lasts(t, more, closed, r, q)
    requires t == "" ==> r.Ok? || !Final(r.error) || q == r
    ensures Lasts(s, more, closed, r, q)
  {
    if r.Ok? {
      TailOfTail(r.rest, t, s);
    }
    if t != "" {
      TailOfTail(t, t, s);
      TailOfTail(t, s, s);
    }
  }

  lemma {:induction false} SpacesLast(s: string, more: string)
    ensures IsTail(SkipSpaces(s), s)
    ensures SkipSpaces(s) != "" ==> SkipSpaces(s + more) == SkipSpaces(s) + more
    decreases |s|
  {
    hide IsSpace;
    if s != "" {
      assert (s + more)[0] == s[0] && (s + more)[1..] == s[1..] + more;
      if IsSpace(s[0]) {
        SpacesLast(s[1..], more);
        DroppedTail(s, 1);
        TailOfTail(SkipSpaces(s[1..]), s[1..], s);
      }
    } else {
      assert !IsSpace('\0') by { NulIsNoSpace(); }
    }
  }

  lemma NulIsNoSpace()
    ensures !IsSpace('\0')
  {
  }

  lemma SkippedLasts(s: string, more: string, found: bool)
    ensures Lasts(s, more, true, Skipped(s, found), Skipped(s + more, found))
  {
    hide SkipSpaces;
    SpacesLast(s, more);
  }

  // ----- strings

  lemma {:induction false} HexLasts(s: string, more: string, digits: nat, value: nat)
    requires digits <= 4 && value < Sixteens(4 - digits)
    ensures Lasts(s, more, true, Hex4(s, digits, value), Hex4(s + more, digits, value))
    decreases digits
  {
    hide Hex4, IsHexDigit, HexValue, IsTail, SignLast, Sixteens, Lasts;
    if digits == 0 || s == "" || s[0] == '\0' || !IsHexDigit(s[0]) {
      HexStops(s, more, digits, value);
    } else {
      var next := value * 16 + HexValue(s[0]);
      assert (s + more)[0] == s[0] && (s + more)[1..] == s[1..] + more;
      HexStep(s, digits, value);
      HexStep(s + more, digits, value);
      HexLasts(s[1..], more, digits - 1, next);
      DroppedTail(s, 1);
      HexAtEnd(digits - 1, next);
      LastsBehind(s[1..], s, more, true, Hex4(s[1..], digits - 1, next), Hex4(s[1..] + more, digits - 1, next));
    }
  }

  lemma HexStep(s: string, digits: nat, value: nat)
    requires 0 < digits <= 4 && value < Sixteens(4 - digits) && s != "" && s[0] != '\0' && IsHexDigit(s[0])
    ensures value * 16 + HexValue(s[0]) < Sixteens(4 - (digits - 1))
    ensures Hex4(s, digits, value) == Hex4(s[1..], digits - 1, value * 16 + HexValue(s[0]))
  {
    hide IsHexDigit, HexValue, Sixteens;
    OneDigitOn(digits, value, s[0]);
  }

  lemma HexStops(s: string, more: string, digits: nat, value: nat)
    requires digits <= 4 && value < Sixteens(4 - digits)
    requires digits == 0 || s == "" || s[0] == '\0' || !IsHexDigit(s[0])
    ensures Lasts(s, more, true, Hex4(s, digits, value), Hex4(s + more, digits, value))
  {
    hide Hex4, IsHexDigit, HexValue, Sixteens, IsTail, SignLast;
    DroppedTail(s, 0);
    assert s[0..] == s;
    HexStopped(s, digits, value);
    if digits == 0 || (s != "" && s[0] != '\0') {
      assert s != "" ==> (s + more)[0] == s[0];
      HexStopped(s + more, digits, value);
    }
  }

  lemma HexStopped(s: string, digits: nat, value: nat)
    requires digits <= 4 && value < Sixteens(4 - digits)
    requires digits == 0 || s == "" || s[0] == '\0' || !IsHexDigit(s[0])
    ensures Hex4(s, digits, value) == if digits == 0 then Ok(value, s)
      else Fail(if s == "" || s[0] == '\0' then IncompleteInput else InvalidInput)
  {
    hide IsHexDigit, HexValue, Sixteens;
  }

  lemma OneDigitOn(digits: nat, value: nat, c: char)
    requires 0 < digits <= 4 && value < Sixteens(4 - digits) && IsHexDigit(c)
    ensures value * 16 + HexValue(c) < Sixteens(4 - (digits - 1))
  {
    hide IsHexDigit, HexValue;
  }

  lemma HexAtEnd(digits: nat, value: nat)
    requires digits <= 4 && value < Sixteens(4 - digits)
    ensures var r := Hex4("", digits, value); r.Ok? || !Final(r.error)
  {
  }

  lemma {:induction false} QuotedLasts(s: string, more: string, stop: char, high: nat, text: string)
    requires high < 0x400 && stop != '\0'
    ensures Lasts(s, more, true, QuotedFrom(s, stop, high, text), QuotedFrom(s + more, stop, high, text))
    decreases |s|, 1
  {
    hide Hex4, Unescape, Utf8, CodePoint, Lasts;
    if s == "" {
      EndLasts(more, stop, high, text);
    } else {
      assert (s + more)[0] == s[0] && (s + more)[1..] == s[1..] + more;
      if s[0] == stop || s[0] == '\0' {
        StopLasts(s, more, stop, high, text);
      } else if s[0] != '\\' {
        QuotedLasts(s[1..], more, stop, high, text + [s[0]]);
        QuotedOneOn(s, s[1..], more, stop, high, text + [s[0]]);
      } else {
        EscapeLasts(s, more, stop, high, text);
      }
    }
  }

  lemma EndLasts(more: string, stop: char, high: nat, text: string)
    requires high < 0x400 && stop != '\0'
    ensures Lasts("", more, true, QuotedFrom("", stop, high, text), QuotedFrom("" + more, stop, high, text))
  {
  }

  lemma StopLasts(s: string, more: string, stop: char, high: nat, text: string)
    requires high < 0x400 && stop != '\0' && s != "" && (s[0] == stop || s[0] == '\0')
    ensures Lasts(s, more, true, QuotedFrom(s, stop, high, text), QuotedFrom(s + more, stop, high, text))
  {
    assert (s + more)[0] == s[0] && (s + more)[1..] == s[1..] + more;
    DroppedTail(s, 1);
  }

  lemma QuotedOneOn(s: string, t: string, more: string, stop: char, high: nat, text: string)
    requires high < 0x400 && stop != '\0' && IsTail(t, s)
    requires Lasts(t, more, true, QuotedFrom(t, stop, high, text), QuotedFrom(t + more, stop, high, text))
    ensures Lasts(s, more, true, QuotedFrom(t, stop, high, text), QuotedFrom(t + more, stop, high, text))
  {
    hide Lasts, Hex4;
    assert t == "" ==> QuotedFrom(t, stop, high, text) == Fail(IncompleteInput);
    LastsBehind(t, s, more, true, QuotedFrom(t, stop, high, text), QuotedFrom(t + more, stop, high, text));
  }

  lemma {:induction false} EscapeLasts(s: string, more: string, stop: char, high: nat, text: string)
    requires high < 0x400 && stop != '\0' && stop != '\\' && s != "" && s[0] == '\\'
    ensures Lasts(s, more, true, QuotedFrom(s, stop, high, text), QuotedFrom(s + more, stop, high, text))
    decreases |s|, 0
  {
    hide Hex4, Unescape, Utf8, IsTail, SignLast;
    assert (s + more)[0] == s[0] && (s + more)[1..] == s[1..] + more;
    if |s| > 1 && s[1] != '\0' {
      var t := s[2..];
      assert (s + more)[1] == s[1] && (s + more)[2..] == t + more;
      DroppedTail(s, 2);
      if s[1] == 'u' {
        HexLasts(t, more, 4, 0);
        var u := Hex4(t, 4, 0);
        if u.Fail? {
          HexAtEnd(4, 0);
          LastsBehind(t, s, more, true, u, Hex4(t + more, 4, 0));
        } else {
          TailOfTail(u.rest, t, s);
          var (h, x) := if IsHighSurrogate(u.value) then (u.value % 0x400, text)
                        else (high, text + Utf8(CodePoint(high, u.value)));
          QuotedLasts(u.rest, more, stop, h, x);
          QuotedOneOn(s, u.rest, more, stop, h, x);
        }
      } else if Unescape(s[1]) != '\0' {
        QuotedLasts(t, more, stop, high, text + [Unescape(s[1])]);
        QuotedOneOn(s, t, more, stop, high, text + [Unescape(s[1])]);
      }
    }
  }

  // ----- tokens

  /** A token that does not end with the input stays; another one may go on. */
  lemma {:induction false} TokenLasts(s: string, more: string, most: nat)
    ensures var (t, u) := (Token(s, most), Token(s + more, most));
            && (|t| < |s| ==> u == t) && |t| <= |u| && u[..|t|] == t
    decreases |s|
  {
    hide InToken;
    if s != "" {
      assert (s + more)[0] == s[0] && (s + more)[1..] == s[1..] + more;
      if most != 0 && InToken(s[0]) {
        TokenLasts(s[1..], more, most - 1);
        var (t, u) := (Token(s[1..], most - 1), Token(s[1..] + more, most - 1));
        assert u[..|t|] == t && ([s[0]] + u)[..1 + |t|] == [s[0]] + u[..|t|];
      }
    } else {
      assert !InToken('\0') by { NulEndsToken(); }
    }
  }

  lemma NulEndsToken()
    ensures !InToken('\0')
  {
  }

  lemma TokenShort(s: string, most: nat)
    requires |s| <= most
    ensures Token(s, most) == Token(s, |s|)
    decreases |s|
  {
    if s != "" {
      TokenShort(s[1..], most - 1);
    }
  }

  lemma KeyLasts(s: string, more: string)
    requires s != "" && s[0] != '\0'
    ensures s + more != "" && (s + more)[0] == s[0] && Lasts(s, more, IsQuote(s[0]), Key(s), Key(s + more))
  {
    hide QuotedFrom, Token, InToken, Lasts;
    assert (s + more)[0] == s[0] && (s + more)[1..] == s[1..] + more;
    if IsQuote(s[0]) {
      DroppedTail(s, 1);
      QuotedLasts(s[1..], more, s[0], 0, "");
      QuotedOneOn(s, s[1..], more, s[0], 0, "");
    } else {
      TokenKeyLasts(s, more);
    }
  }

  lemma TokenKeyLasts(s: string, more: string)
    requires s != "" && s[0] != '\0' && !IsQuote(s[0])
    ensures s + more != "" && (s + more)[0] == s[0] && Lasts(s, more, false, Key(s), Key(s + more))
  {
    hide Token, InToken;
    TokenLasts(s, more, |s|);
    if |Token(s, |s|)| < |s| {
      TokenBound(s + more, |s|, |s| + |more|);
    }
  }

  /** A token shorter than its bound ends before a character that is not part of it. */
  lemma {:induction false} TokenBound(s: string, most: nat, larger: nat)
    requires most <= larger && |Token(s, most)| < most
    ensures Token(s, larger) == Token(s, most)
    decreases most
  {
    if most != 0 && InToken(Cur(s)) {
      TokenBound(s[1..], most - 1, larger - 1);
    }
  }

  // ----- numbers and words

  lemma {:induction false} MantissaLasts(s: string, more: string, m: nat)
    requires m <= UINT64_MAX
    ensures var (r, q) := (Mantissa(s, m), Mantissa(s + more, m));
            && m <= r.value && (r.rest != "" ==> q == Ok(r.value, r.rest + more)) && r.value <= q.value
    decreases |s|
  {
    if s == "" {
      assert s + more == more;
      MantissaGrows(more, m);
    } else {
      assert (s + more)[0] == s[0] && (s + more)[1..] == s[1..] + more;
      if IsDigit(s[0]) && m <= UINT64_MAX / 10 && m * 10 <= UINT64_MAX - DigitValue(s[0]) {
        MantissaLasts(s[1..], more, m * 10 + DigitValue(s[0]));
      }
    }
  }

  lemma {:induction false} MantissaGrows(s: string, m: nat)
    requires m <= UINT64_MAX
    ensures m <= Mantissa(s, m).value
    decreases |s|
  {
    if !(!IsDigit(Cur(s)) || m > UINT64_MAX / 10 || m * 10 > UINT64_MAX - DigitValue(s[0])) {
      MantissaGrows(s[1..], m * 10 + DigitValue(s[0]));
    }
  }

  /** A token that is no number stays so, unless it is a sign alone. */
  lemma NumberLasts(t: string, more: string)
    requires t != "" && !SignLast(t) && Number(t).Fail?
    ensures Number(t + more) == Number(t)
  {
    hide Mantissa;
    var signed := t[0] == '-' || t[0] == '+';
    var (s, u) := if signed then (t[1..], (t + more)[1..]) else (t, t + more);
    assert u == s + more && (signed ==> s != "");
    assert (t + more)[0] == t[0] && (s + more)[0] == s[0];
    MantissaLasts(s, more, 0);
  }

  lemma NumericLasts(s: string, more: string, before: Value)
    requires s != ""
    ensures Lasts(s, more, false, Numeric(s, before), Numeric(s + more, before))
  {
    hide Number, Token, InToken, IsTail, SignLast;
    TokenLasts(s, more, 63);
    var (t, u) := (Token(s, 63), Token(s + more, 63));
    DroppedTail(s, |t|);
    if |t| < |s| {
      assert (s + more)[|t|..] == s[|t|..] + more;
    } else {
      assert t == s && s[|t|..] == "" && u == t + u[|t|..];
      assert Cur(u) == Cur(t);
      if Number(t).Fail? && !SignLast(s) {
        NumberLasts(t, u[|t|..]);
      }
    }
  }

  // ----- values

  predicate Encloses(c: char)
  {
    c == '[' || c == '{' || IsQuote(c)
  }

  /** Its end is its own: a value that begins with a bracket, a brace or a quote. */
  predicate Closed(s: string)
  {
    SkipSpaces(s) != "" && Encloses(SkipSpaces(s)[0])
  }

  lemma SkippedIs(s: string, found: bool)
    ensures var t := Skipped(s, found);
            && (t.Ok? ==> t.rest == SkipSpaces(s) && IsTail(t.rest, s)) && (t.Fail? ==> !Final(t.error))
  {
    hide SkipSpaces;
    SpacesLast(s, "");
  }

  lemma {:induction false} VariantLasts(s: string, more: string, limit: nat, found: bool, before: Value)
    ensures Lasts(s, more, Closed(s), Variant(s, limit, found, before), Variant(s + more, limit, found, before))
    decreases |s|, 3
  {
    hide Skipped, Array, Object, StringValue, Numeric, SkipSpaces, IsTail, SignLast;
    SkippedIs(s, found);
    SkippedLasts(s, more, found);
    var t := Skipped(s, found);
    if t.Ok? {
      var u := t.rest;
      assert (u + more)[0] == u[0];
      assert |u| <= |s| by { TailLength(u, s); }
      if u[0] == '[' {
        ArrayLasts(u, more, limit);
        LastsBehind(u, s, more, true, Array(u, limit), Array(u + more, limit));
      } else if u[0] == '{' {
        ObjectLasts(u, more, limit);
        LastsBehind(u, s, more, true, Object(u, limit), Object(u + more, limit));
      } else if IsQuote(u[0]) {
        StringLasts(u, more);
        LastsBehind(u, s, more, true, StringValue(u), StringValue(u + more));
      } else {
        NumericLasts(u, more, before);
        LastsBehind(u, s, more, false, Numeric(u, before), Numeric(u + more, before));
      }
    }
  }

  lemma TailLength(a: string, b: string)
    requires IsTail(a, b)
    ensures |a| <= |b|
  {
  }

  lemma StringLasts(s: string, more: string)
    requires s != "" && IsQuote(s[0])
    ensures s + more != "" && Lasts(s, more, true, StringValue(s), StringValue(s + more))
  {
    hide QuotedFrom;
    assert (s + more)[0] == s[0] && (s + more)[1..] == s[1..] + more;
    DroppedTail(s, 1);
    QuotedLasts(s[1..], more, s[0], 0, "");
    QuotedOneOn(s, s[1..], more, s[0], 0, "");
  }

  lemma {:induction false} ArrayLasts(s: string, more: string, limit: nat)
    requires s != ""
    ensures s + more != "" && Lasts(s, more, true, Array(s, limit), Array(s + more, limit))
    decreases |s|, 2
  {
    hide Skipped, Elements, IsTail, SignLast;
    assert (s + more)[1..] == s[1..] + more;
    DroppedTail(s, 1);
    SkippedIs(s[1..], true);
    SkippedLasts(s[1..], more, true);
    var t := Skipped(s[1..], true);
    if t.Ok? {
      var u := t.rest;
      assert (u + more)[0] == u[0] && (u + more)[1..] == u[1..] + more;
      assert |u| < |s| by { TailLength(u, s[1..]); }
      TailOfTail(u, s[1..], s);
      DroppedTail(u, 1);
      TailOfTail(u[1..], u, s);
      if limit != 0 && u[0] != ']' {
        ElementsLasts(u, more, limit - 1, []);
        LastsBehind(u, s, more, true, Elements(u, limit - 1, []), Elements(u + more, limit - 1, []));
      }
    }
  }

  lemma {:induction false} ElementsLasts(s: string, more: string, limit: nat, vs: seq<Value>)
    ensures Lasts(s, more, true, Elements(s, limit, vs), Elements(s + more, limit, vs))
    decreases |s|, 4
  {
    hide Skipped, Variant, IsTail, SignLast, Closed;
    VariantLasts(s, more, limit, true, Null);
    var v := Variant(s, limit, true, Null);
    if v.Ok? {
      SkippedIs(v.rest, true);
      SkippedLasts(v.rest, more, true);
      NothingSkipped();
      var t := Skipped(v.rest, true);
      if t.Ok? {
        var u := t.rest;
        assert (u + more)[0] == u[0] && (u + more)[1..] == u[1..] + more;
        assert |u| < |s| by { TailLength(u, v.rest); }
        TailOfTail(u, v.rest, s);
        DroppedTail(u, 1);
        TailOfTail(u[1..], u, s);
        if u[0] == ',' {
          ElementsLasts(u[1..], more, limit, vs + [v.value]);
          NoElements(limit, vs + [v.value]);
          LastsBehind(u[1..], s, more, true, Elements(u[1..], limit, vs + [v.value]),
                      Elements(u[1..] + more, limit, vs + [v.value]));
        }
      }
    }
  }

  lemma NothingSkipped()
    ensures Skipped("", true).Fail?
  {
  }

  lemma NoElements(limit: nat, vs: seq<Value>)
    ensures Elements("", limit, vs).Fail? && !Final(Elements("", limit, vs).error)
  {
  }

  lemma {:induction false} ObjectLasts(s: string, more: string, limit: nat)
    requires s != ""
    ensures s + more != "" && Lasts(s, more, true, Object(s, limit), Object(s + more, limit))
    decreases |s|, 2
  {
    hide Skipped, Members, IsTail, SignLast;
    assert (s + more)[1..] == s[1..] + more;
    DroppedTail(s, 1);
    SkippedIs(s[1..], true);
    SkippedLasts(s[1..], more, true);
    var t := Skipped(s[1..], true);
    if t.Ok? {
      var u := t.rest;
      assert (u + more)[0] == u[0] && (u + more)[1..] == u[1..] + more;
      assert |u| < |s| by { TailLength(u, s[1..]); }
      TailOfTail(u, s[1..], s);
      DroppedTail(u, 1);
      TailOfTail(u[1..], u, s);
      if limit != 0 && u[0] != '}' {
        MembersLasts(u, more, limit - 1, []);
        LastsBehind(u, s, more, true, Members(u, limit - 1, []), Members(u + more, limit - 1, []));
      }
    }
  }

  lemma {:induction false} MembersLasts(s: string, more: string, limit: nat, ms: seq<Member>)
    requires s != "" && s[0] != '\0'
    ensures s + more != "" && (s + more)[0] == s[0]
    ensures Lasts(s, more, true, Members(s, limit, ms), Members(s + more, limit, ms))
    decreases |s|, 1
  {
    hide Skipped, OneMember, IsTail, SignLast;
    OneMemberLasts(s, more, limit, ms);
    var m := OneMember(s, limit, ms);
    if m.Ok? {
      SkippedIs(m.rest, true);
      SkippedLasts(m.rest, more, true);
      NothingSkipped();
      var t := Skipped(m.rest, true);
      if t.Ok? {
        var u := t.rest;
        assert (u + more)[0] == u[0] && (u + more)[1..] == u[1..] + more;
        assert |u| < |s| by { TailLength(u, m.rest); }
        TailOfTail(u, m.rest, s);
        DroppedTail(u, 1);
        TailOfTail(u[1..], u, s);
        if u[0] == ',' {
          NextLasts(s, u[1..], more, limit, m.value);
        }
      }
    }
  }

  /** The next key and what follows it. */
  lemma {:induction false} NextLasts(s: string, w: string, more: string, limit: nat, ms: seq<Member>)
    requires |w| < |s| && IsTail(w, s)
    ensures var (t, q) := (Skipped(w, true), Skipped(w + more, true));
            if t.Fail? then !Final(t.error)
            else q.Ok? && Lasts(s, more, true, Members(t.rest, limit, ms), Members(q.rest, limit, ms))
    decreases |s|, 0, 1
  {
    hide Skipped, Members, IsTail, SignLast;
    SkippedIs(w, true);
    SkippedLasts(w, more, true);
    var t := Skipped(w, true);
    if t.Ok? {
      assert |t.rest| <= |w| by { TailLength(t.rest, w); }
      TailOfTail(t.rest, w, s);
      MembersLasts(t.rest, more, limit, ms);
      LastsBehind(t.rest, s, more, true, Members(t.rest, limit, ms), Members(t.rest + more, limit, ms));
    }
  }

  lemma {:induction false} OneMemberLasts(s: string, more: string, limit: nat, ms: seq<Member>)
    requires s != "" && s[0] != '\0'
    ensures s + more != "" && (s + more)[0] == s[0]
    ensures Lasts(s, more, false, OneMember(s, limit, ms), OneMember(s + more, limit, ms))
    decreases |s|, 0
  {
    hide Skipped, Variant, Key, IsTail, SignLast, Closed, UpToNul, Before, WithMember;
    KeyLasts(s, more);
    var k := Key(s);
    if k.Ok? {
      SkippedIs(k.rest, true);
      SkippedLasts(k.rest, more, true);
      NothingSkipped();
      var t := Skipped(k.rest, true);
      if t.Ok? {
        var u := t.rest;
        assert (u + more)[0] == u[0] && (u + more)[1..] == u[1..] + more;
        assert |u| < |s| by { TailLength(u, k.rest); }
        TailOfTail(u, k.rest, s);
        DroppedTail(u, 1);
        TailOfTail(u[1..], u, s);
        if u[0] == ':' {
          var before := Before(ms, UpToNul(k.value));
          VariantLasts(u[1..], more, limit, true, before);
          NoVariant(limit, before);
          LastsBehind(u[1..], s, more, Closed(u[1..]), Variant(u[1..], limit, true, before),
                      Variant(u[1..] + more, limit, true, before));
        }
      }
    }
  }

  lemma NoVariant(limit: nat, before: Value)
    ensures Variant("", limit, true, before).Fail? && !Final(Variant("", limit, true, before).error)
  {
  }

  // ----- errors inside a document

  /** The errors of a parser that has found something. */
  predicate Inside(e: Error)
  {
    Final(e) || e == IncompleteInput
  }

  lemma {:induction false} HexInside(s: string, digits: nat, value: nat)
    requires digits <= 4 && value < Sixteens(4 - digits)
    ensures var r := Hex4(s, digits, value); r.Fail? ==> Inside(r.error)
    decreases digits
  {
    hide HexValue, IsHexDigit;
    if !(digits == 0 || Cur(s) == '\0' || !IsHexDigit(Cur(s))) {
      HexInside(s[1..], digits - 1, value * 16 + HexValue(Cur(s)));
    }
  }

  lemma {:induction false} QuotedInside(s: string, stop: char, high: nat, text: string)
    requires high < 0x400
    ensures var r := QuotedFrom(s, stop, high, text); r.Fail? ==> Inside(r.error)
    decreases |s|
  {
    hide Hex4, Utf8;
    if s != "" && s[0] != stop && s[0] != '\0' {
      if s[0] != '\\' {
        QuotedInside(s[1..], stop, high, text + [s[0]]);
      } else if |s| > 1 && s[1] == 'u' {
        HexInside(s[2..], 4, 0);
        var u := Hex4(s[2..], 4, 0);
        if u.Ok? {
          QuotedInside(u.rest, stop, if IsHighSurrogate(u.value) then u.value % 0x400 else high,
                       if IsHighSurrogate(u.value) then text else text + Utf8(CodePoint(high, u.value)));
        }
      } else if |s| > 1 && Unescape(s[1]) != '\0' {
        QuotedInside(s[2..], stop, high, text + [Unescape(s[1])]);
      }
    }
  }

  lemma NumericInside(s: string, before: Value)
    ensures var r := Numeric(s, before); r.Fail? ==> Inside(r.error)
  {
    hide Token, Mantissa;
  }

  lemma SkippedInside(s: string)
    ensures var r := Skipped(s, true); r.Fail? ==> r.error == IncompleteInput
  {
    hide SkipSpaces;
  }

  lemma {:induction false} VariantInside(s: string, limit: nat, found: bool, before: Value)
    ensures var r := Variant(s, limit, found, before);
            r.Fail? ==> Inside(r.error) || (r.error == EmptyInput && !found && Skipped(s, false).Fail?)
    decreases |s|, 3
  {
    hide SkipSpaces, Array, Object, QuotedFrom, Numeric;
    var t := Skipped(s, found);
    if t.Ok? {
      if t.rest[0] == '[' {
        ArrayInside(t.rest, limit);
      } else if t.rest[0] == '{' {
        ObjectInside(t.rest, limit);
      } else if IsQuote(t.rest[0]) {
        QuotedInside(t.rest[1..], t.rest[0], 0, "");
      } else {
        NumericInside(t.rest, before);
      }
    }
  }

  lemma {:induction false} ArrayInside(s: string, limit: nat)
    requires s != ""
    ensures var r := Array(s, limit); r.Fail? ==> Inside(r.error)
    decreases |s|, 2
  {
    hide Skipped, Elements;
    SkippedInside(s[1..]);
    var t := Skipped(s[1..], true);
    if limit != 0 && t.Ok? && t.rest[0] != ']' {
      ElementsInside(t.rest, limit - 1, []);
    }
  }

  lemma {:induction false} ElementsInside(s: string, limit: nat, vs: seq<Value>)
    ensures var r := Elements(s, limit, vs); r.Fail? ==> Inside(r.error)
    decreases |s|, 4
  {
    hide Skipped, Variant;
    VariantInside(s, limit, true, Null);
    var v := Variant(s, limit, true, Null);
    if v.Ok? {
      SkippedInside(v.rest);
      var t := Skipped(v.rest, true);
      if t.Ok? && t.rest[0] == ',' {
        ElementsInside(t.rest[1..], limit, vs + [v.value]);
      }
    }
  }

  lemma {:induction false} ObjectInside(s: string, limit: nat)
    requires s != ""
    ensures var r := Object(s, limit); r.Fail? ==> Inside(r.error)
    decreases |s|, 2
  {
    hide Skipped, Members;
    SkippedInside(s[1..]);
    var t := Skipped(s[1..], true);
    if limit != 0 && t.Ok? && t.rest[0] != '}' {
      MembersInside(t.rest, limit - 1, []);
    }
  }

  lemma {:induction false} MembersInside(s: string, limit: nat, ms: seq<Member>)
    requires s != "" && s[0] != '\0'
    ensures var r := Members(s, limit, ms); r.Fail? ==> Inside(r.error)
    decreases |s|, 1
  {
    hide Skipped, OneMember;
    OneMemberInside(s, limit, ms);
    var m := OneMember(s, limit, ms);
    if m.Ok? {
      SkippedInside(m.rest);
      var t := Skipped(m.rest, true);
      if t.Ok? && t.rest[0] == ',' {
        SkippedInside(t.rest[1..]);
        var u := Skipped(t.rest[1..], true);
        if u.Ok? {
          MembersInside(u.rest, limit, m.value);
        }
      }
    }
  }

  lemma {:induction false} OneMemberInside(s: string, limit: nat, ms: seq<Member>)
    requires s != "" && s[0] != '\0'
    ensures var r := OneMember(s, limit, ms); r.Fail? ==> Inside(r.error)
    decreases |s|, 0
  {
    hide Skipped, Variant, QuotedFrom, Token, UpToNul, Before, WithMember;
    if IsQuote(s[0]) {
      QuotedInside(s[1..], s[0], 0, "");
    }
    var k := Key(s);
    if k.Ok? {
      SkippedInside(k.rest);
      var t := Skipped(k.rest, true);
      if t.Ok? && t.rest[0] == ':' {
        VariantInside(t.rest[1..], limit, true, Before(ms, UpToNul(k.value)));
      }
    }
  }

  // ----- documents

  /** Input is reported as empty exactly if it is white space, up to its end or a NUL. */
  lemma EmptyExactly(s: string, limit: nat)
    ensures Document(s, limit) == Fail(EmptyInput) <==> Cur(SkipSpaces(s)) == '\0'
  {
    hide SkipSpaces, Array, Object, StringValue, Numeric;
    VariantInside(s, limit, false, Null);
  }

  lemma WordCut(w: string, j: nat)
    requires (w == "null" || w == "true" || w == "false") && 0 < j < |w|
    ensures Numeric(w[..j], Null) == Fail(IncompleteInput)
    ensures Begins(w[..j]) && !Encloses(w[0])
  {
    hide Token;
    assert AllInToken("null") && AllInToken("true") && AllInToken("false");
    assert AllInToken(w[..j]) && w[..j] + "" == w[..j];
    TokenRead(w[..j], "", 63);
  }

  lemma WhiteIsSkipped(w: string)
    requires White(w)
    ensures SkipSpaces(w) == ""
    decreases |w|
  {
    if w != "" {
      WhiteIsSkipped(w[1..]);
    }
  }

  lemma FirstSkipped(w: string, s: string)
    requires White(w) && Begins(s)
    ensures SkipSpaces(w + s) == s
  {
    hide SkipSpaces, IsSpace;
    WhiteSkipped(w, s, true);
  }

  /** The text of a value cut anywhere: what is left of it is refused, as empty if that is white space
      only, and otherwise as incomplete, unless it ends in a sign. A cut number may be another number. */
  lemma CutIsIncomplete(before: string, t: Tree, limit: nat, k: nat)
    requires TreeOk(t) && !t.Int? && White(before) && Depth(Meaning(t)) <= limit && k < |before + TreeText(t)|
    ensures var (p, r) := ((before + TreeText(t))[..k], Document((before + TreeText(t))[..k], limit));
            && r.Fail? && (k <= |before| ==> r.error == EmptyInput)
            && (|before| < k ==> r.error == IncompleteInput || (SignLast(p) && Inside(r.error)))
  {
    hide TreeOk, TreeText, Variant, Depth, Meaning, Lasts, SkipSpaces, Begins, White;
    var text := before + TreeText(t);
    var p, more := text[..k], text[k..];
    if k <= |before| {
      assert p == before[..k];
      WhiteCut(before, k);
      WhiteIsSkipped(p);
      EmptyExactly(p, limit);
    } else {
      var s := TreeText(t)[..k - |before|];
      assert p == before + s && p + more == text && s + more == TreeText(t);
      TreeStarts(t, "");
      assert TreeText(t) + "" == TreeText(t) && s[0] == TreeText(t)[0];
      BeginsCut(s, more);
      FirstSkipped(before, s);
      VariantInside(p, limit, false, Null);
      VariantBehindWhite(before, TreeText(t), limit, false, Null);
      TreeRead(t, limit, false, Null, "");
      VariantLasts(p, more, limit, false, Null);
      if t.Word? {
        WordIs(t);
        WordCut(TreeText(t), k - |before|);
        VariantBehindWhite(before, s, limit, false, Null);
        WordVariant(s, limit);
      } else {
        ClosedCut(p, more, limit, s);
      }
    }
  }

  lemma WhiteCut(w: string, k: nat)
    requires White(w) && k <= |w|
    ensures White(w[..k])
  {
  }

  lemma BeginsCut(s: string, more: string)
    requires s != "" && Begins(s + more)
    ensures Begins(s)
  {
    assert (s + more)[0] == s[0];
  }

  lemma WordIs(t: Tree)
    requires t.Word?
    ensures TreeText(t) == "null" || TreeText(t) == "true" || TreeText(t) == "false"
  {
  }

  lemma WordVariant(s: string, limit: nat)
    requires Begins(s) && !Encloses(s[0]) && Numeric(s, Null) == Fail(IncompleteInput)
    ensures Variant(s, limit, false, Null) == Fail(IncompleteInput)
  {
    hide Numeric;
    NoSpaces(s, false);
  }

  /** A closed value that is read whole with more behind it is not read without. */
  lemma ClosedCut(p: string, more: string, limit: nat, s: string)
    requires more != "" && SkipSpaces(p) == s && s != "" && Encloses(s[0])
    requires var q := Variant(p + more, limit, false, Null); q.Ok? && q.rest == ""
    requires Lasts(p, more, Closed(p), Variant(p, limit, false, Null), Variant(p + more, limit, false, Null))
    ensures var r := Variant(p, limit, false, Null); r.Fail? && (Final(r.error) ==> SignLast(p))
  {
    hide Variant, SkipSpaces;
  }
}
