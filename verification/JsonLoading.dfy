/** Parsing into a pool: what the parser of pagers-server/json/ArduinoJson.h asks of it while it reads a
    text, any text, and with that the outcome that memory has run out. */
module JsonLoading {
  import opened JsonGrammar
  import opened JsonMemory
  import opened JsonNesting
  import opened JsonRepeatedKeys
  import opened JsonRoundTrip
  import opened JsonText
  import opened JsonValue
  import opened Memory
  import Pools = MemoryPool

  // ----- what is asked while a text is read, up to its end or its first error

  function VariantRequests(s: string, limit: nat, found: bool): seq<Request>
    decreases |s|, 3
  {
    var t := Skipped(s, found);
    if t.Fail? then []
    else if t.rest[0] == '[' then ArrayRequests(t.rest, limit)
    else if t.rest[0] == '{' then ObjectRequests(t.rest, limit)
    else if IsQuote(t.rest[0]) then StringRequests(t.rest)
    else []
  }

  function StringRequests(s: string): seq<Request>
    requires s != ""
  {
    var q := QuotedFrom(s[1..], s[0], 0, "");
    if q.Ok? then [Keep(q.value)] else []
  }

  function ArrayRequests(s: string, limit: nat): seq<Request>
    requires s != ""
    decreases |s|, 2
  {
    if limit == 0 then []
    else
      var t := Skipped(s[1..], true);
      if t.Fail? || t.rest[0] == ']' then [] else AllElementRequests(t.rest, limit - 1)
  }

  /** The slot of an element is taken before anything of it is read. */
  function AllElementRequests(s: string, limit: nat): seq<Request>
    decreases |s|, 4
  {
    var v := Variant(s, limit, true, Null);
    [NewSlot] + VariantRequests(s, limit, true) +
    if v.Fail? then []
    else
      var t := Skipped(v.rest, true);
      if t.Ok? && t.rest[0] == ',' then AllElementRequests(t.rest[1..], limit) else []
  }

  function ObjectRequests(s: string, limit: nat): seq<Request>
    requires s != ""
    decreases |s|, 2
  {
    if limit == 0 then []
    else
      var t := Skipped(s[1..], true);
      if t.Fail? || t.rest[0] == '}' then [] else AllMemberRequests(t.rest, limit - 1, [])
  }

  function AllMemberRequests(s: string, limit: nat, ms: seq<Member>): seq<Request>
    requires s != "" && s[0] != '\0'
    decreases |s|, 1
  {
    var m := OneMember(s, limit, ms);
    OneMemberRequests(s, limit, ms) +
    if m.Fail? then []
    else
      var t := Skipped(m.rest, true);
      if t.Fail? || t.rest[0] != ',' then []
      else
        var u := Skipped(t.rest[1..], true);
        if u.Fail? then [] else AllMemberRequests(u.rest, limit, m.value)
  }

  /** The key is assembled in any case, and kept if a colon follows and the object does not have it. */
  function OneMemberRequests(s: string, limit: nat, ms: seq<Member>): seq<Request>
    requires s != "" && s[0] != '\0'
    decreases |s|, 0
  {
    var k := Key(s);
    if k.Fail? then []
    else
      var t := Skipped(k.rest, true);
      if t.Fail? || t.rest[0] != ':' then [Compare(k.value)]
      else
        var known := IndexOf(ms, UpToNul(k.value)) < |ms|;
        (if known then [Compare(k.value)] else [Keep(k.value), NewSlot]) + VariantRequests(t.rest[1..], limit, true)
  }

  /** A string that has just been compared is kept as if it had not. */
  lemma KeptAfterCompare(p: Heap, s: string)
    ensures Served(p, Compare(s)).None? ==> Served(p, Keep(s)).None?
    ensures Served(p, Compare(s)).Some? ==> Served(Served(p, Compare(s)).value, Keep(s)) == Served(p, Keep(s))
  {
    hide Pools.Found, Splice;
    if Served(p, Compare(s)).Some? {
      Pools.FreeZone(p, s);
      Pools.WrittenTwice(p, s);
    }
  }

  lemma OneRequest(p: Heap, r: Request)
    ensures AllServed(p, [r]) == Served(p, r) && AllServed(p, []) == Some(p)
  {
    hide Served;
    assert [r][1..] == [];
  }

  lemma FirstRequest(p: Heap, r: Request, rs: seq<Request>)
    ensures AllServed(p, [r] + rs) == if Served(p, r).None? then None else AllServed(Served(p, r).value, rs)
  {
    hide Served;
    assert ([r] + rs)[1..] == rs;
  }

  /** A string is assembled in the pool while it is read, and there must have been room for it. */
  function Checked(r: Parsed<string>): seq<Request>
  {
    if r.Ok? then [Compare(r.value)] else []
  }

  /** A string read with room for it is kept as if it had not been checked before. */
  lemma KeptChecked(p: Heap, r: Parsed<string>)
    ensures var checked := AllServed(p, Checked(r));
            if r.Fail? then checked == Some(p)
            else AllServed(p, [Keep(r.value)]) == if checked.None? then None else Served(checked.value, Keep(r.value))
  {
    hide Served, AllServed;
    OneRequest(p, NewSlot);
    if r.Ok? {
      OneRequest(p, Compare(r.value));
      OneRequest(p, Keep(r.value));
      KeptAfterCompare(p, r.value);
    }
  }

  /** What is asked for an element and those behind it, step by step. */
  lemma ElementStep(p: Heap, s: string, limit: nat)
    ensures var (all, rs) := (AllServed(p, AllElementRequests(s, limit)), VariantRequests(s, limit, true));
            var v := Variant(s, limit, true, Null);
            var slot := Served(p, NewSlot);
            if slot.None? then all == None
            else
              var q := AllServed(slot.value, rs);
              if q.None? then all == None
              else if v.Fail? then all == q
              else
                var t := Skipped(v.rest, true);
                if t.Ok? && t.rest[0] == ',' then all == AllServed(q.value, AllElementRequests(t.rest[1..], limit))
                else all == q
  {
    hide Served, VariantRequests, Variant, Skipped, AllServed;
    var (rs, v) := (VariantRequests(s, limit, true), Variant(s, limit, true, Null));
    var t := Skipped(if v.Ok? then v.rest else "", true);
    var rest := if v.Ok? && t.Ok? && t.rest[0] == ',' then AllElementRequests(t.rest[1..], limit) else [];
    assert AllElementRequests(s, limit) == [NewSlot] + rs + rest;
    AllServedConcat(p, [NewSlot] + rs, rest);
    FirstRequest(p, NewSlot, rs);
    if Served(p, NewSlot).Some? && AllServed(Served(p, NewSlot).value, rs).Some? {
      OneRequest(AllServed(Served(p, NewSlot).value, rs).value, NewSlot);
    }
  }

  /** The same for a member and those behind it. */
  lemma MemberStep(p: Heap, s: string, limit: nat, ms: seq<Member>)
    requires s != "" && s[0] != '\0'
    ensures var (all, m) := (AllServed(p, AllMemberRequests(s, limit, ms)), OneMember(s, limit, ms));
            var q := AllServed(p, OneMemberRequests(s, limit, ms));
            if q.None? then all == None
            else if m.Fail? then all == q
            else
              var t := Skipped(m.rest, true);
              if t.Fail? || t.rest[0] != ',' then all == q
              else
                var u := Skipped(t.rest[1..], true);
                all == if u.Fail? then q else AllServed(q.value, AllMemberRequests(u.rest, limit, m.value))
  {
    hide Served, OneMemberRequests, OneMember, Skipped, AllServed;
    var (rs, m) := (OneMemberRequests(s, limit, ms), OneMember(s, limit, ms));
    var t := Skipped(if m.Ok? then m.rest else "", true);
    var u := Skipped(if m.Ok? && t.Ok? && t.rest[0] == ',' then t.rest[1..] else "", true);
    var rest := if m.Ok? && t.Ok? && t.rest[0] == ',' && u.Ok? then AllMemberRequests(u.rest, limit, m.value) else [];
    assert AllMemberRequests(s, limit, ms) == rs + rest;
    AllServedConcat(p, rs, rest);
    if AllServed(p, rs).Some? {
      OneRequest(AllServed(p, rs).value, NewSlot);
    }
  }

  /** A document parsed into a pool. */
  function Loaded(p: Pools.Pool, s: string, limit: nat): Parsed<Value>
    requires Pools.InRange(p)
  {
    Limited(p, VariantRequests(s, limit, false), Document(s, limit))
  }

  // ----- the text of a value

  lemma {:induction false} ValueRequested(v: Value, limit: nat, found: bool, rest: string)
    requires Stored(v) && Depth(v) <= limit && Ends(rest)
    ensures VariantRequests(Text(v) + rest, limit, found) == Requests(v)
    decreases v, 1
  {
    hide ArrayRequests, ObjectRequests, StringRequests, QuotedFrom, Quoted, Text, Stored, Depth, ElementRequests,
      MemberRequests;
    var s := Text(v) + rest;
    TextStarts(v);
    assert s[0] == Text(v)[0];
    NoSpaces(s, found);
    match v
    case Str(t) => StringRequested(t, rest);
    case Arr(_) => ArrayRequested(v, limit, rest);
    case Obj(_) => ObjectRequested(v, limit, rest);
    case _ =>
  }

  lemma StringRequested(t: string, rest: string)
    ensures Text(Str(t)) + rest != "" && StringRequests(Text(Str(t)) + rest) == [Keep(t)]
  {
    QuotedRead(t, rest);
  }

  lemma {:induction false} ArrayRequested(v: Value, limit: nat, rest: string)
    requires v.Arr? && Stored(v) && Depth(v) <= limit
    ensures Text(v) + rest != "" && ArrayRequests(Text(v) + rest, limit) == ElementRequests(v.elements)
    decreases v, 0
  {
    hide AllElementRequests, ElementsText, DepthOfAll, Skipped;
    var vs := v.elements;
    var s := Text(v) + rest;
    var after := ElementsText(vs) + ("]" + rest);
    assert s[1..] == after;
    if vs == [] {
      NoElements();
      Punctuation(']', rest);
      assert after == "]" + rest;
    } else {
      ElementsStart(vs, "]" + rest);
      NoSpaces(after, true);
      assert Readable(vs, limit - 1, v);
      ElementsRequested(vs, limit - 1, rest, v);
    }
  }

  lemma {:induction false} ElementsRequested(vs: seq<Value>, limit: nat, rest: string, v: Value)
    requires vs != [] && Readable(vs, limit, v)
    ensures AllElementRequests(ElementsText(vs) + ("]" + rest), limit) == ElementRequests(vs)
    decreases v, 0, |vs|
  {
    hide *;
    FirstElement(vs, limit, v);
    FirstElementRequests(vs);
    ElementsNext(vs, 0);
    assert vs[0..] == vs;
    if |vs| == 1 {
      Punctuation(']', rest);
      ValueRead(vs[0], limit, true, Null, "]" + rest);
      ValueRequested(vs[0], limit, true, "]" + rest);
      LastElementRequests(ElementsText(vs) + ("]" + rest), limit, rest);
    } else {
      var tail := ElementsText(vs[1..]) + ("]" + rest);
      Regroups(Text(vs[0]), ",", ElementsText(vs[1..]), "]" + rest);
      Punctuation(',', tail);
      ValueRead(vs[0], limit, true, Null, "," + tail);
      ValueRequested(vs[0], limit, true, "," + tail);
      ElementsRequested(vs[1..], limit, rest, v);
      NextElementRequests(Text(vs[0]) + ("," + tail), limit, tail);
    }
  }

  lemma FirstElementRequests(vs: seq<Value>)
    requires vs != []
    ensures ElementRequests(vs) == [NewSlot] + Requests(vs[0]) + ElementRequests(vs[1..])
    ensures |vs| == 1 ==> ElementRequests(vs) == [NewSlot] + Requests(vs[0])
  {
    hide Requests;
  }

  lemma LastElementRequests(s: string, limit: nat, rest: string)
    requires Variant(s, limit, true, Null).Ok? && Variant(s, limit, true, Null).rest == "]" + rest
    ensures AllElementRequests(s, limit) == [NewSlot] + VariantRequests(s, limit, true)
  {
    hide Variant, VariantRequests, Skipped;
    Punctuation(']', rest);
  }

  lemma NextElementRequests(s: string, limit: nat, tail: string)
    requires Variant(s, limit, true, Null).Ok? && Variant(s, limit, true, Null).rest == "," + tail
    ensures AllElementRequests(s, limit)
      == [NewSlot] + VariantRequests(s, limit, true) + AllElementRequests(tail, limit)
  {
    hide Variant, VariantRequests, Skipped;
    Punctuation(',', tail);
  }

  lemma {:induction false} ObjectRequested(v: Value, limit: nat, rest: string)
    requires v.Obj? && Stored(v) && Depth(v) <= limit
    ensures Text(v) + rest != "" && ObjectRequests(Text(v) + rest, limit) == MemberRequests({}, v.members)
    decreases v, 0
  {
    hide AllMemberRequests, MembersText, DepthOfMembers, Skipped;
    var ms := v.members;
    var s := Text(v) + rest;
    var after := MembersText(ms) + ("}" + rest);
    assert s[1..] == after;
    if ms == [] {
      NoElements();
      Punctuation('}', rest);
      assert after == "}" + rest;
    } else {
      MembersStart(ms, "}" + rest);
      NoSpaces(after, true);
      assert ReadableMembers(ms, limit - 1, v);
      MembersRequested(ms, limit - 1, [], {}, rest, v);
    }
  }

  /** The keys an object has so far. */
  ghost predicate Seen(done: seq<Member>, seen: set<string>)
  {
    forall key :: HasKey(done, key) <==> key in seen
  }

  lemma SeenIndex(done: seq<Member>, seen: set<string>, key: string)
    requires Seen(done, seen)
    ensures IndexOf(done, key) < |done| <==> key in seen
  {
    if IndexOf(done, key) < |done| {
      assert HasKey(done, done[IndexOf(done, key)].key);
    }
    assert HasKey(done, key) <==> key in seen;
  }

  lemma SeenNext(done: seq<Member>, seen: set<string>, m: Member)
    requires Seen(done, seen)
    ensures Seen(Joined(done, m), seen + {UpToNul(m.key)})
  {
    hide Joined, UpToNul, HasKey;
    forall key
      ensures HasKey(Joined(done, m), key) <==> key in seen + {UpToNul(m.key)}
    {
      JoinedBefore(done, m, key);
    }
  }

  lemma {:induction false} MemberRequested(m: Member, limit: nat, done: seq<Member>, seen: set<string>, after: string)
    requires Stored(m.value) && Depth(m.value) <= limit && Ends(after) && Seen(done, seen)
    ensures var s := MemberText(m) + after;
            s != "" && s[0] == '"' && OneMemberRequests(s, limit, done) == KeyRequests(seen, m) + Requests(m.value)
    decreases m.value, 2
  {
    hide VariantRequests, Text, Stored, Depth, QuotedFrom, Quoted, Requests, Seen;
    var text, key := Text(m.value) + after, UpToNul(m.key);
    var s := MemberText(m) + after;
    assert s == Quoted(key) + (":" + text);
    KeyOnce(m.key);
    QuotedRead(key, ":" + text);
    NoSpaces(":" + text, true);
    assert (":" + text)[1..] == text;
    SeenIndex(done, seen, key);
    ValueRequested(m.value, limit, true, after);
  }

  lemma {:induction false} MembersRequested(ms: seq<Member>, limit: nat, done: seq<Member>, seen: set<string>,
                                            rest: string, v: Value)
    requires ms != [] && ReadableMembers(ms, limit, v) && Seen(done, seen)
    ensures var s := MembersText(ms) + ("}" + rest);
            s != "" && s[0] == '"' && AllMemberRequests(s, limit, done) == MemberRequests(seen, ms)
    decreases v, 0, |ms|
  {
    hide *;
    FirstMember(done, ms);
    FirstReadable(ms, limit, v);
    FirstMemberRequests(seen, ms);
    MembersNext(ms, 0);
    assert ms[0..] == ms;
    var joined := Joined(done, ms[0]);
    if |ms| == 1 {
      Punctuation('}', rest);
      MemberRead(ms[0], limit, done, "}" + rest);
      MemberRequested(ms[0], limit, done, seen, "}" + rest);
      LastMemberRequests(MembersText(ms) + ("}" + rest), limit, done, rest);
    } else {
      var tail := MembersText(ms[1..]) + ("}" + rest);
      Regroups(MemberText(ms[0]), ",", MembersText(ms[1..]), "}" + rest);
      Punctuation(',', tail);
      MemberRead(ms[0], limit, done, "," + tail);
      MemberRequested(ms[0], limit, done, seen, "," + tail);
      SeenNext(done, seen, ms[0]);
      MembersRequested(ms[1..], limit, joined, seen + {UpToNul(ms[0].key)}, rest, v);
      NextMemberRequests(MemberText(ms[0]) + ("," + tail), limit, done, joined, tail);
    }
  }

  lemma FirstMemberRequests(seen: set<string>, ms: seq<Member>)
    requires ms != []
    ensures MemberRequests(seen, ms)
      == KeyRequests(seen, ms[0]) + Requests(ms[0].value) + MemberRequests(seen + {UpToNul(ms[0].key)}, ms[1..])
    ensures |ms| == 1 ==> MemberRequests(seen, ms) == KeyRequests(seen, ms[0]) + Requests(ms[0].value)
  {
    hide Requests, KeyRequests, UpToNul;
  }

  lemma LastMemberRequests(s: string, limit: nat, done: seq<Member>, rest: string)
    requires s != "" && s[0] != '\0' && OneMember(s, limit, done).Ok? && OneMember(s, limit, done).rest == "}" + rest
    ensures AllMemberRequests(s, limit, done) == OneMemberRequests(s, limit, done)
  {
    hide OneMember, OneMemberRequests, Skipped;
    Punctuation('}', rest);
  }

  lemma NextMemberRequests(s: string, limit: nat, done: seq<Member>, ms: seq<Member>, tail: string)
    requires s != "" && s[0] != '\0' && OneMember(s, limit, done) == Ok(ms, "," + tail) && tail != "" && tail[0] == '"'
    ensures AllMemberRequests(s, limit, done) == OneMemberRequests(s, limit, done) + AllMemberRequests(tail, limit, ms)
  {
    hide OneMember, OneMemberRequests, Skipped;
    Punctuation(',', tail);
    NoSpaces(tail, true);
  }

  // ----- the round trip through a pool

  /** Any text: memory runs out exactly if the pool has less room than what is asked for needs, behind
      the strings stored already, and otherwise the result is the one of the grammar. */
  lemma AnyTextLoaded(p: Pools.Pool, s: string, limit: nat)
    requires Pools.InRange(p) && !p.overflowed
    ensures Loaded(p, s, limit)
      == if NeedBehind(Zone(p), VariantRequests(s, limit, false)) <= Room(p) then Document(s, limit) else Fail(NoMemory)
  {
    hide VariantRequests, NeedBehind, AllServed, Document;
    RoomExactly(p, VariantRequests(s, limit, false));
  }

  /** Printing a value and parsing it into a pool: what comes back of any value is known, and memory runs
      out exactly if the pool has less room than is asked for. For a value nested no deeper than the
      limit that is the room its strings, keys and slots need, and its footprint is always enough. */
  lemma LoadedExactly(p: Pools.Pool, v: Value, limit: nat)
    requires Pools.InRange(p) && !p.overflowed && Stored(v)
    ensures var asked := VariantRequests(Text(v), limit, false);
            && Loaded(p, Text(v), limit)
               == (if NeedBehind(Zone(p), asked) > Room(p) then Fail(NoMemory)
                   else if Depth(v) <= limit then Ok(Reread(v), "") else Fail(TooDeep))
            && (Depth(v) <= limit ==> asked == Requests(v))
    ensures Depth(v) <= limit && WellKeyed(v) && Footprint(v) <= Room(p) ==>
      Loaded(p, Text(v), limit) == Ok(Normal(v), "")
  {
    hide VariantRequests, Text, Stored, Depth, WellKeyed, Reread, Requests, NeedBehind, Footprint, Document, Loaded;
    AnyTextLoaded(p, Text(v), limit);
    RoundTripExactly(v, limit);
    if Depth(v) <= limit {
      assert Text(v) + "" == Text(v);
      ValueRequested(v, limit, false, "");
      MemoryExactly(p, v);
    }
    KeptExactly(v);
  }
}
