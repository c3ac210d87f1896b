/** The nesting limit of the JSON parser is exact. */
module JsonNesting {
  import opened JsonGrammar
  import opened JsonRoundTrip
  import opened JsonText
  import opened JsonValue
  import opened Memory

  lemma DeepStarts(v: Value, limit: nat)
    requires Depth(v) > limit
    ensures v.Arr? || v.Obj?
    ensures v.Arr? && 0 < limit ==> v.elements != [] && DepthOfAll(v.elements) > limit - 1
    ensures v.Obj? && 0 < limit ==> v.members != [] && DepthOfMembers(v.members) > limit - 1
  {
  }

  lemma Starts(v: Value, rest: string, found: bool)
    requires Stored(v) && (v.Arr? || v.Obj?)
    ensures var s := Text(v) + rest; s != "" && s[0] == (if v.Arr? then '[' else '{') && Skipped(s, found) == Ok((), s)
  {
    hide Text, Stored;
    TextStarts(v);
    NoSpaces(Text(v) + rest, found);
  }

  lemma {:induction false} DeepValue(v: Value, limit: nat, found: bool, before: Value, rest: string)
    requires Stored(v) && Depth(v) > limit
    ensures Variant(Text(v) + rest, limit, found, before) == Fail(TooDeep)
    decreases v, 1
  {
    hide Elements, Members, ElementsText, MembersText, DepthOfAll, DepthOfMembers, Skipped, Numeric, StringValue;
    DeepStarts(v, limit);
    Starts(v, rest, found);
    var s := Text(v) + rest;
    if limit == 0 {
    } else if v.Arr? {
      var after := ElementsText(v.elements) + ("]" + rest);
      assert s[1..] == after;
      ElementsStart(v.elements, "]" + rest);
      NoSpaces(after, true);
      assert ReadableAtAnyDepth(v.elements, v);
      DeepElements(v.elements, limit - 1, [], rest, v);
    } else {
      var after := MembersText(v.members) + ("}" + rest);
      assert s[1..] == after;
      MembersStart(v.members, "}" + rest);
      NoSpaces(after, true);
      assert ReadableMembersAtAnyDepth(v.members, v);
      DeepMembers(v.members, limit - 1, [], rest, v);
    }
  }

  ghost predicate ReadableAtAnyDepth(vs: seq<Value>, v: Value)
  {
    forall k :: 0 <= k < |vs| ==> vs[k] < v && Stored(vs[k])
  }

  lemma FirstOfDeep(vs: seq<Value>, v: Value)
    requires vs != [] && ReadableAtAnyDepth(vs, v)
    ensures vs[0] < v && Stored(vs[0]) && ReadableAtAnyDepth(vs[1..], v)
    ensures DepthOfAll(vs) == if Depth(vs[0]) <= DepthOfAll(vs[1..]) then DepthOfAll(vs[1..]) else Depth(vs[0])
    ensures |vs| == 1 ==> DepthOfAll(vs) == Depth(vs[0])
  {
    hide Stored, Depth;
    assert DepthOfAll([]) == 0;
    if |vs| == 1 {
      assert vs[1..] == [];
    }
  }

  lemma {:induction false} DeepElements(vs: seq<Value>, limit: nat, done: seq<Value>, rest: string, v: Value)
    requires vs != [] && ReadableAtAnyDepth(vs, v) && DepthOfAll(vs) > limit
    ensures Elements(ElementsText(vs) + ("]" + rest), limit, done) == Fail(TooDeep)
    decreases v, 0, |vs|
  {
    hide *;
    FirstOfDeep(vs, v);
    ElementsNext(vs, 0);
    assert vs[0..] == vs;
    var after := if |vs| == 1 then "]" + rest else "," + (ElementsText(vs[1..]) + ("]" + rest));
    Regroups(Text(vs[0]), ",", ElementsText(vs[1..]), "]" + rest);
    if Depth(vs[0]) > limit {
      DeepValue(vs[0], limit, true, Null, after);
      FailsElements(Text(vs[0]) + after, limit, done);
    } else {
      var tail := ElementsText(vs[1..]) + ("]" + rest);
      Punctuation(',', tail);
      ValueRead(vs[0], limit, true, Null, "," + tail);
      NextElement(Text(vs[0]) + ("," + tail), limit, done, Overwritten(Null, vs[0]), tail);
      DeepElements(vs[1..], limit, done + [Overwritten(Null, vs[0])], rest, v);
    }
  }

  lemma FailsElements(s: string, limit: nat, done: seq<Value>)
    requires Variant(s, limit, true, Null) == Fail(TooDeep)
    ensures Elements(s, limit, done) == Fail(TooDeep)
  {
    hide Variant;
  }

  ghost predicate ReadableMembersAtAnyDepth(ms: seq<Member>, v: Value)
  {
    forall k :: 0 <= k < |ms| ==> ms[k].value < v && Stored(ms[k].value)
  }

  lemma FirstOfDeepMembers(ms: seq<Member>, v: Value)
    requires ms != [] && ReadableMembersAtAnyDepth(ms, v)
    ensures ms[0].value < v && Stored(ms[0].value) && ReadableMembersAtAnyDepth(ms[1..], v)
    ensures DepthOfMembers(ms) == if Depth(ms[0].value) <= DepthOfMembers(ms[1..]) then DepthOfMembers(ms[1..])
      else Depth(ms[0].value)
    ensures |ms| == 1 ==> DepthOfMembers(ms) == Depth(ms[0].value)
  {
    hide Stored, Depth;
    assert DepthOfMembers([]) == 0;
    if |ms| == 1 {
      assert ms[1..] == [];
    }
  }

  lemma {:induction false} DeepMember(m: Member, limit: nat, done: seq<Member>, after: string)
    requires Stored(m.value) && Depth(m.value) > limit
    ensures var s := MemberText(m) + after; s != "" && s[0] == '"' && OneMember(s, limit, done) == Fail(TooDeep)
    decreases m.value, 2
  {
    hide Variant, Text, Stored, Depth, QuotedFrom, Quoted, WithMember, Before, Skipped;
    var text := Text(m.value) + after;
    var s := MemberText(m) + after;
    var key := UpToNul(m.key);
    assert s == Quoted(key) + (":" + text);
    KeyOnce(m.key);
    QuotedRead(key, ":" + text);
    Punctuation(':', text);
    DeepValue(m.value, limit, true, Before(done, key), after);
  }

  lemma {:induction false} DeepMembers(ms: seq<Member>, limit: nat, done: seq<Member>, rest: string, v: Value)
    requires ms != [] && ReadableMembersAtAnyDepth(ms, v) && DepthOfMembers(ms) > limit
    ensures var s := MembersText(ms) + ("}" + rest);
            s != "" && s[0] == '"' && Members(s, limit, done) == Fail(TooDeep)
    decreases v, 0, |ms|
  {
    hide *;
    FirstOfDeepMembers(ms, v);
    FirstMember(done, ms);
    MembersNext(ms, 0);
    assert ms[0..] == ms;
    var after := if |ms| == 1 then "}" + rest else "," + (MembersText(ms[1..]) + ("}" + rest));
    Regroups(MemberText(ms[0]), ",", MembersText(ms[1..]), "}" + rest);
    if Depth(ms[0].value) > limit {
      DeepMember(ms[0], limit, done, after);
      FailsMembers(MemberText(ms[0]) + after, limit, done);
    } else {
      var tail := MembersText(ms[1..]) + ("}" + rest);
      var joined := Joined(done, ms[0]);
      Punctuation(',', tail);
      MemberRead(ms[0], limit, done, "," + tail);
      DeepMembers(ms[1..], limit, joined, rest, v);
      NextMember(MemberText(ms[0]) + ("," + tail), limit, done, joined, tail);
    }
  }

  lemma FailsMembers(s: string, limit: nat, done: seq<Member>)
    requires s != "" && s[0] != '\0' && OneMember(s, limit, done) == Fail(TooDeep)
    ensures Members(s, limit, done) == Fail(TooDeep)
  {
    hide OneMember;
  }

  /** What comes back from the text of any value: what is left of it when keys end at NULs and
      repeated ones collapse, or that it nests too deep. Exactly the values whose objects have distinct
      keys without NULs, and that nest no deeper than the limit, come back equal. */
  lemma RoundTripExactly(v: Value, limit: nat)
    requires Stored(v)
    ensures Document(Text(v), limit) == if Depth(v) <= limit then Ok(Reread(v), "") else Fail(TooDeep)
    ensures Document(Text(v), limit) == Ok(Normal(v), "") <==> Depth(v) <= limit && WellKeyed(v)
  {
    hide Variant, Text, Stored, WellKeyed, Depth;
    KeptExactly(v);
    if Depth(v) <= limit {
      TextRead(v, limit);
    } else {
      DeepValue(v, limit, false, Null, "");
      assert Text(v) + "" == Text(v);
    }
  }
}
