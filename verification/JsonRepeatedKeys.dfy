/** What is left of an object when keys end at NULs and repeated ones collapse. */
module JsonRepeatedKeys {
  import opened JsonGrammar
  import opened JsonNesting
  import opened JsonRoundTrip
  import opened JsonText
  import opened JsonValue
  import opened Memory

  ghost predicate HasKey(ms: seq<Member>, key: string)
  {
    exists k :: 0 <= k < |ms| && ms[k].key == key
  }

  /** A member that gives its key a value: a null gives it none. */
  predicate Gives(m: Member, key: string)
  {
    UpToNul(m.key) == key && !m.value.Null?
  }

  ghost predicate LastGiver(ms: seq<Member>, k: nat, key: string)
  {
    k < |ms| && Gives(ms[k], key) && forall l :: k < l < |ms| ==> !Gives(ms[l], key)
  }

  lemma JoinedBefore(done: seq<Member>, m: Member, key: string)
    ensures Before(Joined(done, m), key) == if Gives(m, key) then Reread(m.value) else Before(done, key)
    ensures HasKey(Joined(done, m), key) <==> HasKey(done, key) || UpToNul(m.key) == key
  {
    hide UpToNul, Reread;
    var part, v := UpToNul(m.key), Overwritten(Before(done, UpToNul(m.key)), m.value);
    var i, all := IndexOf(done, part), Joined(done, m);
    assert all[i] == Member(part, v);
    forall k | 0 <= k < |done| && k != i
      ensures all[k] == done[k]
    {
    }
    if HasKey(done, key) {
      var k :| 0 <= k < |done| && done[k].key == key;
      assert all[k].key == key;
    }
    if part != key {
      SameIndex(done, all, key);
    } else {
      IndexIs(all, key, i);
    }
  }

  lemma IndexIs(ms: seq<Member>, key: string, i: nat)
    requires i < |ms| && ms[i].key == key && forall k :: 0 <= k < i ==> ms[k].key != key
    ensures IndexOf(ms, key) == i
  {
  }

  lemma SameIndex(done: seq<Member>, all: seq<Member>, key: string)
    requires |done| <= |all| && forall k :: 0 <= k < |done| ==>
      all[k] == done[k] || (all[k].key != key && done[k].key != key)
    requires forall k :: |done| <= k < |all| ==> all[k].key != key
    ensures Before(all, key) == Before(done, key)
  {
    if IndexOf(done, key) < |done| {
      IndexIs(all, key, IndexOf(done, key));
    }
  }

  /** Of the members under one key the last that is not null gives the value, and the key is there
      if any member has it. */
  lemma {:induction false} LastWins(done: seq<Member>, ms: seq<Member>, key: string)
    ensures var all := RereadMembers(done, ms);
            && (forall k: nat :: LastGiver(ms, k, key) ==> Before(all, key) == Reread(ms[k].value))
            && ((forall k :: 0 <= k < |ms| ==> !Gives(ms[k], key)) ==> Before(all, key) == Before(done, key))
            && (HasKey(all, key) <==> HasKey(done, key) || exists k :: 0 <= k < |ms| && UpToNul(ms[k].key) == key)
    decreases |ms|
  {
    hide UpToNul, Reread, Joined, Before, HasKey, Gives;
    if ms != [] {
      JoinedBefore(done, ms[0], key);
      LastWins(Joined(done, ms[0]), ms[1..], key);
      forall k: nat | LastGiver(ms, k, key)
        ensures Before(RereadMembers(done, ms), key) == Reread(ms[k].value)
      {
        if k == 0 {
          assert forall l :: 0 <= l < |ms[1..]| ==> ms[1..][l] == ms[l + 1];
        } else {
          assert LastGiver(ms[1..], k - 1, key);
        }
      }
      assert forall k :: 0 < k < |ms| ==> ms[k] == ms[1..][k - 1];
    }
  }

  lemma JoinedKeysOk(done: seq<Member>, m: Member)
    requires KeysOk(done)
    ensures KeysOk(Joined(done, m))
  {
    hide UpToNul, Reread;
  }

  // ----- what was read once comes back equal

  ghost predicate Settled(v: Value, depth: nat)
  {
    Stored(v) && WellKeyed(v) && Normal(v) == v && Depth(v) <= depth
  }

  ghost predicate AllSettled(vs: seq<Value>, depth: nat)
  {
    forall k :: 0 <= k < |vs| ==> Settled(vs[k], depth)
  }

  ghost predicate MembersSettled(ms: seq<Member>, depth: nat)
  {
    KeysOk(ms) && forall k :: 0 <= k < |ms| ==> Settled(ms[k].value, depth)
  }

  lemma NullSettled(depth: nat)
    ensures Settled(Null, depth)
  {
  }

  lemma JoinedSettled(done: seq<Member>, m: Member, depth: nat)
    requires MembersSettled(done, depth) && Settled(Reread(m.value), depth)
    ensures MembersSettled(Joined(done, m), depth)
  {
    hide UpToNul, Reread, Settled, KeysOk;
    JoinedKeysOk(done, m);
    NullSettled(depth);
  }

  lemma {:induction false} ArraySettled(vs: seq<Value>, depth: nat)
    requires AllSettled(vs, depth)
    ensures DepthOfAll(vs) <= depth && NormalAll(vs) == vs
    decreases |vs|
  {
    hide Depth, Normal, Stored, WellKeyed;
    if vs != [] {
      assert Settled(vs[0], depth);
      ArraySettled(vs[1..], depth);
    }
  }

  lemma {:induction false} ObjectSettled(ms: seq<Member>, depth: nat)
    requires forall k :: 0 <= k < |ms| ==> Settled(ms[k].value, depth)
    ensures DepthOfMembers(ms) <= depth && NormalMembers(ms) == ms
    decreases |ms|
  {
    hide Depth, Normal, Stored, WellKeyed;
    if ms != [] {
      assert Settled(ms[0].value, depth);
      ObjectSettled(ms[1..], depth);
    }
  }

  lemma {:induction false} ElementsSettled(vs: seq<Value>, depth: nat)
    requires forall k :: 0 <= k < |vs| ==> Settled(Reread(vs[k]), depth)
    ensures AllSettled(RereadAll(vs), depth)
    decreases |vs|
  {
    hide Settled, Reread;
    if vs != [] {
      ElementsSettled(vs[1..], depth);
    }
  }

  lemma {:induction false} RestSettled(done: seq<Member>, ms: seq<Member>, depth: nat)
    requires MembersSettled(done, depth) && forall k :: 0 <= k < |ms| ==> Settled(Reread(ms[k].value), depth)
    ensures MembersSettled(RereadMembers(done, ms), depth)
    decreases |ms|
  {
    hide MembersSettled, Settled, Reread, Joined;
    if ms != [] {
      JoinedSettled(done, ms[0], depth);
      RestSettled(Joined(done, ms[0]), ms[1..], depth);
    }
  }

  /** What is read is always well keyed, and nests no deeper than what was written. */
  lemma {:induction false} RereadSettles(v: Value)
    requires Stored(v)
    ensures Settled(Reread(v), Depth(v))
    decreases v
  {
    match v
    case Arr(vs) =>
      forall k | 0 <= k < |vs|
        ensures Settled(Reread(vs[k]), DepthOfAll(vs))
      {
        RereadSettles(vs[k]);
      }
      ElementsSettled(vs, DepthOfAll(vs));
      ArraySettled(RereadAll(vs), DepthOfAll(vs));
    case Obj(ms) =>
      forall k | 0 <= k < |ms|
        ensures Settled(Reread(ms[k].value), DepthOfMembers(ms))
      {
        RereadSettles(ms[k].value);
      }
      RestSettled([], ms, DepthOfMembers(ms));
      ObjectSettled(RereadMembers([], ms), DepthOfMembers(ms));
    case _ =>
  }

  /** Printing and parsing settles after one turn: what was read is printed and read back equal. */
  lemma SecondRoundTrip(v: Value, limit: nat)
    requires Stored(v) && Depth(v) <= limit
    ensures Document(Text(v), limit) == Ok(Reread(v), "") && Document(Text(Reread(v)), limit) == Ok(Reread(v), "")
  {
    hide Document, Reread, Text, Depth, Stored, WellKeyed, Normal;
    RereadSettles(v);
    RoundTripExactly(v, limit);
    RoundTripExactly(Reread(v), limit);
  }

  /** A key ends at its first NUL: the object is read, but not equal. */
  lemma NulKeyIsCut()
    ensures var v := Obj([Member(['a', '\0', 'b'], Unsigned(1))]);
            Document(Text(v), 1) == Ok(Obj([Member("a", Unsigned(1))]), "") && !WellKeyed(v)
  {
    hide Document, Text;
    var m := Member(['a', '\0', 'b'], Unsigned(1));
    RoundTripExactly(Obj([m]), 1);
    NulEndsKey();
    assert Joined([], m) == [Member("a", Unsigned(1))];
    assert RereadMembers([], [m]) == RereadMembers(Joined([], m), []);
    assert DepthOfMembers([]) == 0;
  }

  lemma NulEndsKey()
    ensures UpToNul(['a', '\0', 'b']) == "a"
  {
    assert UpToNul(['\0', 'b']) == "" && ['a', '\0', 'b'][1..] == ['\0', 'b'];
  }

  /** A second member under one key takes the slot, unless it is null. */
  lemma RepeatedKeyCollapses(key: string, v: Value, w: Value)
    ensures Reread(Obj([Member(key, v), Member(key, w)])) == Obj([Member(UpToNul(key), Overwritten(Reread(v), w))])
  {
    hide UpToNul;
    var m, n, k := Member(key, v), Member(key, w), UpToNul(key);
    NullKept(v);
    assert Joined([], m) == [Member(k, Reread(v))];
    assert Joined([Member(k, Reread(v))], n) == [Member(k, Overwritten(Reread(v), w))];
    assert [m, n][1..] == [n];
    assert RereadMembers([], [m, n]) == RereadMembers(Joined([], m), [n]);
    assert RereadMembers(Joined([], m), [n]) == RereadMembers(Joined(Joined([], m), n), []);
  }
}
