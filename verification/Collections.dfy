/** Arrays and objects of a JSON document as linked lists of slots in a memory pool (CollectionData in
    pagers-server/json/ArduinoJson.h). A link is the distance between two slots, so that a list is
    walked towards lower addresses, that is, towards slots handed out later. */
module Collections {
  import opened Memory
  import opened Pools = MemoryPool

  datatype List = List(head: Option<nat>, tail: Option<nat>)

  /** Links are 16-bit numbers. */
  predicate LinkFits(d: int)
  {
    -0x8000 <= d <= 0x7FFF
  }

  predicate Increasing(ms: seq<nat>)
  {
    forall i, j :: 0 <= i < j < |ms| ==> ms[i] < ms[j]
  }

  /** The link of the i-th member: the distance to the next one, or 0 at the end. */
  function Link(ms: seq<nat>, i: nat): int
    requires i < |ms|
  {
    if i + 1 < |ms| then ms[i] as int - ms[i + 1] as int else 0
  }

  /** The list consists of these slots: it starts at the first, ends at the last, and every link
      leads from one to the next. The members increase, so no list is cyclic. */
  ghost predicate Linked(slots: seq<Slot>, l: List, ms: seq<nat>)
  {
    && Increasing(ms) && (forall i :: 0 <= i < |ms| ==> ms[i] < |slots| && slots[ms[i]].next == Link(ms, i))
    && l.head == (if ms == [] then None else Some(ms[0]))
    && l.tail == (if ms == [] then None else Some(ms[|ms| - 1]))
  }

  predicate Followable(slots: seq<Slot>, k: nat)
  {
    k < |slots| && 0 <= k - slots[k].next
  }

  function NextOf(slots: seq<Slot>, k: nat): Option<nat>
    requires Followable(slots, k)
  {
    if slots[k].next == 0 then None else Some(k - slots[k].next)
  }

  lemma NextIs(slots: seq<Slot>, l: List, ms: seq<nat>, i: nat)
    requires Linked(slots, l, ms) && i < |ms|
    ensures Followable(slots, ms[i]) && NextOf(slots, ms[i]) == if i + 1 < |ms| then Some(ms[i + 1]) else None
  {
    assert slots[ms[i]].next == Link(ms, i);
  }

  // ----- adding

  /** The slots and the list once the newest slot has been appended. */
  function Appended(slots: seq<Slot>, l: List): (seq<Slot>, List)
    requires slots != [] && (l.tail.Some? ==> l.tail.value < |slots|)
  {
    var k := |slots| - 1;
    if l.tail.Some? then
      (slots[l.tail.value := slots[l.tail.value].(next := l.tail.value - k)][k := CLEARED], List(l.head, Some(k)))
    else
      (slots[k := CLEARED], List(Some(k), Some(k)))
  }

  lemma AppendRefines(slots: seq<Slot>, l: List, ms: seq<nat>, before: Slot)
    requires Linked(slots, l, ms)
    ensures l.tail.Some? ==> l.tail.value < |slots|
    ensures var (s, m) := Appended(slots + [before], l); Linked(s, m, ms + [|slots|])
  {
    var (s, ns) := (Appended(slots + [before], l).0, ms + [|slots|]);
    forall i | 0 <= i < |ns|
      ensures ns[i] < |s| && s[ns[i]].next == Link(ns, i)
    {
      AppendedLink(slots, l, ms, before, i);
    }
  }

  lemma AppendedLink(slots: seq<Slot>, l: List, ms: seq<nat>, before: Slot, i: nat)
    requires Linked(slots, l, ms) && i <= |ms| && (l.tail.Some? ==> l.tail.value < |slots|)
    ensures var (s, ns) := (Appended(slots + [before], l).0, ms + [|slots|]);
            ns[i] < |s| && s[ns[i]].next == Link(ns, i)
  {
    if i < |ms| {
      assert ms[i] < |slots| && slots[ms[i]].next == Link(ms, i);
      assert i + 1 < |ms| ==> ms[i] < ms[|ms| - 1];
    }
  }

  /** With at most 2^15 slots in a pool every link fits in 16 bits. */
  lemma LinksFit(slots: seq<Slot>, l: List, ms: seq<nat>, i: nat)
    requires Linked(slots, l, ms) && |slots| <= SLOT_MAX && i < |ms|
    ensures LinkFits(slots[ms[i]].next)
  {
    assert slots[ms[i]].next == Link(ms, i);
  }

  // ----- removing

  function Without<T>(ms: seq<T>, i: nat): seq<T>
    requires i < |ms|
  {
    ms[..i] + ms[i + 1..]
  }

  /** The slots and the list without slot k, given the slot before it. */
  function Unlinked(slots: seq<Slot>, l: List, prev: Option<nat>, k: nat): (seq<Slot>, List)
    requires Followable(slots, k) && (prev.Some? ==> prev.value < |slots|)
  {
    var next := NextOf(slots, k);
    var m := List(if prev.Some? then l.head else next, if next.None? then prev else l.tail);
    if prev.Some? then
      (slots[prev.value := slots[prev.value].(next := if next.Some? then prev.value - next.value else 0)], m)
    else (slots, m)
  }

  /** The member before the i-th. */
  function Before(ms: seq<nat>, i: nat): Option<nat>
    requires i < |ms|
  {
    if i == 0 then None else Some(ms[i - 1])
  }

  lemma WithoutAt<T>(ms: seq<T>, i: nat, j: nat)
    requires i < |ms| && j < |ms| - 1
    ensures |Without(ms, i)| == |ms| - 1 && Without(ms, i)[j] == ms[if j < i then j else j + 1]
  {
  }

  lemma WithoutIncreases(ms: seq<nat>, i: nat)
    requires Increasing(ms) && i < |ms|
    ensures Increasing(Without(ms, i))
  {
    var ns := Without(ms, i);
    forall j, k | 0 <= j < k < |ns|
      ensures ns[j] < ns[k]
    {
      WithoutAt(ms, i, j);
      WithoutAt(ms, i, k);
    }
  }

  lemma LinkAt(slots: seq<Slot>, l: List, ms: seq<nat>, i: nat, j: nat)
    requires Linked(slots, l, ms) && i < |ms| && j < |ms|
    ensures ms[i] < |slots| && slots[ms[i]].next == Link(ms, i) && (i != j ==> ms[i] != ms[j])
  {
  }

  lemma UnlinkLinks(slots: seq<Slot>, l: List, ms: seq<nat>, i: nat, j: nat)
    requires Linked(slots, l, ms) && i < |ms| && j < |ms| - 1
    requires Followable(slots, ms[i]) && (i != 0 ==> ms[i - 1] < |slots|)
    ensures var (s, ns) := (Unlinked(slots, l, Before(ms, i), ms[i]).0, Without(ms, i));
            ns[j] < |s| && s[ns[j]].next == Link(ns, j)
  {
    hide Followable, Linked, Without, NextOf;
    var ns := Without(ms, i);
    NextIs(slots, l, ms, i);
    WithoutAt(ms, i, j);
    if j + 1 < |ns| {
      WithoutAt(ms, i, j + 1);
    }
    LinkAt(slots, l, ms, if j < i then j else j + 1, if i == 0 then 0 else i - 1);
  }

  lemma UnlinkEnds(slots: seq<Slot>, l: List, ms: seq<nat>, i: nat)
    requires Linked(slots, l, ms) && i < |ms|
    requires Followable(slots, ms[i]) && (i != 0 ==> ms[i - 1] < |slots|)
    ensures var (m, ns) := (Unlinked(slots, l, Before(ms, i), ms[i]).1, Without(ms, i));
            && |ns| == |ms| - 1 && m.head == (if ns == [] then None else Some(ns[0]))
            && m.tail == (if ns == [] then None else Some(ns[|ns| - 1]))
  {
    hide Followable, Increasing, Link;
    NextIs(slots, l, ms, i);
    if |ms| > 1 {
      WithoutAt(ms, i, 0);
      WithoutAt(ms, i, |ms| - 2);
    }
  }

  lemma UnlinkRefines(slots: seq<Slot>, l: List, ms: seq<nat>, i: nat)
    requires Linked(slots, l, ms) && i < |ms|
    ensures Followable(slots, ms[i]) && (i != 0 ==> ms[i - 1] < |slots|)
    ensures var (s, m) := Unlinked(slots, l, Before(ms, i), ms[i]); Linked(s, m, Without(ms, i))
  {
    hide Followable, Increasing, Without, Unlinked, Link;
    NextIs(slots, l, ms, i);
    WithoutIncreases(ms, i);
    UnlinkEnds(slots, l, ms, i);
    var (s, m) := Unlinked(slots, l, Before(ms, i), ms[i]);
    var ns := Without(ms, i);
    forall j | 0 <= j < |ns|
      ensures ns[j] < |s| && s[ns[j]].next == Link(ns, j)
    {
      UnlinkLinks(slots, l, ms, i, j);
    }
  }

  // ----- other lists and what the members hold

  predicate Disjoint(ms: seq<nat>, ns: seq<nat>)
  {
    forall i, j :: 0 <= i < |ms| && 0 <= j < |ns| ==> ms[i] != ns[j]
  }

  /** Of the slots there were, only these may have changed. */
  ghost predicate OnlyChanged(slots: seq<Slot>, s: seq<Slot>, ms: seq<nat>)
  {
    |slots| <= |s| && forall k :: 0 <= k < |slots| && k !in ms ==> s[k] == slots[k]
  }

  /** An operation on one list leaves every list with other members as it was. */
  lemma OthersKept(slots: seq<Slot>, s: seq<Slot>, ms: seq<nat>, other: List, ns: seq<nat>)
    requires OnlyChanged(slots, s, ms) && Linked(slots, other, ns) && Disjoint(ms, ns)
    ensures Linked(s, other, ns) && Entries(s, ns) == Entries(slots, ns)
  {
    forall j | 0 <= j < |ns|
      ensures ns[j] < |slots| && s[ns[j]] == slots[ns[j]] && s[ns[j]].next == Link(ns, j)
    {
      assert slots[ns[j]].next == Link(ns, j);
      assert ns[j] !in ms;
    }
  }

  /** A slot as its users see it: without the link. */
  datatype Entry = Entry(key: Option<nat>, content: nat)

  function EntryOf(slot: Slot): Entry
  {
    Entry(slot.key, slot.content)
  }

  /** What a list holds, from head to tail. */
  ghost function Entries(slots: seq<Slot>, ms: seq<nat>): (es: seq<Entry>)
    requires forall i :: 0 <= i < |ms| ==> ms[i] < |slots|
    ensures |es| == |ms| && forall i :: 0 <= i < |ms| ==> es[i] == EntryOf(slots[ms[i]])
  {
    seq(|ms|, i requires 0 <= i < |ms| => EntryOf(slots[ms[i]]))
  }

  lemma AppendEntries(slots: seq<Slot>, l: List, ms: seq<nat>, before: Slot)
    requires Linked(slots, l, ms)
    ensures l.tail.Some? ==> l.tail.value < |slots|
    ensures var (s, m) := Appended(slots + [before], l);
            && Linked(s, m, ms + [|slots|]) && OnlyChanged(slots, s, ms)
            && Entries(s, ms + [|slots|]) == Entries(slots, ms) + [Entry(None, 0)]
  {
    AppendRefines(slots, l, ms, before);
    if ms != [] {
      assert ms[|ms| - 1] in ms;
    }
  }

  lemma UnlinkEntries(slots: seq<Slot>, l: List, ms: seq<nat>, i: nat)
    requires Linked(slots, l, ms) && i < |ms|
    ensures Followable(slots, ms[i]) && (i != 0 ==> ms[i - 1] < |slots|)
    ensures var (s, m) := Unlinked(slots, l, Before(ms, i), ms[i]);
            && Linked(s, m, Without(ms, i)) && OnlyChanged(slots, s, ms) && |s| == |slots|
            && Entries(s, Without(ms, i)) == Without(Entries(slots, ms), i)
  {
    hide Followable, Increasing, Without;
    UnlinkRefines(slots, l, ms, i);
    var (s, m) := Unlinked(slots, l, Before(ms, i), ms[i]);
    if i != 0 {
      assert ms[i - 1] in ms;
    }
    assert forall k :: 0 <= k < |slots| ==> EntryOf(s[k]) == EntryOf(slots[k]);
    WithoutEntries(slots, s, ms, i);
  }

  lemma WithoutEntries(slots: seq<Slot>, s: seq<Slot>, ms: seq<nat>, i: nat)
    requires i < |ms| && |s| == |slots| && forall k :: 0 <= k < |slots| ==> EntryOf(s[k]) == EntryOf(slots[k])
    requires forall j :: 0 <= j < |ms| ==> ms[j] < |slots|
    ensures forall j :: 0 <= j < |Without(ms, i)| ==> Without(ms, i)[j] < |s|
    ensures Entries(s, Without(ms, i)) == Without(Entries(slots, ms), i)
  {
  }

  // ----- keys

  /** The key at an address: up to the first NUL. */
  function KeyText(p: Pool, a: nat): string
    requires InRange(p) && a < p.left
  {
    p.memory[a..NulAfter(p, a)]
  }

  /** What a stored key reads back as. */
  lemma {:induction false} KeyReadsBack(p: Pool, a: nat, key: string)
    requires InRange(p) && Stored(p, a, key)
    ensures KeyText(p, a) == UpToNul(key)
    decreases |key|
  {
    assert p.memory[a..a + |key|] == key;
    if key != "" && key[0] != '\0' {
      assert p.memory[a] == p.memory[a..a + |key|][0];
      assert p.memory[a + 1..a + |key|] == key[1..];
      KeyReadsBack(p, a + 1, key[1..]);
      assert p.memory[a..NulAfter(p, a)] == [p.memory[a]] + p.memory[a + 1..NulAfter(p, a + 1)];
    } else {
      assert key != "" ==> p.memory[a] == p.memory[a..a + |key|][0];
    }
  }

  lemma KeyStays(p: Pool, q: Pool, a: nat)
    requires InRange(p) && InRange(q) && StringsKept(p, q) && a < p.left
    ensures KeyText(q, a) == KeyText(p, a)
  {
    SamePrefix(p, q);
    NulSame(p, q, a);
    assert p.memory[a..NulAfter(p, a)] == q.memory[a..NulAfter(p, a)];
  }

  /** Every entry has a key among the stored strings. */
  ghost predicate Keyed(p: Pool, es: seq<Entry>)
  {
    forall i :: 0 <= i < |es| ==> es[i].key.Some? && es[i].key.value < p.left
  }

  ghost function Keys(p: Pool, es: seq<Entry>): seq<string>
    requires InRange(p) && Keyed(p, es)
  {
    seq(|es|, i requires 0 <= i < |es| => KeyText(p, es[i].key.value))
  }

  ghost predicate Distinct<T>(s: seq<T>)
  {
    forall i, j :: 0 <= i < j < |s| ==> s[i] != s[j]
  }

  lemma KeysStay(p: Pool, q: Pool, es: seq<Entry>)
    requires InRange(p) && InRange(q) && StringsKept(p, q) && Keyed(p, es)
    ensures Keyed(q, es) && Keys(q, es) == Keys(p, es)
  {
    forall i | 0 <= i < |es|
      ensures KeyText(q, es[i].key.value) == KeyText(p, es[i].key.value)
    {
      KeyStays(p, q, es[i].key.value);
    }
  }

  // ----- the class

  class CollectionData {
    const pool: MemoryPool
    var head: Option<nat>
    var tail: Option<nat>
    ghost var members: seq<nat>

    constructor (pool: MemoryPool)
      requires pool.Valid()
      ensures Valid() && members == [] && this.pool == pool
    {
      this.pool, head, tail, members := pool, None, None, [];
    }

    ghost predicate Valid()
      reads this, pool, pool.memory, pool.slots
    {
      pool.Valid() && Linked(pool.State().slots, State(), members)
    }

    ghost function State(): List
      reads this
    {
      List(head, tail)
    }

    ghost function Contents(): seq<Entry>
      requires Valid()
      reads this, pool, pool.memory, pool.slots
    {
      Entries(pool.State().slots, members)
    }

    /** A list all of whose members have keys, no two of them the same. */
    ghost predicate IsObject()
      reads this, pool, pool.memory, pool.slots
    {
      Valid() && Keyed(pool.State(), Contents()) && Distinct(Keys(pool.State(), Contents()))
    }

    ghost function MemberKeys(): seq<string>
      requires IsObject()
      reads this, pool, pool.memory, pool.slots
    {
      Keys(pool.State(), Contents())
    }

    method NextSlot(k: nat) returns (r: Option<nat>)
      requires pool.Valid() && Followable(pool.State().slots, k)
      ensures r == NextOf(pool.State().slots, k)
    {
      r := if pool.slots[k].next != 0 then Some(k - pool.slots[k].next) else None;
    }

    /** Writes a link; the distance fits in 16 bits. */
    method SetNext(k: nat, next: Option<nat>)
      requires pool.Valid() && k < pool.count && (next.Some? ==> next.value < pool.count)
      modifies pool.slots
      ensures pool.Valid() && LinkFits(pool.slots[k].next)
      ensures var link := if next.Some? then k - next.value else 0;
              pool.State().slots == old(pool.State().slots)[k := old(pool.slots[k]).(next := link)]
      ensures pool.State() == old(pool.State()).(slots := pool.State().slots)
    {
      SlotsBounded(pool.State());
      pool.slots[k] := pool.slots[k].(next := if next.Some? then k - next.value else 0);
    }

    /** Appends a new slot, or changes nothing if the pool has no room for one. */
    method AddSlot() returns (r: Option<nat>)
      requires Valid()
      modifies this, pool`count, pool`overflowed, pool.slots
      ensures Valid() && r.Some? == CanAlloc(old(pool.State()), SLOT_SIZE)
      ensures r.None? ==> members == old(members) && State() == old(State())
      ensures r.None? ==> pool.State() == old(pool.State()).(overflowed := true)
      ensures r.Some? ==> members == old(members) + [r.value] && Contents() == old(Contents()) + [Entry(None, 0)]
      ensures r.Some? ==> r.value == |old(pool.State()).slots| && pool.State().slots[r.value] == CLEARED
      ensures r.Some? ==> State() == List(if old(head).Some? then old(head) else r, r)
      ensures r.Some? ==> pool.State() == old(pool.State()).(slots := pool.State().slots)
      ensures r.Some? ==> |pool.State().slots| == |old(pool.State()).slots| + 1
      ensures OnlyChanged(old(pool.State()).slots, pool.State().slots, old(members))
    {
      hide InRange, Entries, Linked, OnlyChanged;
      ghost var slots, l := pool.State().slots, State();
      r := pool.AllocVariant();
      if r.None? {
        Unchanged(slots, members);
        return;
      }
      ghost var before := pool.slots[r.value];
      AppendEntries(slots, l, members, before);
      if tail.Some? {
        SetNext(tail.value, r);
        tail := r;
      } else {
        head := r;
        tail := r;
      }
      ClearSlot(r.value);
      members := members + [r.value];
      HeadWithTail(slots, l, old(members));
      assert (pool.State().slots, State()) == Appended(slots + [before], l);
    }

    method ClearSlot(k: nat)
      requires pool.Valid() && k < pool.count
      modifies pool.slots
      ensures pool.Valid() && pool.State() == old(pool.State()).(slots := old(pool.State().slots)[k := CLEARED])
    {
      pool.slots[k] := CLEARED;
    }

    /** The slot before target, found by walking from the head. */
    method GetPreviousSlot(target: nat, ghost i: nat) returns (r: Option<nat>)
      requires Valid() && i < |members| && members[i] == target
      ensures r == Before(members, i)
    {
      hide InRange, Linked, Followable, NextOf;
      HeadIsFirst(pool.State().slots, State(), members);
      var current := head;
      ghost var j := 0;
      while current.Some?
        invariant j <= |members| && current == (if j < |members| then Some(members[j]) else None)
        invariant i == 0 || j < i
        decreases |members| - j
      {
        NextIs(pool.State().slots, State(), members, j);
        MembersDiffer(pool.State().slots, State(), members, i, j + 1);
        var next := NextSlot(current.value);
        if next == Some(target) {
          return current;
        }
        current := next;
        j := j + 1;
      }
      return None;
    }

    /** Takes a slot out of the list; its memory is not given back. */
    method RemoveSlot(slot: nat, ghost i: nat)
      requires Valid() && i < |members| && members[i] == slot
      modifies this, pool.slots
      ensures Valid() && members == Without(old(members), i) && Contents() == Without(old(Contents()), i)
      ensures State() == Unlinked(old(pool.State()).slots, old(State()), Before(old(members), i), slot).1
      ensures pool.State() == old(pool.State()).(slots := pool.State().slots)
        && |pool.State().slots| == |old(pool.State()).slots|
      ensures OnlyChanged(old(pool.State()).slots, pool.State().slots, old(members))
    {
      hide InRange, Entries, Linked, OnlyChanged;
      ghost var slots, l := pool.State().slots, State();
      UnlinkEntries(slots, l, members, i);
      var prev := GetPreviousSlot(slot, i);
      var next := NextSlot(slot);
      NextInRange(slots, l, members, i);
      if prev.Some? {
        SetNext(prev.value, next);
      } else {
        head := next;
      }
      if next.None? {
        tail := prev;
      }
      members := Without(members, i);
      assert (pool.State().slots, State()) == Unlinked(slots, l, prev, slot);
    }

    /** Appends a member under a copy of the key. If the pool has no room for the slot or for the copy,
        the list and what it holds stay as they were. */
    method AddMember(key: string) returns (r: Option<nat>)
      requires Valid()
      modifies this, pool, pool.memory, pool.slots
      ensures Valid() && StringsKept(old(pool.State()), pool.State())
      ensures OnlyChanged(old(pool.State()).slots, pool.State().slots, old(members))
      ensures r.Some? == RoomForMember(old(pool.State()), key)
      ensures r.None? ==> State() == old(State()) && members == old(members) && Contents() == old(Contents())
      ensures r.None? ==> pool.overflowed
      ensures r.Some? ==> members == old(members) + [r.value] && r.value == |old(pool.State()).slots|
      ensures r.Some? ==>
        exists a :: Stored(pool.State(), a, key) && Contents() == old(Contents()) + [Entry(Some(a), 0)]
    {
      hide InRange, Entries, Linked, OnlyChanged, Saved, Stored;
      ghost var p, l, ms, es := pool.State(), State(), members, Contents();
      KeptItself(p);
      var slot := AddSlot();
      ghost var q := pool.State();
      if slot.None? {
        return None;
      }
      var copy := pool.SaveString(key);
      RoomBehindSlot(p, q, key);
      NextExtends(q, Save(key));
      SaveReturns(q, Save(key));
      assert pool.State().slots == q.slots && Contents() == es + [Entry(None, 0)];
      ChangesCompose(p.slots, q.slots, q.slots, ms);
      if copy.None? {
        AppendUndone(p.slots, l, ms, q.slots, State());
        WithoutLast(ms, slot.value);
        WithoutLast(es, Entry(None, 0));
        RemoveSlot(slot.value, |ms|);
        ChangesCompose(p.slots, q.slots, pool.State().slots, ms);
        return None;
      }
      ghost var saved := pool.State();
      SetKey(slot.value, copy.value, |ms|);
      ChangesCompose(p.slots, q.slots, pool.State().slots, ms);
      StoredElsewhere(saved, pool.State(), copy.value, key);
      assert Contents() == es + [Entry(Some(copy.value), 0)];
      return slot;
    }

    method SetKey(k: nat, key: nat, ghost i: nat)
      requires Valid() && i < |members| && members[i] == k
      modifies pool.slots
      ensures Valid() && pool.State() == old(pool.State()).(slots := pool.State().slots)
      ensures Contents() == old(Contents())[i := Entry(Some(key), old(Contents())[i].content)]
      ensures OnlyChanged(old(pool.State()).slots, pool.State().slots, members)
      ensures |pool.State().slots| == |old(pool.State()).slots|
    {
      hide Entries, Linked, OnlyChanged;
      ghost var slots := pool.State().slots;
      KeySet(slots, State(), members, i, key);
      pool.slots[k] := pool.slots[k].(key := Some(key));
      assert pool.State().slots == slots[k := slots[k].(key := Some(key))];
    }

    // ----- objects

    method KeyIs(k: nat, key: string) returns (b: bool)
      requires pool.Valid() && k < pool.count && pool.slots[k].key.Some? && pool.slots[k].key.value < pool.left
      ensures b == (KeyText(pool.State(), pool.slots[k].key.value) == key)
    {
      var a := pool.slots[k].key.value;
      var end := pool.StringEnd(a);
      b := pool.memory[a..end] == key;
    }

    /** The first slot with a key, and where it is in the list. */
    method GetSlot(key: string) returns (r: Option<nat>, ghost i: nat)
      requires Valid() && Keyed(pool.State(), Contents())
      ensures r.Some? ==> i < |members| && members[i] == r.value
      ensures r.Some? ==> Keys(pool.State(), Contents())[i] == key && key !in Keys(pool.State(), Contents())[..i]
      ensures r.None? ==> key !in Keys(pool.State(), Contents())
    {
      hide KeyText, NulAfter;
      r, i := head, 0;
      ghost var keys := Keys(pool.State(), Contents());
      while r.Some?
        invariant i <= |members| == |keys| && r == (if i < |members| then Some(members[i]) else None)
        invariant key !in keys[..i]
        decreases |members| - i
      {
        NextIs(pool.State().slots, State(), members, i);
        assert Contents()[i] == EntryOf(pool.slots[r.value]);
        var found := KeyIs(r.value, key);
        if found {
          return;
        }
        r := NextSlot(r.value);
        i := i + 1;
      }
    }

    /** The member under a key, added if there is none; if the pool has no room, nothing changes. The
        object stays one unless the key holds a NUL and the part before it is a key already. */
    method GetOrAddMember(key: string) returns (r: Option<nat>)
      requires IsObject()
      modifies this, pool, pool.memory, pool.slots
      ensures Valid() && Keyed(pool.State(), Contents())
        && OnlyChanged(old(pool.State()).slots, pool.State().slots, old(members))
      ensures key in old(MemberKeys()) ==> r.Some? && pool.State() == old(pool.State()) && members == old(members)
      ensures r.Some? <==> key in old(MemberKeys()) || RoomForMember(old(pool.State()), key)
      ensures Keys(pool.State(), Contents())
        == old(MemberKeys()) + if key in old(MemberKeys()) || r.None? then [] else [UpToNul(key)]
      ensures IsObject() <==> key in old(MemberKeys()) || !RoomForMember(old(pool.State()), key)
                              || UpToNul(key) !in old(MemberKeys())
      ensures r.Some? ==> exists i ::
        0 <= i < |members| && members[i] == r.value && Keys(pool.State(), Contents())[i] == UpToNul(key)
      ensures r.None? ==> Contents() == old(Contents()) && pool.overflowed
      ensures old(Contents()) <= Contents() && |Contents()| <= |old(Contents())| + 1
    {
      hide KeyText, Stored, Linked, OnlyChanged, Distinct, UpToNul, RoomForMember;
      ghost var p, es := pool.State(), Contents();
      ghost var i;
      r, i := GetSlot(key);
      if r.Some? {
        Unchanged(p.slots, members);
        KeysHaveNoNul(p, es, i);
        return;
      }
      r := AddMember(key);
      KeysStay(p, pool.State(), es);
      if r.Some? {
        ghost var a :| Stored(pool.State(), a, key) && Contents() == es + [Entry(Some(a), 0)];
        KeyAdded(pool.State(), es, a, key);
        assert members[|es|] == r.value;
      }
    }

    /** Removes the member under a key, if there is one, and leaves the others in order: afterwards
        there is none under that key. */
    method RemoveMember(key: string)
      requires IsObject()
      modifies this, pool.slots
      ensures IsObject() && key !in MemberKeys()
      ensures forall k :: k != key ==> (k in MemberKeys() <==> k in old(MemberKeys()))
      ensures if key !in old(MemberKeys()) then Contents() == old(Contents()) && members == old(members)
              else exists i ::
                && 0 <= i < |old(members)| && old(MemberKeys())[i] == key && members == Without(old(members), i)
                && Contents() == Without(old(Contents()), i) && MemberKeys() == Without(old(MemberKeys()), i)
      ensures OnlyChanged(old(pool.State()).slots, pool.State().slots, old(members))
    {
      hide KeyText, Linked, OnlyChanged;
      ghost var p, es := pool.State(), Contents();
      var slot, i := GetSlot(key);
      if slot.None? {
        Unchanged(p.slots, members);
        return;
      }
      RemoveSlot(slot.value, i);
      DistinctWithout(Keys(p, es), i);
      KeyRemoved(p, pool.State(), es, i);
    }
  }

  /** A slot, and behind it a new copy of the key unless there is one. */
  predicate RoomForMember(p: Pool, key: string)
    requires InRange(p)
  {
    CanAlloc(p, SLOT_SIZE) && (Found(p, key).Some? || CanAlloc(p, SLOT_SIZE + |key| + 1))
  }

  lemma RoomBehindSlot(p: Pool, q: Pool, key: string)
    requires InRange(p) && InRange(q) && CanAlloc(p, SLOT_SIZE)
    requires q == p.(slots := q.slots) && |q.slots| == |p.slots| + 1
    ensures RoomForMember(p, key) <==> Saved(q, key).1.Some?
  {
    FoundSame(p, q, key, 0);
  }

  lemma KeyAdded(p: Pool, es: seq<Entry>, a: nat, key: string)
    requires InRange(p) && Keyed(p, es) && Stored(p, a, key)
    ensures var fs := es + [Entry(Some(a), 0)];
            && Keyed(p, fs) && Keys(p, fs) == Keys(p, es) + [UpToNul(key)]
            && (Distinct(Keys(p, es)) ==> (Distinct(Keys(p, fs)) <==> UpToNul(key) !in Keys(p, es)))
  {
    hide KeyText, UpToNul;
    KeyReadsBack(p, a, key);
    InStrings(p, a, key);
    var keys, fs := Keys(p, es), es + [Entry(Some(a), 0)];
    assert Keys(p, fs) == keys + [UpToNul(key)];
    if UpToNul(key) in keys {
      var j :| 0 <= j < |keys| && keys[j] == UpToNul(key);
      assert Keys(p, fs)[j] == Keys(p, fs)[|keys|];
    }
  }

  lemma KeysHaveNoNul(p: Pool, es: seq<Entry>, i: nat)
    requires InRange(p) && Keyed(p, es) && i < |es|
    ensures UpToNul(Keys(p, es)[i]) == Keys(p, es)[i]
  {
  }

  lemma InStrings(p: Pool, a: nat, s: string)
    requires Stored(p, a, s)
    ensures a < p.left
  {
  }

  lemma KeyRemoved(p: Pool, q: Pool, es: seq<Entry>, i: nat)
    requires InRange(p) && Keyed(p, es) && i < |es| && InRange(q) && q == p.(slots := q.slots)
    ensures Keyed(q, Without(es, i)) && Keys(q, Without(es, i)) == Without(Keys(p, es), i)
  {
    hide KeyText, InRange;
    KeptItself(p);
    KeysStay(p, q, es);
    assert Keyed(q, Without(es, i));
    forall j | 0 <= j < |es| - 1
      ensures Keys(q, Without(es, i))[j] == Without(Keys(p, es), i)[j]
    {
      WithoutAt(es, i, j);
      WithoutAt(Keys(p, es), i, j);
      assert Keys(q, es)[if j < i then j else j + 1] == KeyText(q, Without(es, i)[j].key.value);
    }
  }

  lemma DistinctWithout<T>(s: seq<T>, i: nat)
    requires Distinct(s) && i < |s|
    ensures Distinct(Without(s, i)) && s[i] !in Without(s, i)
    ensures forall x :: x != s[i] ==> (x in Without(s, i) <==> x in s)
  {
    forall x | x in s && x != s[i]
      ensures x in Without(s, i)
    {
      var j :| 0 <= j < |s| && s[j] == x;
      assert Without(s, i)[if j < i then j else j - 1] == x;
    }
  }

  lemma KeySet(slots: seq<Slot>, l: List, ms: seq<nat>, i: nat, key: nat)
    requires Linked(slots, l, ms) && i < |ms|
    ensures ms[i] < |slots|
    ensures var s := slots[ms[i] := slots[ms[i]].(key := Some(key))];
            && Linked(s, l, ms) && OnlyChanged(slots, s, ms)
            && Entries(s, ms) == Entries(slots, ms)[i := Entry(Some(key), Entries(slots, ms)[i].content)]
  {
    var s := slots[ms[i] := slots[ms[i]].(key := Some(key))];
    forall j | 0 <= j < |ms|
      ensures s[ms[j]].next == Link(ms, j)
    {
      assert slots[ms[j]].next == Link(ms, j);
    }
    assert ms[i] in ms;
  }

  lemma ChangesCompose(a: seq<Slot>, b: seq<Slot>, c: seq<Slot>, ms: seq<nat>)
    requires OnlyChanged(a, b, ms) && (b == c || OnlyChanged(b, c, ms + [|a|]))
    ensures OnlyChanged(a, c, ms)
  {
  }

  lemma WithoutLast<T>(s: seq<T>, x: T)
    ensures Without(s + [x], |s|) == s
  {
  }

  /** Unlinking the slot just appended brings the list back. */
  lemma AppendUndone(slots: seq<Slot>, l: List, ms: seq<nat>, s: seq<Slot>, m: List)
    requires Linked(slots, l, ms) && Linked(s, m, ms + [|slots|])
    requires m == List(if l.head.Some? then l.head else Some(|slots|), Some(|slots|))
    ensures Followable(s, |slots|) && (ms != [] ==> ms[|ms| - 1] < |s|)
    ensures Unlinked(s, m, Before(ms + [|slots|], |ms|), |slots|).1 == l
  {
    NextIs(s, m, ms + [|slots|], |ms|);
    if ms != [] {
      assert (ms + [|slots|])[|ms| - 1] == ms[|ms| - 1];
    }
  }

  /** Where a string is stored does not depend on the slots. */
  lemma StoredElsewhere(p: Pool, q: Pool, a: nat, s: string)
    requires q == p.(slots := q.slots)
    ensures Stored(p, a, s) == Stored(q, a, s)
  {
  }

  lemma Unchanged(slots: seq<Slot>, ms: seq<nat>)
    ensures OnlyChanged(slots, slots, ms)
  {
  }

  lemma HeadWithTail(slots: seq<Slot>, l: List, ms: seq<nat>)
    requires Linked(slots, l, ms)
    ensures l.head.Some? == l.tail.Some?
  {
  }

  lemma NextInRange(slots: seq<Slot>, l: List, ms: seq<nat>, i: nat)
    requires Linked(slots, l, ms) && i < |ms|
    ensures ms[i] < |slots| && Followable(slots, ms[i])
    ensures NextOf(slots, ms[i]).Some? ==> NextOf(slots, ms[i]).value < |slots|
  {
    NextIs(slots, l, ms, i);
  }

  lemma HeadIsFirst(slots: seq<Slot>, l: List, ms: seq<nat>)
    requires Linked(slots, l, ms)
    ensures l.head == if ms == [] then None else Some(ms[0])
  {
  }

  lemma MembersDiffer(slots: seq<Slot>, l: List, ms: seq<nat>, i: nat, j: nat)
    requires Linked(slots, l, ms) && i < |ms|
    ensures j < |ms| && i != j ==> ms[i] != ms[j]
  {
  }

  lemma KeptItself(p: Pool)
    requires InRange(p)
    ensures StringsKept(p, p)
  {
  }

  lemma SlotsBounded(p: Pool)
    requires InRange(p)
    ensures |p.slots| <= SLOT_MAX
  {
  }
}
