/** How much of a pool the JSON parser takes for a value (pagers-server/json/ArduinoJson.h): which
    strings it keeps and which slots it takes, in order, and exactly when the memory runs out. */
module JsonMemory {
  import opened JsonGrammar
  import opened JsonValue
  import opened Memory
  import opened Pools = MemoryPool

  type Heap = p: Pool | InRange(p) witness Pool("", 0, [], false)

  /** A string to keep, a key that is only compared because the object has it already, or a slot. */
  datatype Request = Keep(s: string) | Compare(s: string) | NewSlot

  /** What reading the text of a value into an empty variant asks of the pool. */
  function Requests(v: Value): seq<Request>
  {
    match v
    case Str(s) => [Keep(s)]
    case Arr(elements) => ElementRequests(elements)
    case Obj(members) => MemberRequests({}, members)
    case _ => []
  }

  /** The slot of an element is taken before its value is read. */
  function ElementRequests(vs: seq<Value>): seq<Request>
  {
    if vs == [] then [] else [NewSlot] + Requests(vs[0]) + ElementRequests(vs[1..])
  }

  /** A key is assembled in the free zone; a new one is kept before its slot is taken. */
  function MemberRequests(seen: set<string>, ms: seq<Member>): seq<Request>
    decreases ms
  {
    if ms == [] then []
    else KeyRequests(seen, ms[0]) + Requests(ms[0].value) + MemberRequests(seen + {UpToNul(ms[0].key)}, ms[1..])
  }

  function KeyRequests(seen: set<string>, m: Member): seq<Request>
  {
    if UpToNul(m.key) in seen then [Compare(UpToNul(m.key))] else [Keep(UpToNul(m.key)), NewSlot]
  }

  /** What the pool does about a request; nothing is left for the parser but NoMemory if it fails. */
  function Served(p: Pool, r: Request): (q: Option<Pool>)
    requires InRange(p)
    ensures q.Some? ==> InRange(q.value)
  {
    match r
    case Keep(s) =>
      NextExtends(p, Assemble(s));
      var (q, a) := Assembled(p, s);
      if a.Some? then Some(q) else None
    case Compare(s) =>
      WrittenExtends(p, s);
      if p.overflowed || !CanAlloc(p, |s| + 1) then None else Some(Written(p, s))
    case NewSlot =>
      NextExtends(p, Allocate(CLEARED));
      var (q, k) := Allocated(p, CLEARED);
      if k.Some? then Some(q) else None
  }

  function AllServed(p: Pool, rs: seq<Request>): (q: Option<Pool>)
    requires InRange(p)
    ensures q.Some? ==> InRange(q.value)
    decreases |rs|
  {
    if rs == [] then Some(p)
    else
      var q := Served(p, rs[0]);
      if q.None? then None else AllServed(q.value, rs[1..])
  }

  lemma {:induction false} AllServedConcat(p: Pool, a: seq<Request>, b: seq<Request>)
    requires InRange(p)
    ensures var q := AllServed(p, a);
            AllServed(p, a + b) == if q.None? then None else AllServed(q.value, b)
    decreases |a|
  {
    hide Served;
    if a == [] {
      assert a + b == b;
    } else {
      assert (a + b)[1..] == a[1..] + b;
      if Served(p, a[0]).Some? {
        AllServedConcat(Served(p, a[0]).value, a[1..], b);
      }
    }
  }

  /** A result, unless some requests made on the way to it are not met: the first of those ends it. */
  function Limited<T>(p: Pool, rs: seq<Request>, r: Parsed<T>): Parsed<T>
    requires InRange(p)
  {
    if AllServed(p, rs).None? then Fail(NoMemory) else r
  }

  // ----- how much room that takes

  function Room(p: Pool): int
  {
    Right(p) - p.left
  }

  /** The room that is enough for some requests. */
  function Need(rs: seq<Request>): nat
  {
    if rs == [] then 0
    else
      var rest := Need(rs[1..]);
      match rs[0]
      case Keep(s) => |s| + 1 + rest
      case Compare(s) => if |s| + 1 <= rest then rest else |s| + 1
      case NewSlot => SLOT_SIZE + rest
  }

  function Cost(r: Request): nat
  {
    match r
    case Keep(s) => |s| + 1
    case Compare(s) => 0
    case NewSlot => SLOT_SIZE
  }

  lemma NeedFirst(rs: seq<Request>)
    requires rs != []
    ensures Need(rs) == if rs[0].Compare? && Need(rs[1..]) <= Need([rs[0]]) then Need([rs[0]])
                        else Cost(rs[0]) + Need(rs[1..])
    ensures Cost(rs[0]) <= Need([rs[0]]) <= Need(rs) && Cost(rs[0]) + Need(rs[1..]) <= Need(rs)
  {
    assert Need([]) == 0 && [rs[0]][1..] == [];
  }

  // ----- exactly when the memory runs out

  /** The strings of a pool, one after the other. */
  function Zone(p: Pool): string
    requires InRange(p)
  {
    p.memory[..p.left]
  }

  ghost predicate KnownAt(zone: string, s: string, a: nat)
  {
    a + |s| < |zone| && zone[a + |s|] == '\0' && zone[a..a + |s|] == s && (a == 0 || zone[a - 1] == '\0')
  }

  ghost predicate Known(zone: string, s: string)
  {
    exists a :: KnownAt(zone, s, a)
  }

  /** What strings the search of the pool finds depends only on those stored. */
  lemma KnownIsFound(p: Pool, s: string)
    requires InRange(p)
    ensures Found(p, s).Some? <==> Known(Zone(p), s)
  {
    hide Found;
    FindsStored(p, s);
    forall a: nat
      ensures Pools.Stored(p, a, s) && Start(p, a) <==> KnownAt(Zone(p), s, a)
    {
      KnownIsStored(p, s, a);
    }
  }

  lemma KnownIsStored(p: Pool, s: string, a: nat)
    requires InRange(p)
    ensures Pools.Stored(p, a, s) && Start(p, a) <==> KnownAt(Zone(p), s, a)
  {
    if a + |s| < p.left {
      assert Zone(p)[a..a + |s|] == p.memory[a..a + |s|];
    }
  }

  /** The strings stored once a request is met. */
  ghost function ZoneAfter(zone: string, r: Request): string
  {
    if r.Keep? && !Known(zone, r.s) then zone + r.s + "\0" else zone
  }

  /** What a request takes for good: nothing for a string that is stored already. */
  ghost function TakenUp(zone: string, r: Request): nat
  {
    match r
    case Keep(s) => if Known(zone, s) then 0 else |s| + 1
    case Compare(_) => 0
    case NewSlot => SLOT_SIZE
  }

  /** The room some requests need behind some strings: a string is always assembled first, also one that
      is stored already. */
  ghost function NeedBehind(zone: string, rs: seq<Request>): nat
    decreases |rs|
  {
    if rs == [] then 0
    else
      var rest := TakenUp(zone, rs[0]) + NeedBehind(ZoneAfter(zone, rs[0]), rs[1..]);
      if Need([rs[0]]) <= rest then rest else Need([rs[0]])
  }

  lemma OneServed(p: Pool, r: Request)
    requires InRange(p) && !p.overflowed
    ensures Served(p, r).Some? <==> Need([r]) <= Room(p)
    ensures var q := Served(p, r);
            q.Some? ==> !q.value.overflowed && Room(q.value) == Room(p) - TakenUp(Zone(p), r)
                        && Zone(q.value) == ZoneAfter(Zone(p), r)
  {
    hide Found, Known;
    assert Need([]) == 0 && [r][1..] == [];
    if r.Keep? {
      KnownIsFound(p, r.s);
      if CanAlloc(p, |r.s| + 1) {
        CopiedZone(p, r.s);
      }
    }
    if !r.NewSlot? {
      WrittenZone(p, r.s);
    }
  }

  lemma CopiedZone(p: Pool, s: string)
    requires InRange(p) && CanAlloc(p, |s| + 1)
    ensures InRange(Copied(p, s)) && Zone(Copied(p, s)) == Zone(p) + s + "\0"
  {
    CopiedExtends(p, s);
  }

  lemma WrittenZone(p: Pool, s: string)
    requires InRange(p)
    ensures InRange(Written(p, s)) && Zone(Written(p, s)) == Zone(p)
  {
    WrittenExtends(p, s);
  }

  /** Memory runs out exactly if there is less room than the requests need, repeated strings and strings
      that are stored already included. */
  lemma {:induction false} RoomExactly(p: Pool, rs: seq<Request>)
    requires InRange(p) && !p.overflowed
    ensures AllServed(p, rs).Some? <==> NeedBehind(Zone(p), rs) <= Room(p)
    decreases |rs|
  {
    hide Served, Room, Need, TakenUp, ZoneAfter, Zone;
    if rs == [] {
      RoomLeft(p);
    } else {
      OneServed(p, rs[0]);
      if Served(p, rs[0]).Some? {
        RoomExactly(Served(p, rs[0]).value, rs[1..]);
      }
    }
  }

  lemma RoomLeft(p: Pool)
    requires InRange(p)
    ensures 0 <= Room(p)
  {
  }

  /** What is stored already saves room and never costs any. */
  lemma {:induction false} NeedBounds(zone: string, rs: seq<Request>)
    ensures NeedBehind(zone, rs) <= Need(rs)
    decreases |rs|
  {
    hide Need, ZoneAfter, Known;
    if rs != [] {
      NeedFirst(rs);
      NeedBounds(ZoneAfter(zone, rs[0]), rs[1..]);
    }
  }

  // ----- strings that are all different

  /** The strings to keep are C strings, all different, and none of them is known yet. */
  ghost predicate AllNew(zone: string, rs: seq<Request>)
  {
    && (forall i :: 0 <= i < |rs| && rs[i].Keep? ==> '\0' !in rs[i].s && !Known(zone, rs[i].s))
    && (forall i, j :: 0 <= i < j < |rs| && rs[i].Keep? && rs[j].Keep? ==> rs[i].s != rs[j].s)
  }

  ghost predicate Ended(zone: string)
  {
    zone == "" || zone[|zone| - 1] == '\0'
  }

  /** A C string found behind a new one was there before, or is the new one. */
  lemma OnlyNew(zone: string, s: string, t: string)
    requires Ended(zone) && '\0' !in s && '\0' !in t && s != t && !Known(zone, t)
    ensures !Known(zone + s + "\0", t)
  {
    var longer := zone + s + "\0";
    forall a: nat | KnownAt(longer, t, a)
      ensures KnownAt(zone, t, a)
    {
      if a < |zone| {
        KnownBefore(zone, s, t, a);
      } else {
        KnownBehind(zone, s, t, a);
      }
    }
  }

  lemma CellsOf(zone: string, t: string, a: nat)
    requires KnownAt(zone, t, a)
    ensures forall k :: a <= k < a + |t| ==> zone[k] == t[k - a]
  {
    forall k | a <= k < a + |t|
      ensures zone[k] == t[k - a]
    {
      assert zone[a..a + |t|][k - a] == zone[k];
    }
  }

  lemma KnownBefore(zone: string, s: string, t: string, a: nat)
    requires Ended(zone) && '\0' !in t && a < |zone| && KnownAt(zone + s + "\0", t, a)
    ensures KnownAt(zone, t, a)
  {
    var longer := zone + s + "\0";
    CellsOf(longer, t, a);
    assert longer[|zone| - 1] == '\0';
    assert a + |t| <= |zone| - 1;
    assert zone[a..a + |t|] == t;
  }

  lemma KnownBehind(zone: string, s: string, t: string, a: nat)
    requires '\0' !in s && '\0' !in t && |zone| <= a && KnownAt(zone + s + "\0", t, a)
    ensures s == t
  {
    var longer := zone + s + "\0";
    CellsOf(longer, t, a);
    assert forall k :: 0 <= k < |s| ==> longer[|zone| + k] == s[k];
    assert longer[|zone| + |s|] == '\0';
    assert a == |zone| && |t| == |s|;
  }

  lemma StillNew(zone: string, rs: seq<Request>)
    requires Ended(zone) && rs != [] && AllNew(zone, rs)
    ensures Ended(ZoneAfter(zone, rs[0])) && AllNew(ZoneAfter(zone, rs[0]), rs[1..])
      && TakenUp(zone, rs[0]) == Cost(rs[0])
  {
    hide Known;
    forall i | 0 <= i < |rs[1..]| && rs[1..][i].Keep?
      ensures '\0' !in rs[1..][i].s && !Known(ZoneAfter(zone, rs[0]), rs[1..][i].s)
    {
      assert rs[1..][i] == rs[i + 1];
      if rs[0].Keep? {
        OnlyNew(zone, rs[0].s, rs[i + 1].s);
      }
    }
  }

  /** If all strings are new and different nothing is saved. */
  lemma {:induction false} NothingSaved(zone: string, rs: seq<Request>)
    requires Ended(zone) && AllNew(zone, rs)
    ensures NeedBehind(zone, rs) == Need(rs)
    decreases |rs|
  {
    hide Need, ZoneAfter, TakenUp, AllNew, Cost;
    if rs == [] {
      NothingRequested();
    } else {
      NeedFirst(rs);
      StillNew(zone, rs);
      NothingSaved(ZoneAfter(zone, rs[0]), rs[1..]);
    }
  }

  // ----- what is there afterwards

  function Slots(rs: seq<Request>): nat
  {
    if rs == [] then 0 else Slots(rs[1..]) + if rs[0].NewSlot? then 1 else 0
  }

  ghost predicate Holds(p: Pool, s: string)
  {
    exists a :: Pools.Stored(p, a, s) && Start(p, a)
  }

  lemma OneKept(p: Pool, r: Request)
    requires InRange(p) && Served(p, r).Some?
    ensures var q := Served(p, r).value;
            && Extends(p, q) && |q.slots| == |p.slots| + (if r.NewSlot? then 1 else 0)
            && (r.Keep? ==> Holds(q, r.s))
  {
    hide Found, Splice, Extends;
    match r
    case Keep(s) => NextExtends(p, Assemble(s)); SaveReturns(p, Assemble(s));
    case Compare(s) => WrittenExtends(p, s);
    case NewSlot => NextExtends(p, Allocate(CLEARED));
  }

  lemma HeldStays(p: Pool, q: Pool, s: string)
    requires Extends(p, q) && Holds(p, s)
    ensures Holds(q, s)
  {
    var a :| Pools.Stored(p, a, s) && Start(p, a);
    StoredStays(p, q, a, s);
  }

  /** If the memory does not run out, every string and key is stored, every element and member has a
      slot, and nothing stored before has changed. */
  lemma {:induction false} AllKept(p: Pool, rs: seq<Request>)
    requires InRange(p) && AllServed(p, rs).Some?
    ensures var q := AllServed(p, rs).value;
            && Extends(p, q) && |q.slots| == |p.slots| + Slots(rs)
            && forall i :: 0 <= i < |rs| && rs[i].Keep? ==> Holds(q, rs[i].s)
    decreases |rs|
  {
    hide Served, Extends, Holds;
    if rs == [] {
      SelfExtends(p);
    } else {
      var q, all := Served(p, rs[0]).value, AllServed(p, rs).value;
      OneKept(p, rs[0]);
      AllKept(q, rs[1..]);
      ExtendsTransitive(p, q, all);
      forall i | 0 <= i < |rs| && rs[i].Keep?
        ensures Holds(all, rs[i].s)
      {
        if i == 0 {
          HeldStays(q, all, rs[0].s);
        } else {
          assert rs[1..][i - 1] == rs[i];
        }
      }
    }
  }

  // ----- the room a value needs

  /** JSON_ARRAY_SIZE and JSON_OBJECT_SIZE: slots for the elements or members; JSON_STRING_SIZE for
      every string and key. */
  function Footprint(v: Value): nat
  {
    match v
    case Str(s) => |s| + 1
    case Arr(elements) => SLOT_SIZE * |elements| + FootprintAll(elements)
    case Obj(members) => SLOT_SIZE * |members| + FootprintMembers(members)
    case _ => 0
  }

  function FootprintAll(vs: seq<Value>): nat
  {
    if vs == [] then 0 else Footprint(vs[0]) + FootprintAll(vs[1..])
  }

  function FootprintMembers(ms: seq<Member>): nat
  {
    if ms == [] then 0 else |ms[0].key| + 1 + Footprint(ms[0].value) + FootprintMembers(ms[1..])
  }

  ghost predicate NoCompare(rs: seq<Request>)
  {
    forall i :: 0 <= i < |rs| ==> !rs[i].Compare?
  }

  lemma {:induction false} NeedConcat(a: seq<Request>, b: seq<Request>)
    requires NoCompare(a)
    ensures Need(a + b) == Need(a) + Need(b)
    decreases |a|
  {
    if a == [] {
      assert a + b == b;
    } else {
      assert (a + b)[1..] == a[1..] + b;
      NeedConcat(a[1..], b);
    }
  }

  lemma {:induction false} ElementsNeed(vs: seq<Value>)
    requires forall k :: 0 <= k < |vs| ==> NoCompare(Requests(vs[k])) && Need(Requests(vs[k])) == Footprint(vs[k])
    ensures NoCompare(ElementRequests(vs)) && Need(ElementRequests(vs)) == SLOT_SIZE * |vs| + FootprintAll(vs)
    decreases |vs|
  {
    hide Requests, Footprint, NoCompare, Need;
    if vs == [] {
      NothingRequested();
    } else {
      var rest := ElementRequests(vs[1..]);
      ElementsNeed(vs[1..]);
      NeedConcat(Requests(vs[0]), rest);
      NoneCompared(Requests(vs[0]), rest);
      SlotNeed(Requests(vs[0]) + rest);
      Regrouped([NewSlot], Requests(vs[0]), rest);
    }
  }

  /** The keys are C strings, none of them seen before, and all different. */
  ghost predicate Unseen(seen: set<string>, ms: seq<Member>)
  {
    KeysOk(ms) && forall k :: 0 <= k < |ms| ==> ms[k].key !in seen
  }

  lemma UnseenNext(seen: set<string>, ms: seq<Member>)
    requires ms != [] && Unseen(seen, ms)
    ensures UpToNul(ms[0].key) == ms[0].key && Unseen(seen + {ms[0].key}, ms[1..])
    ensures KeyRequests(seen, ms[0]) == [Keep(ms[0].key), NewSlot]
  {
  }

  lemma SlotNeed(rest: seq<Request>)
    ensures Need([NewSlot] + rest) == SLOT_SIZE + Need(rest)
    ensures NoCompare(rest) ==> NoCompare([NewSlot] + rest)
  {
    assert ([NewSlot] + rest)[1..] == rest;
  }

  lemma KeyNeed(key: string, rest: seq<Request>)
    ensures Need([Keep(key), NewSlot] + rest) == |key| + 1 + SLOT_SIZE + Need(rest)
    ensures NoCompare(rest) ==> NoCompare([Keep(key), NewSlot] + rest)
  {
    var rs := [Keep(key), NewSlot] + rest;
    assert rs[1..] == [NewSlot] + rest && rs[1..][1..] == rest;
  }

  lemma {:induction false} MembersNeed(seen: set<string>, ms: seq<Member>)
    requires Unseen(seen, ms)
    requires forall k :: 0 <= k < |ms| ==>
      NoCompare(Requests(ms[k].value)) && Need(Requests(ms[k].value)) == Footprint(ms[k].value)
    ensures NoCompare(MemberRequests(seen, ms))
      && Need(MemberRequests(seen, ms)) == SLOT_SIZE * |ms| + FootprintMembers(ms)
    decreases |ms|
  {
    hide Requests, Footprint, UpToNul, Unseen, KeyRequests, NoCompare, Need;
    if ms == [] {
      NothingRequested();
    } else {
      var m, rest := ms[0], MemberRequests(seen + {ms[0].key}, ms[1..]);
      UnseenNext(seen, ms);
      MembersNeed(seen + {m.key}, ms[1..]);
      NeedConcat(Requests(m.value), rest);
      NoneCompared(Requests(m.value), rest);
      KeyNeed(m.key, Requests(m.value) + rest);
      Regrouped([Keep(m.key), NewSlot], Requests(m.value), rest);
    }
  }

  lemma NothingRequested()
    ensures NoCompare([]) && Need([]) == 0
  {
  }

  lemma NoneCompared(a: seq<Request>, b: seq<Request>)
    requires NoCompare(a) && NoCompare(b)
    ensures NoCompare(a + b)
  {
  }

  lemma Regrouped(a: seq<Request>, b: seq<Request>, c: seq<Request>)
    ensures a + b + c == a + (b + c)
  {
  }

  lemma {:induction false} FootprintNeeded(v: Value)
    requires WellKeyed(v)
    ensures NoCompare(Requests(v)) && Need(Requests(v)) == Footprint(v)
    decreases v
  {
    match v
    case Arr(vs) =>
      forall k | 0 <= k < |vs|
        ensures NoCompare(Requests(vs[k])) && Need(Requests(vs[k])) == Footprint(vs[k])
      {
        FootprintNeeded(vs[k]);
      }
      ElementsNeed(vs);
    case Obj(ms) =>
      forall k | 0 <= k < |ms|
        ensures NoCompare(Requests(ms[k].value)) && Need(Requests(ms[k].value)) == Footprint(ms[k].value)
      {
        FootprintNeeded(ms[k].value);
      }
      MembersNeed({}, ms);
    case Str(s) => assert [Keep(s)][1..] == []; assert Need([]) == 0;
    case _ =>
  }

  /** Reading a value runs out of memory exactly if the pool has less room than its requests need. For
      a value that comes back equal its footprint is always enough, and if all its strings and keys
      are new C strings and differ, it is what they need. */
  lemma MemoryExactly(p: Pool, v: Value)
    requires InRange(p) && !p.overflowed
    ensures AllServed(p, Requests(v)).Some? <==> NeedBehind(Zone(p), Requests(v)) <= Room(p)
    ensures WellKeyed(v) ==> NeedBehind(Zone(p), Requests(v)) <= Footprint(v)
    ensures WellKeyed(v) && AllNew(Zone(p), Requests(v)) ==> NeedBehind(Zone(p), Requests(v)) == Footprint(v)
  {
    hide AllServed, AllNew, Requests, Footprint, Room, Need, NeedBehind;
    var rs := Requests(v);
    RoomExactly(p, rs);
    NeedBounds(Zone(p), rs);
    if WellKeyed(v) {
      FootprintNeeded(v);
      if AllNew(Zone(p), rs) {
        NothingSaved(Zone(p), rs);
      }
    }
  }
}
