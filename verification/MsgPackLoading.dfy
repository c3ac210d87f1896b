/** What the MessagePack parser of pagers-server/json/ArduinoJson.h asks of the pool while it reads a
    message, and with that when memory runs out. */
module MsgPackLoading {
  import opened JsonGrammar
  import opened JsonLoading
  import opened JsonMemory
  import opened JsonValue
  import opened Memory
  import opened MsgPack
  import Pools = MemoryPool

  // ----- what is asked while a message is read, up to its end or its first error

  function MessageRequests(s: string, limit: nat): seq<Request>
    decreases |s|, 0
  {
    if s == "" then []
    else
      var head := HeadOf(Code(s[0]), s[1..]);
      if head.Fail? then []
      else
        match head.value
        case NoHead => ScalarRequests(Scalar(Code(s[0]), s[1..]))
        case Elements(n) => if limit == 0 then [] else MessageElements(head.rest, limit - 1, n)
        case Members(n) => if limit == 0 then [] else MessageMembers(head.rest, limit - 1, n)
  }

  function ScalarRequests(r: Parsed<Value>): seq<Request>
  {
    if r.Ok? && r.value.Str? then [Keep(r.value.s)] else []
  }

  function MessageElements(s: string, limit: nat, n: nat): seq<Request>
    decreases |s|, 1
  {
    if n == 0 then []
    else
      var v := MsgPack.Decoded(s, limit);
      [NewSlot] + MessageRequests(s, limit) + if v.Fail? then [] else MessageElements(v.rest, limit, n - 1)
  }

  /** Every key is kept and gets a slot, also one that is already there. */
  function MessageMembers(s: string, limit: nat, n: nat): seq<Request>
    decreases |s|, 1
  {
    if n == 0 then []
    else
      var k := DecodedKey(s);
      if k.Fail? then []
      else
        var v := MsgPack.Decoded(k.rest, limit);
        [Keep(k.value), NewSlot] + MessageRequests(k.rest, limit) +
        if v.Fail? then [] else MessageMembers(v.rest, limit, n - 1)
  }

  /** What is asked for the elements that are left, step by step. */
  lemma MessageElementStep(p: Heap, s: string, limit: nat, n: nat)
    requires n != 0
    ensures var (all, rs) := (AllServed(p, MessageElements(s, limit, n)), MessageRequests(s, limit));
            var v := MsgPack.Decoded(s, limit);
            var slot := Served(p, NewSlot);
            if slot.None? then all == None
            else
              var q := AllServed(slot.value, rs);
              if q.None? then all == None
              else all == if v.Fail? then q else AllServed(q.value, MessageElements(v.rest, limit, n - 1))
  {
    hide Served, MessageRequests, Decoded, AllServed;
    var (rs, v) := (MessageRequests(s, limit), MsgPack.Decoded(s, limit));
    var rest := if v.Fail? then [] else MessageElements(v.rest, limit, n - 1);
    assert MessageElements(s, limit, n) == [NewSlot] + rs + rest;
    AllServedConcat(p, [NewSlot] + rs, rest);
    FirstRequest(p, NewSlot, rs);
    if Served(p, NewSlot).Some? && AllServed(Served(p, NewSlot).value, rs).Some? {
      OneRequest(AllServed(Served(p, NewSlot).value, rs).value, NewSlot);
    }
  }

  /** The same for the members that are left. */
  lemma MessageMemberStep(p: Heap, s: string, limit: nat, n: nat)
    requires n != 0
    ensures var (all, k) := (AllServed(p, MessageMembers(s, limit, n)), DecodedKey(s));
            var checked := AllServed(p, Checked(k));
            if checked.None? then all == None
            else if k.Fail? then all == checked
            else
              var kept := Served(checked.value, Keep(k.value));
              if kept.None? || Served(kept.value, NewSlot).None? then all == None
              else
                var q := AllServed(Served(kept.value, NewSlot).value, MessageRequests(k.rest, limit));
                var v := MsgPack.Decoded(k.rest, limit);
                if q.None? then all == None
                else all == if v.Fail? then q else AllServed(q.value, MessageMembers(v.rest, limit, n - 1))
  {
    hide Served, MessageRequests, Decoded, DecodedKey, AllServed;
    var k := DecodedKey(s);
    OneRequest(p, NewSlot);
    KeptChecked(p, k);
    if k.Ok? {
      var (rs, v) := (MessageRequests(k.rest, limit), MsgPack.Decoded(k.rest, limit));
      var rest := if v.Fail? then [] else MessageMembers(v.rest, limit, n - 1);
      OneRequest(p, Keep(k.value));
      assert MessageMembers(s, limit, n) == [Keep(k.value)] + ([NewSlot] + rs) + rest;
      AllServedConcat(p, [Keep(k.value)] + ([NewSlot] + rs), rest);
      FirstRequest(p, Keep(k.value), [NewSlot] + rs);
      if Served(p, Keep(k.value)).Some? {
        var kept := Served(p, Keep(k.value)).value;
        FirstRequest(kept, NewSlot, rs);
        if Served(kept, NewSlot).Some? && AllServed(Served(kept, NewSlot).value, rs).Some? {
          OneRequest(AllServed(Served(kept, NewSlot).value, rs).value, NewSlot);
        }
      }
    }
  }

  /** A message parsed into a pool. */
  function Unpacked(p: Heap, s: string, limit: nat): Parsed<Value>
  {
    Limited(p, MessageRequests(s, limit), Message(s, limit))
  }

  // ----- the encoding of a value

  function PackedRequests(v: Value): seq<Request>
  {
    match v
    case Str(s) => [Keep(s)]
    case Arr(elements) => PackedElements(elements)
    case Obj(members) => PackedMembersOf(members)
    case _ => []
  }

  function PackedElements(vs: seq<Value>): seq<Request>
  {
    if vs == [] then [] else [NewSlot] + PackedRequests(vs[0]) + PackedElements(vs[1..])
  }

  function PackedMembersOf(ms: seq<Member>): seq<Request>
  {
    if ms == [] then []
    else [Keep(UpToNul(ms[0].key)), NewSlot] + PackedRequests(ms[0].value) + PackedMembersOf(ms[1..])
  }

  lemma {:induction false} OnlyArrays(s: string, limit: nat, n: nat, done: seq<Value>)
    ensures var r := DecodedElements(s, limit, n, done); r.Ok? ==> r.value.Arr?
    decreases n
  {
    hide Decoded;
    if n != 0 && MsgPack.Decoded(s, limit).Ok? {
      OnlyArrays(MsgPack.Decoded(s, limit).rest, limit, n - 1, done + [MsgPack.Decoded(s, limit).value]);
    }
  }

  lemma {:induction false} OnlyObjects(s: string, limit: nat, n: nat, done: seq<Member>)
    ensures var r := DecodedMembers(s, limit, n, done); r.Ok? ==> r.value.Obj?
    decreases n
  {
    hide Decoded, DecodedKey, UpToNul;
    if n != 0 && DecodedKey(s).Ok? {
      var k := DecodedKey(s);
      var v := MsgPack.Decoded(k.rest, limit);
      if v.Ok? {
        OnlyObjects(v.rest, limit, n - 1, done + [Member(UpToNul(k.value), v.value)]);
      }
    }
  }

  lemma ScalarRequested(s: string, limit: nat)
    requires var r := MsgPack.Decoded(s, limit); r.Ok? && !r.value.Arr? && !r.value.Obj?
    ensures MessageRequests(s, limit) == ScalarRequests(MsgPack.Decoded(s, limit))
  {
    hide Scalar, HeadOf, DecodedElements, DecodedMembers;
    var head := HeadOf(Code(s[0]), s[1..]);
    match head.value
    case NoHead =>
    case Elements(n) => if limit != 0 { OnlyArrays(head.rest, limit - 1, n, []); }
    case Members(n) => if limit != 0 { OnlyObjects(head.rest, limit - 1, n, []); }
  }

  lemma ArrayRequested(n: nat, limit: nat, all: string)
    requires n < 0x1_0000_0000 && 0 < limit
    ensures MessageRequests(ArrayHead(n) + all, limit) == MessageElements(all, limit - 1, n)
  {
    hide HeadOf, ArrayHead, MessageElements, MessageMembers, Scalar;
    HeadRead(n, false, all);
  }

  lemma ObjectRequested(n: nat, limit: nat, all: string)
    requires n < 0x1_0000_0000 && 0 < limit
    ensures MessageRequests(ObjectHead(n) + all, limit) == MessageMembers(all, limit - 1, n)
  {
    hide HeadOf, ObjectHead, MessageElements, MessageMembers, Scalar;
    HeadRead(n, true, all);
  }

  lemma {:induction false} EncodingRequested(v: Value, limit: nat, rest: string)
    requires Stored(v) && Sized(v) && Depth(v) <= limit
    ensures MessageRequests(Encoded(v) + rest, limit) == PackedRequests(v)
    decreases v, 1
  {
    hide Encoded, ArrayHead, ObjectHead, EncodedAll, EncodedMembers, Sized, Depth, Stored;
    hide MessageRequests, MessageElements, MessageMembers, MsgPack.Decoded, PackedElements, PackedMembersOf, UpToNul;
    RoundTrip(v, limit, rest);
    Parts(v, limit);
    match v
    case Arr(elements) =>
      Joined(ArrayHead(|elements|), EncodedAll(elements), rest);
      ArrayRequested(|elements|, limit, EncodedAll(elements) + rest);
      ElementsRequestedOf(elements, limit - 1, rest, v);
    case Obj(members) =>
      Joined(ObjectHead(|members|), EncodedMembers(members), rest);
      ObjectRequested(|members|, limit, EncodedMembers(members) + rest);
      MembersRequestedOf(members, limit - 1, rest, v);
    case _ => ScalarRequested(Encoded(v) + rest, limit);
  }

  lemma {:induction false} ElementsRequestedOf(vs: seq<Value>, limit: nat, rest: string, v: Value)
    requires Readable(vs, limit, v)
    ensures Readable(vs, limit, v) && MessageElements(EncodedAll(vs) + rest, limit, |vs|) == PackedElements(vs)
    decreases v, 0, |vs|
  {
    hide MsgPack.Decoded, MessageRequests, PackedRequests, Encoded, Packed, Stored, Sized, Depth;
    if vs != [] {
      var tail := EncodedAll(vs[1..]) + rest;
      assert EncodedAll(vs) + rest == Encoded(vs[0]) + tail;
      RoundTrip(vs[0], limit, tail);
      EncodingRequested(vs[0], limit, tail);
      ElementsRequestedOf(vs[1..], limit, rest, v);
    }
  }

  lemma {:induction false} MembersRequestedOf(ms: seq<Member>, limit: nat, rest: string, v: Value)
    requires ReadableMembers(ms, limit, v)
    ensures ReadableMembers(ms, limit, v)
      && MessageMembers(EncodedMembers(ms) + rest, limit, |ms|) == PackedMembersOf(ms)
    decreases v, 0, |ms|
  {
    hide MsgPack.Decoded, DecodedKey, MessageRequests, PackedRequests, Encoded, StringBytes, Packed, Stored, Sized;
    hide Depth, UpToNul;
    if ms != [] {
      var key, tail := UpToNul(ms[0].key), EncodedMembers(ms[1..]) + rest;
      assert EncodedMembers(ms) + rest == StringBytes(key) + (Encoded(ms[0].value) + tail);
      StringRead(key, limit, Encoded(ms[0].value) + tail);
      RoundTrip(ms[0].value, limit, tail);
      EncodingRequested(ms[0].value, limit, tail);
      MembersRequestedOf(ms[1..], limit, rest, v);
    }
  }

  // ----- the room a message needs

  lemma {:induction false} PackedElementsNeed(vs: seq<Value>)
    requires forall k :: 0 <= k < |vs| ==>
      NoCompare(PackedRequests(vs[k])) && Need(PackedRequests(vs[k])) == Footprint(vs[k])
    ensures NoCompare(PackedElements(vs)) && Need(PackedElements(vs)) == Pools.SLOT_SIZE * |vs| + FootprintAll(vs)
    decreases |vs|
  {
    hide PackedRequests, Footprint, NoCompare, Need;
    if vs == [] {
      NothingRequested();
    } else {
      var rest := PackedElements(vs[1..]);
      PackedElementsNeed(vs[1..]);
      NeedConcat(PackedRequests(vs[0]), rest);
      NoneCompared(PackedRequests(vs[0]), rest);
      SlotNeed(PackedRequests(vs[0]) + rest);
      Regrouped([NewSlot], PackedRequests(vs[0]), rest);
    }
  }

  lemma {:induction false} PackedMembersNeed(ms: seq<Member>)
    requires forall k :: 0 <= k < |ms| ==> UpToNul(ms[k].key) == ms[k].key
    requires forall k :: 0 <= k < |ms| ==>
      NoCompare(PackedRequests(ms[k].value)) && Need(PackedRequests(ms[k].value)) == Footprint(ms[k].value)
    ensures NoCompare(PackedMembersOf(ms)) && Need(PackedMembersOf(ms)) == Pools.SLOT_SIZE * |ms| + FootprintMembers(ms)
    decreases |ms|
  {
    hide PackedRequests, Footprint, UpToNul, NoCompare, Need;
    if ms == [] {
      NothingRequested();
    } else {
      var m, rest := ms[0], PackedMembersOf(ms[1..]);
      PackedMembersNeed(ms[1..]);
      NeedConcat(PackedRequests(m.value), rest);
      NoneCompared(PackedRequests(m.value), rest);
      KeyNeed(m.key, PackedRequests(m.value) + rest);
      Regrouped([Keep(m.key), NewSlot], PackedRequests(m.value), rest);
    }
  }

  lemma {:induction false} PackedNeed(v: Value)
    requires NulFree(v)
    ensures NoCompare(PackedRequests(v)) && Need(PackedRequests(v)) == Footprint(v)
    decreases v
  {
    match v
    case Arr(vs) =>
      forall k | 0 <= k < |vs|
        ensures NoCompare(PackedRequests(vs[k])) && Need(PackedRequests(vs[k])) == Footprint(vs[k])
      {
        PackedNeed(vs[k]);
      }
      PackedElementsNeed(vs);
    case Obj(ms) =>
      forall k | 0 <= k < |ms|
        ensures UpToNul(ms[k].key) == ms[k].key
        ensures NoCompare(PackedRequests(ms[k].value)) && Need(PackedRequests(ms[k].value)) == Footprint(ms[k].value)
      {
        PackedNeed(ms[k].value);
      }
      PackedMembersNeed(ms);
    case Str(s) => assert [Keep(s)][1..] == []; assert Need([]) == 0;
    case _ =>
  }

  /** Encoding a value and decoding the message into a pool: what comes back of any value is known, and
      memory runs out exactly if the pool has less room than is asked for. For a value nested no deeper
      than the limit that is the room its strings, keys and slots need; if no key holds a NUL its
      footprint is always enough, also for objects with repeated keys. */
  lemma UnpackedExactly(p: Heap, v: Value, limit: nat, rest: string)
    requires !p.overflowed && Stored(v) && Sized(v)
    ensures var asked := MessageRequests(Encoded(v) + rest, limit);
            && Unpacked(p, Encoded(v) + rest, limit)
               == (if NeedBehind(Zone(p), asked) > Room(p) then Fail(NoMemory)
                   else if Depth(v) <= limit then Ok(Packed(v), rest) else Fail(TooDeep))
            && (Depth(v) <= limit ==> asked == PackedRequests(v))
    ensures Depth(v) <= limit && NulFree(v) && Footprint(v) <= Room(p) ==>
      var r := Unpacked(p, Encoded(v) + rest, limit); r.Ok? && Normal(r.value) == Normal(v) && r.rest == rest
  {
    hide MessageRequests, Encoded, Stored, Sized, Depth, NulFree, Packed, Normal, PackedRequests, NeedBehind, Footprint;
    hide Message, AllServed, Need;
    RoomExactly(p, MessageRequests(Encoded(v) + rest, limit));
    RoundTripExactly(v, limit, rest);
    if Depth(v) <= limit {
      EncodingRequested(v, limit, rest);
      if NulFree(v) {
        PackedNeed(v);
        NeedBounds(Zone(p), PackedRequests(v));
        MsgPack.KeptExactly(v);
      }
    }
  }
}
