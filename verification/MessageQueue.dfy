/** The server's message queue (pagers-server/main.cpp): pair and flash requests top up a pager's
    counters, and every turn of the main loop sends one message of each kind still owed. */
module MessageQueue {
  import opened Crc
  import opened Pagers
  import opened Protocol
  import opened Security

  const DEFAULT_MSG_COUNT: ushort := 5

  // ----- the queue as a value

  datatype Queue = Queue(pagers: map<ushort, PagerState>, sequence_number: ulonglong, sent: seq<Message>)

  /** A request parameter narrowed to the type of a device id or a flash time. */
  function Narrow(n: int): ushort
  {
    (n % 0x1_0000) as ushort
  }

  function NextSequence(n: ulonglong): ulonglong
  {
    if n == 0xFFFF_FFFF_FFFF_FFFF then 0 else n + 1
  }

  function Sent(q: Queue, id: ushort, kind: ushort, param: ushort): Queue
  {
    var n := NextSequence(q.sequence_number);
    q.(sequence_number := n, sent := q.sent + [Signed(Message(n, id, kind, param, 0))])
  }

  function FlashVisited(q: Queue, id: ushort): Queue
    requires id in q.pagers
  {
    var p := q.pagers[id];
    if p.flash_left > 0 then
      Sent(q, id, FLASH, p.flash_time).(pagers := q.pagers[id := p.(flash_left := p.flash_left - 1)])
    else q
  }

  function PairVisited(q: Queue, id: ushort): Queue
    requires id in q.pagers
  {
    var p := q.pagers[id];
    if p.pair_left > 0 then Sent(q, id, PAIR, 0).(pagers := q.pagers[id := p.(pair_left := p.pair_left - 1)])
    else q
  }

  function Visited(q: Queue, id: ushort): Queue
    requires id in q.pagers
  {
    PairVisited(FlashVisited(q, id), id)
  }

  predicate Known(q: Queue, ids: seq<ushort>)
  {
    forall i :: 0 <= i < |ids| ==> ids[i] in q.pagers
  }

  /** The queue after the round has visited the first n ids. */
  function RoundUpTo(q: Queue, ids: seq<ushort>, n: nat): (r: Queue)
    requires n <= |ids| && Known(q, ids)
    ensures Known(r, ids)
    decreases n
  {
    if n == 0 then q else Visited(RoundUpTo(q, ids, n - 1), ids[n - 1])
  }

  lemma KnownAt(q: Queue, ids: seq<ushort>, i: nat)
    requires Known(q, ids) && i < |ids|
    ensures ids[i] in q.pagers && ids[i] in RoundUpTo(q, ids, i).pagers
    ensures RoundUpTo(q, ids, i + 1) == Visited(RoundUpTo(q, ids, i), ids[i])
  {
  }

  lemma RoundStarts(q: Queue, ids: seq<ushort>)
    requires Known(q, ids)
    ensures RoundUpTo(q, ids, 0) == q
  {
  }

  lemma {:induction false} RoundKeepsPagers(q: Queue, ids: seq<ushort>, n: nat)
    requires n <= |ids| && Known(q, ids)
    ensures RoundUpTo(q, ids, n).pagers.Keys == q.pagers.Keys
    decreases n
  {
    if n != 0 {
      RoundKeepsPagers(q, ids, n - 1);
      var r := RoundUpTo(q, ids, n - 1);
      assert FlashVisited(r, ids[n - 1]).pagers.Keys == r.pagers.Keys;
    }
  }

  lemma RoundMeaning(q: Queue)
    ensures Round(q).pagers.Keys == q.pagers.Keys
    ensures Known(q, Ascending(q.pagers.Keys))
    ensures RoundUpTo(q, Ascending(q.pagers.Keys), 0) == q
    ensures Round(q) == RoundUpTo(q, Ascending(q.pagers.Keys), |Ascending(q.pagers.Keys)|)
  {
    AscendingContents(q.pagers.Keys);
    RoundKeepsPagers(q, Ascending(q.pagers.Keys), |Ascending(q.pagers.Keys)|);
  }

  /** One pass of send_messages over the map. */
  function Round(q: Queue): Queue
  {
    AscendingContents(q.pagers.Keys);
    RoundUpTo(q, Ascending(q.pagers.Keys), |Ascending(q.pagers.Keys)|)
  }

  function Paired(q: Queue, id: ushort, undefinedTime: ushort): Queue
  {
    var p := if id in q.pagers then q.pagers[id] else PagerState(0, 0, undefinedTime);
    q.(pagers := q.pagers[id := p.(pair_left := DEFAULT_MSG_COUNT as int)])
  }

  function Flashed(q: Queue, id: ushort, time: ushort): Queue
    requires id in q.pagers
  {
    q.(pagers := q.pagers[id := q.pagers[id].(flash_left := DEFAULT_MSG_COUNT as int, flash_time := time)])
  }

  lemma Overwritten(pagers: map<ushort, PagerState>, id: ushort, a: PagerState, b: PagerState)
    ensures pagers[id := a][id := b] == pagers[id := b]
  {
  }

  // ----- the server

  class PagersServer {
    const list: PagerList
    const crc: Crc16
    var sequence_number: ulonglong

    /** The frames handed to send_bytes. */
    var radio: seq<seq<byte>>

    /** The records they were made from. */
    ghost var sent: seq<Message>

    constructor (list: PagerList)
      requires list.Valid()
      ensures Valid() && this.list == list && sequence_number == 0 && sent == []
    {
      this.list := list;
      crc := new Crc16();
      sequence_number := 0;
      radio := [];
      sent := [];
    }

    ghost predicate Valid()
      reads this, list, list.pagers.Values, crc, crc.table
    {
      list.Valid() && crc.Valid() && radio == Frames(sent)
    }

    ghost function State(): Queue
      reads this, list, list.pagers.Values
    {
      Queue(list.State().pagers, sequence_number, sent)
    }

    method SendMessage(data: ProtoData)
      requires Valid()
      modifies this`sequence_number, this`radio, this`sent, crc, crc.table, data
      ensures Valid()
      ensures sequence_number == NextSequence(old(sequence_number))
      ensures sent == old(sent) + [Signed(old(data.Value()).(sequence_number := NextSequence(old(sequence_number))))]
    {
      sequence_number := NextSequence(sequence_number);
      data.sequence_number := sequence_number;
      var frame := new byte[PROTO_FRAME_SIZE];
      var r := data.ChecksumCalc(crc);
      r := ProtoEncrypt(data, frame);
      radio := radio + [frame[..]];
      sent := sent + [data.Value()];
    }

    method SendMessages()
      requires Valid()
      modifies this`sequence_number, this`radio, this`sent, crc, crc.table, list.pagers.Values
      ensures Valid() && State() == Round(old(State()))
    {
      ghost var q := State();
      assert q.pagers.Keys == list.pagers.Keys;
      var ids := Ascending(list.pagers.Keys);
      RoundMeaning(q);
      hide Ascending, Visited, Frame, Known, RoundUpTo, Round;
      for i := 0 to |ids|
        invariant Valid() && State() == RoundUpTo(q, ids, i)
      {
        KnownAt(q, ids, i);
        Visit(ids[i]);
      }
    }

    method Visit(id: ushort)
      requires Valid() && id in State().pagers
      modifies this`sequence_number, this`radio, this`sent, crc, crc.table, list.pagers.Values
      ensures Valid() && State() == Visited(old(State()), id)
    {
      VisitFlash(list.pagers[id]);
      VisitPair(list.pagers[id]);
    }

    method VisitFlash(pager: Pager)
      requires Valid() && pager.device_id in list.pagers && list.pagers[pager.device_id] == pager
      modifies this`sequence_number, this`radio, this`sent, crc, crc.table, pager
      ensures Valid() && State() == FlashVisited(old(State()), pager.device_id)
    {
      hide Signed, Frame, PagerList.State;
      list.StateKeys();
      list.StateAt(pager.device_id);
      if pager.flash_msgs_left > 0 {
        var data := new ProtoData(Message(0, pager.device_id, FLASH, pager.flash_time, 0));
        SendMessage(data);
        label sent:
        pager.FlashMsgSent();
        list.OnlyChanged@sent(pager);
      }
    }

    method VisitPair(pager: Pager)
      requires Valid() && pager.device_id in list.pagers && list.pagers[pager.device_id] == pager
      modifies this`sequence_number, this`radio, this`sent, crc, crc.table, pager
      ensures Valid() && State() == PairVisited(old(State()), pager.device_id)
    {
      hide Signed, Frame, PagerList.State;
      list.StateKeys();
      list.StateAt(pager.device_id);
      if pager.pair_msgs_left > 0 {
        var data := new ProtoData(Message(0, pager.device_id, PAIR, 0, 0));
        SendMessage(data);
        label sent:
        pager.PairMsgSent();
        list.OnlyChanged@sent(pager);
      }
    }

    /** /pagers/pair, with its id parameter: a new pager, or the known one again. */
    method HttpPagersPair(id: int, undefinedTime: ushort)
      requires Valid()
      modifies list, list.pagers.Values
      ensures Valid() && State() == Paired(old(State()), Narrow(id), undefinedTime)
    {
      if !list.PagerExists(Narrow(id)) {
        PairNew(Narrow(id), undefinedTime);
      } else {
        PairAgain(Narrow(id));
      }
    }

    method PairNew(id: ushort, undefinedTime: ushort)
      requires Valid() && id !in list.pagers
      modifies list
      ensures Valid() && State() == Paired(old(State()), id, undefinedTime)
    {
      hide Frame, Frames, Lines, PagerList.State;
      list.StateKeys();
      var pager := new Pager(id, undefinedTime);
      var added := list.AddPager(pager);
      label added:
      pager.SetPairMsgsLeft(DEFAULT_MSG_COUNT);
      list.OnlyChanged@added(pager);
      Overwritten(old(list.State()).pagers, id, PagerState(0, 0, undefinedTime), PagerState(0, 5, undefinedTime));
    }

    method PairAgain(id: ushort)
      requires Valid() && id in list.pagers
      modifies list.pagers.Values
      ensures Valid()
      ensures State() == old(State()).(pagers := old(State()).pagers[id := old(State()).pagers[id].(pair_left := 5)])
    {
      hide Frame, Frames;
      var pager := list.pagers[id];
      pager.SetPairMsgsLeft(DEFAULT_MSG_COUNT);
      list.OnlyChanged(pager);
    }

    /** /pagers/flash for a known pager. */
    method HttpPagersFlash(id: int, time: int)
      requires Valid() && Narrow(id) in list.pagers
      modifies list.pagers.Values
      ensures Valid() && State() == Flashed(old(State()), Narrow(id), Narrow(time))
    {
      var pager := list.pagers[Narrow(id)];
      pager.SetFlashMsgsLeft(DEFAULT_MSG_COUNT);
      pager.flash_time := Narrow(time);
    }

    /** /pagers/remove: what the pager was still owed is forgotten with it. */
    method HttpPagersRemove(id: int)
      requires Valid()
      modifies list
      ensures Valid() && State() == old(State()).(pagers := old(State()).pagers - {Narrow(id)})
    {
      var removed := list.RemovePager(Narrow(id));
    }
  }

  ghost function Frames(messages: seq<Message>): (frames: seq<seq<byte>>)
    ensures |frames| == |messages|
  {
    seq(|messages|, i requires 0 <= i < |messages| => Frame(messages[i]))
  }

  // ----- what every step keeps

  /** Counters never leave 0..5, and the last sequence number counts the messages sent. */
  ghost predicate Inv(q: Queue)
  {
    && (forall id :: id in q.pagers ==> 0 <= q.pagers[id].flash_left <= 5 && 0 <= q.pagers[id].pair_left <= 5)
    && q.sequence_number as int == |q.sent| % 0x1_0000_0000_0000_0000
    && AllValid(q.sent)
  }

  /** Sequence numbers are 1, 2, 3, ... modulo 2^64. */
  predicate Numbered(sent: seq<Message>, k: nat)
    requires k < |sent|
  {
    sent[k].sequence_number as int == (k + 1) % 0x1_0000_0000_0000_0000
  }

  ghost predicate AllValid(sent: seq<Message>)
  {
    forall k :: 0 <= k < |sent| ==> Numbered(sent, k) && ChecksumHolds(sent[k])
  }

  lemma ValidAppend(sent: seq<Message>, m: Message)
    requires AllValid(sent) && ChecksumHolds(m)
    requires m.sequence_number as int == (|sent| + 1) % 0x1_0000_0000_0000_0000
    ensures AllValid(sent + [m])
  {
    hide ChecksumHolds;
    forall k | 0 <= k < |sent + [m]|
      ensures Numbered(sent + [m], k) && ChecksumHolds((sent + [m])[k])
    {
      if k < |sent| {
        assert Numbered(sent, k);
      }
    }
  }

  lemma NextNumber(n: ulonglong, count: nat)
    requires n as int == count % 0x1_0000_0000_0000_0000
    ensures NextSequence(n) as int == (count + 1) % 0x1_0000_0000_0000_0000
  {
  }

  lemma SentKeepsInv(q: Queue, id: ushort, kind: ushort, param: ushort)
    requires Inv(q)
    ensures Inv(Sent(q, id, kind, param))
  {
    var m := Message(NextSequence(q.sequence_number), id, kind, param, 0);
    SignedHolds(m);
    assert Signed(m).sequence_number == m.sequence_number;
    NextNumber(q.sequence_number, |q.sent|);
    hide ChecksumHolds, AllValid, Signed, NextSequence;
    ValidAppend(q.sent, Signed(m));
  }

  lemma VisitedKeepsInv(q: Queue, id: ushort)
    requires Inv(q) && id in q.pagers
    ensures Inv(Visited(q, id))
  {
    hide AllValid, Signed;
    var p := q.pagers[id];
    SentKeepsInv(q, id, FLASH, p.flash_time);
    SentKeepsInv(FlashVisited(q, id), id, PAIR, 0);
  }

  lemma {:induction false} RoundKeepsInv(q: Queue, ids: seq<ushort>, n: nat)
    requires Inv(q) && n <= |ids| && Known(q, ids)
    ensures Inv(RoundUpTo(q, ids, n))
    decreases n
  {
    hide Inv, Visited;
    if n != 0 {
      RoundKeepsInv(q, ids, n - 1);
      VisitedKeepsInv(RoundUpTo(q, ids, n - 1), ids[n - 1]);
    }
  }

  // ----- runs of requests and rounds

  datatype Event =
    | PairRequest(id: int, undefinedTime: ushort)
    | FlashRequest(id: int, time: int)
    | RemoveRequest(id: int)
    | SendRound

  /** A flash request dereferences the pager it names, so that pager must be known. */
  predicate Applicable(e: Event, q: Queue)
  {
    e.FlashRequest? ==> Narrow(e.id) in q.pagers
  }

  function After(q: Queue, e: Event): Queue
    requires Applicable(e, q)
  {
    match e
    case PairRequest(id, undefinedTime) => Paired(q, Narrow(id), undefinedTime)
    case FlashRequest(id, time) => Flashed(q, Narrow(id), Narrow(time))
    case RemoveRequest(id) => q.(pagers := q.pagers - {Narrow(id)})
    case SendRound => Round(q)
  }

  ghost predicate Run(qs: seq<Queue>, events: seq<Event>)
  {
    |qs| == |events| + 1 &&
    forall i :: 0 <= i < |events| ==> Applicable(events[i], qs[i]) && qs[i + 1] == After(qs[i], events[i])
  }

  lemma AfterKeepsInv(q: Queue, e: Event)
    requires Inv(q) && Applicable(e, q)
    ensures Inv(After(q, e))
  {
    hide AllValid;
    if e.SendRound? {
      RoundMeaning(q);
      RoundKeepsInv(q, Ascending(q.pagers.Keys), |Ascending(q.pagers.Keys)|);
    }
  }

  /** From an empty history, over every run: the k-th message carries sequence number k modulo
      2^64 and a valid checksum, and every counter stays within 0..5. */
  lemma {:induction false} RunKeepsInv(qs: seq<Queue>, events: seq<Event>, i: nat)
    requires Run(qs, events) && Inv(qs[0]) && i < |qs|
    ensures Inv(qs[i])
    decreases i
  {
    if i != 0 {
      RunKeepsInv(qs, events, i - 1);
      AfterKeepsInv(qs[i - 1], events[i - 1]);
      assert qs[i - 1 + 1] == After(qs[i - 1], events[i - 1]);
    }
  }

  // ----- conservation

  function SentCount(sent: seq<Message>, id: ushort, kind: ushort): nat
    decreases |sent|
  {
    if sent == [] then 0
    else
      var m := sent[|sent| - 1];
      SentCount(sent[..|sent| - 1], id, kind) + if m.receiver_id == id && m.message_type == kind then 1 else 0
  }

  /** Messages of a kind still owed to a pager; none to one that is not in the list. */
  function Left(q: Queue, id: ushort, kind: ushort): int
  {
    if id !in q.pagers then 0
    else if kind == FLASH then q.pagers[id].flash_left
    else if kind == PAIR then q.pagers[id].pair_left
    else 0
  }

  function Owed(q: Queue, id: ushort, kind: ushort): int
  {
    SentCount(q.sent, id, kind) + Left(q, id, kind)
  }

  /** What an event adds to the messages owed or sent: a request tops its counter up to five, a
      removal forgets what was left. */
  function Granted(q: Queue, e: Event, id: ushort, kind: ushort): int
  {
    match e
    case PairRequest(n, _) => if Narrow(n) == id && kind == PAIR then 5 - Left(q, id, PAIR) else 0
    case FlashRequest(n, _) => if Narrow(n) == id && kind == FLASH then 5 - Left(q, id, FLASH) else 0
    case RemoveRequest(n) => if Narrow(n) == id then -Left(q, id, kind) else 0
    case SendRound => 0
  }

  function TotalGranted(qs: seq<Queue>, events: seq<Event>, id: ushort, kind: ushort, i: nat): int
    requires i <= |events| && i <= |qs|
    decreases i
  {
    if i == 0 then 0
    else TotalGranted(qs, events, id, kind, i - 1) + Granted(qs[i - 1], events[i - 1], id, kind)
  }

  lemma SentOwed(q: Queue, to: ushort, sort: ushort, param: ushort, id: ushort, kind: ushort)
    ensures SentCount(Sent(q, to, sort, param).sent, id, kind)
      == SentCount(q.sent, id, kind) + if to == id && sort == kind then 1 else 0
  {
    var r := Sent(q, to, sort, param);
    assert r.sent[..|q.sent|] == q.sent;
  }

  lemma VisitedOwed(q: Queue, to: ushort, id: ushort, kind: ushort)
    requires to in q.pagers
    ensures Owed(Visited(q, to), id, kind) == Owed(q, id, kind)
  {
    hide Signed, SentCount;
    var p, r := q.pagers[to], FlashVisited(q, to);
    SentOwed(q, to, FLASH, p.flash_time, id, kind);
    SentOwed(r, to, PAIR, 0, id, kind);
  }

  lemma {:induction false} RoundOwed(q: Queue, ids: seq<ushort>, n: nat, id: ushort, kind: ushort)
    requires n <= |ids| && Known(q, ids)
    ensures Owed(RoundUpTo(q, ids, n), id, kind) == Owed(q, id, kind)
    decreases n
  {
    hide Owed, Visited;
    if n != 0 {
      RoundOwed(q, ids, n - 1, id, kind);
      VisitedOwed(RoundUpTo(q, ids, n - 1), ids[n - 1], id, kind);
    }
  }

  lemma AfterOwed(q: Queue, e: Event, id: ushort, kind: ushort)
    requires Applicable(e, q)
    ensures Owed(After(q, e), id, kind) == Owed(q, id, kind) + Granted(q, e, id, kind)
  {
    if e.SendRound? {
      hide Owed;
      RoundMeaning(q);
      RoundOwed(q, Ascending(q.pagers.Keys), |Ascending(q.pagers.Keys)|, id, kind);
    }
  }

  /** Nothing is lost or sent twice: for every pager and kind, messages sent plus messages left
      grow exactly by what the requests grant. */
  lemma {:induction false} Conservation(qs: seq<Queue>, events: seq<Event>, id: ushort, kind: ushort, i: nat)
    requires Run(qs, events) && i < |qs|
    ensures Owed(qs[i], id, kind) == Owed(qs[0], id, kind) + TotalGranted(qs, events, id, kind, i)
    decreases i
  {
    if i != 0 {
      hide Owed, Granted, After;
      Conservation(qs, events, id, kind, i - 1);
      AfterOwed(qs[i - 1], events[i - 1], id, kind);
      assert qs[i - 1 + 1] == After(qs[i - 1], events[i - 1]);
    }
  }

  // ----- quiescence

  function Less(n: int): int
  {
    if n > 0 then n - 1 else n
  }

  ghost predicate Decremented(p: PagerState, q: PagerState)
  {
    q.flash_left == Less(p.flash_left) && q.pair_left == Less(p.pair_left)
  }

  lemma VisitedPager(q: Queue, to: ushort, id: ushort)
    requires to in q.pagers && id in q.pagers
    ensures id in Visited(q, to).pagers
    ensures id == to ==> Decremented(q.pagers[id], Visited(q, to).pagers[id])
    ensures id != to ==> Visited(q, to).pagers[id] == q.pagers[id]
  {
  }

  predicate Increasing(ids: seq<ushort>)
  {
    forall i, j :: 0 <= i < j < |ids| ==> ids[i] < ids[j]
  }

  lemma LastIsNew(ids: seq<ushort>, n: nat, id: ushort)
    requires Increasing(ids) && 0 < n <= |ids|
    ensures id in ids[..n] <==> id == ids[n - 1] || id in ids[..n - 1]
    ensures ids[n - 1] !in ids[..n - 1]
  {
    assert ids[..n] == ids[..n - 1] + [ids[n - 1]];
  }

  /** Between q and r, the pager id was visited once if it is among the first n ids, and not at all otherwise. */
  ghost predicate Took(q: Queue, r: Queue, ids: seq<ushort>, n: nat, id: ushort)
    requires n <= |ids| && id in q.pagers
  {
    id in r.pagers && if id in ids[..n] then Decremented(q.pagers[id], r.pagers[id]) else r.pagers[id] == q.pagers[id]
  }

  lemma TookOneMore(q: Queue, r: Queue, ids: seq<ushort>, n: nat, id: ushort)
    requires 0 < n <= |ids| && Increasing(ids) && id in q.pagers && ids[n - 1] in r.pagers && Took(q, r, ids, n - 1, id)
    ensures Took(q, Visited(r, ids[n - 1]), ids, n, id)
  {
    LastIsNew(ids, n, id);
    VisitedPager(r, ids[n - 1], id);
    hide Visited, Increasing, Decremented;
  }

  lemma TookNone(q: Queue, ids: seq<ushort>, id: ushort)
    requires id in q.pagers
    ensures Took(q, q, ids, 0, id)
  {
  }

  lemma {:induction false} RoundDecrements(q: Queue, ids: seq<ushort>, n: nat, id: ushort)
    requires n <= |ids| && Known(q, ids) && Increasing(ids) && id in q.pagers
    ensures Took(q, RoundUpTo(q, ids, n), ids, n, id)
    decreases n
  {
    hide *;
    if n == 0 {
      RoundStarts(q, ids);
      TookNone(q, ids, id);
    } else {
      RoundDecrements(q, ids, n - 1, id);
      KnownAt(q, ids, n - 1);
      TookOneMore(q, RoundUpTo(q, ids, n - 1), ids, n, id);
    }
  }

  /** A round takes one from every positive counter. */
  lemma RoundDecrementsAll(q: Queue, id: ushort)
    requires id in q.pagers
    ensures Round(q).pagers.Keys == q.pagers.Keys && Decremented(q.pagers[id], Round(q).pagers[id])
  {
    var ids := Ascending(q.pagers.Keys);
    RoundMeaning(q);
    AscendingContents(q.pagers.Keys);
    hide Ascending, Decremented, Visited;
    assert ids[..|ids|] == ids;
    RoundDecrements(q, ids, |ids|, id);
  }

  /** The order of a round on the air: ascending ids, and for one pager flash before pair. */
  predicate GoesBefore(m: Message, n: Message)
  {
    m.receiver_id < n.receiver_id
    || (m.receiver_id == n.receiver_id && m.message_type == FLASH && n.message_type == PAIR)
  }

  ghost predicate InOrder(messages: seq<Message>)
  {
    forall i, j :: 0 <= i < j < |messages| ==> GoesBefore(messages[i], messages[j])
  }

  /** What visiting one pager sends: at most one message of each kind, flash first. */
  lemma VisitedSends(q: Queue, id: ushort) returns (new_messages: seq<Message>)
    requires id in q.pagers
    ensures Visited(q, id).sent == q.sent + new_messages && InOrder(new_messages)
    ensures AllTo(new_messages, id)
    ensures (exists m :: m in new_messages && m.message_type == FLASH) <==> q.pagers[id].flash_left > 0
    ensures (exists m :: m in new_messages && m.message_type == PAIR) <==> q.pagers[id].pair_left > 0
    ensures forall m :: m in new_messages && m.message_type == FLASH ==> m.message_param == q.pagers[id].flash_time
  {
    var p, f := q.pagers[id], FlashVisited(q, id);
    var n := NextSequence(q.sequence_number);
    var flash := Signed(Message(n, id, FLASH, p.flash_time, 0));
    var pair := Signed(Message(NextSequence(f.sequence_number), id, PAIR, 0, 0));
    new_messages := (if p.flash_left > 0 then [flash] else []) + (if p.pair_left > 0 then [pair] else []);
    assert flash.message_type == FLASH && pair.message_type == PAIR;
    if p.flash_left > 0 {
      assert new_messages[0] == flash;
    }
    if p.pair_left > 0 {
      assert new_messages[|new_messages| - 1] == pair;
    }
  }

  ghost predicate AllTo(messages: seq<Message>, id: ushort)
  {
    forall i :: 0 <= i < |messages| ==> messages[i].receiver_id == id
  }

  ghost predicate AllBelow(messages: seq<Message>, id: ushort)
  {
    forall i :: 0 <= i < |messages| ==> messages[i].receiver_id < id
  }

  lemma NothingInOrder()
    ensures InOrder([])
  {
  }

  lemma NothingBelow(id: ushort)
    ensures AllBelow([], id)
  {
  }

  lemma NextIsLarger(ids: seq<ushort>, n: nat)
    requires Increasing(ids) && 0 < n < |ids|
    ensures ids[n - 1] < ids[n]
  {
  }

  lemma {:induction false} RoundSends(q: Queue, ids: seq<ushort>, n: nat) returns (new_messages: seq<Message>)
    requires n <= |ids| && Known(q, ids) && Increasing(ids)
    ensures RoundUpTo(q, ids, n).sent == q.sent + new_messages && InOrder(new_messages)
    ensures n < |ids| ==> AllBelow(new_messages, ids[n])
    decreases n
  {
    hide *;
    new_messages := [];
    if n == 0 {
      RoundStarts(q, ids);
      NothingInOrder();
      if n < |ids| {
        NothingBelow(ids[n]);
      }
    } else {
      var earlier := RoundSends(q, ids, n - 1);
      KnownAt(q, ids, n - 1);
      var latest := VisitedSends(RoundUpTo(q, ids, n - 1), ids[n - 1]);
      new_messages := SendsConcat(q.sent, earlier, latest, ids[n - 1]);
      if n < |ids| {
        NextIsLarger(ids, n);
        BelowConcat(earlier, latest, ids[n - 1], ids[n]);
      }
    }
  }

  lemma SendsConcat(sent: seq<Message>, a: seq<Message>, b: seq<Message>, id: ushort) returns (both: seq<Message>)
    requires InOrder(a) && InOrder(b) && AllBelow(a, id) && AllTo(b, id)
    ensures both == a + b && InOrder(both) && sent + both == sent + a + b
  {
    both := a + b;
    OrderConcat(a, b, id);
    assert sent + both == sent + a + b;
  }

  lemma BelowConcat(a: seq<Message>, b: seq<Message>, id: ushort, next: ushort)
    requires AllBelow(a, id) && AllTo(b, id) && id < next
    ensures AllBelow(a + b, next)
  {
    forall i | 0 <= i < |a + b|
      ensures (a + b)[i].receiver_id < next
    {
      if i < |a| {
        assert (a + b)[i] == a[i];
      } else {
        assert (a + b)[i] == b[i - |a|];
      }
    }
  }

  lemma OrderConcat(a: seq<Message>, b: seq<Message>, id: ushort)
    requires InOrder(a) && InOrder(b) && AllBelow(a, id) && AllTo(b, id)
    ensures InOrder(a + b)
  {
    forall i, j | 0 <= i < j < |a + b|
      ensures GoesBefore((a + b)[i], (a + b)[j])
    {
    }
  }

  lemma RoundGoesInOrder(q: Queue)
    ensures |q.sent| <= |Round(q).sent| && Round(q).sent[..|q.sent|] == q.sent && InOrder(Round(q).sent[|q.sent|..])
  {
    var ids := Ascending(q.pagers.Keys);
    RoundMeaning(q);
    AscendingContents(q.pagers.Keys);
    hide Ascending, InOrder, Visited;
    var new_messages := RoundSends(q, ids, |ids|);
    assert (q.sent + new_messages)[|q.sent|..] == new_messages;
  }

  function Rounds(q: Queue, n: nat): Queue
    decreases n
  {
    if n == 0 then q else Round(Rounds(q, n - 1))
  }

  ghost predicate Quiet(q: Queue)
  {
    forall id :: id in q.pagers ==> q.pagers[id].flash_left <= 0 && q.pagers[id].pair_left <= 0
  }

  /** r is what n rounds leave of p. */
  ghost predicate CountedDown(p: PagerState, r: PagerState, n: nat)
  {
    && r.flash_left == (if n < p.flash_left then p.flash_left - n else 0)
    && r.pair_left == (if n < p.pair_left then p.pair_left - n else 0)
  }

  lemma CountedDownOneMore(p: PagerState, m: PagerState, r: PagerState, n: nat)
    requires 0 < n && CountedDown(p, m, n - 1) && Decremented(m, r)
    ensures CountedDown(p, r, n)
  {
  }

  lemma RoundsMeaning(q: Queue, n: nat)
    ensures Rounds(q, n) == if n == 0 then q else Round(Rounds(q, n - 1))
  {
    hide Round;
  }

  lemma CountedDownNone(q: Queue, id: ushort)
    requires Inv(q) && id in q.pagers
    ensures CountedDown(q.pagers[id], q.pagers[id], 0)
  {
    assert 0 <= q.pagers[id].flash_left;
  }

  lemma {:induction false} RoundsCountDown(q: Queue, n: nat, id: ushort)
    requires Inv(q) && id in q.pagers
    ensures Rounds(q, n).pagers.Keys == q.pagers.Keys
    ensures CountedDown(q.pagers[id], Rounds(q, n).pagers[id], n)
    decreases n
  {
    hide *;
    RoundsMeaning(q, n);
    if n == 0 {
      CountedDownNone(q, id);
    } else {
      RoundsCountDown(q, n - 1, id);
      RoundDecrementsAll(Rounds(q, n - 1), id);
      CountedDownOneMore(q.pagers[id], Rounds(q, n - 1).pagers[id], Rounds(q, n).pagers[id], n);
    }
  }

  /** Without new requests, five rounds always empty the queue, and a quiet queue sends nothing
      more: its next round changes nothing at all. */
  lemma FiveRoundsQuiesce(q: Queue)
    requires Inv(q)
    ensures Quiet(Rounds(q, 5)) && Round(Rounds(q, 5)) == Rounds(q, 5)
  {
    hide Round;
    var r := Rounds(q, 5);
    if q.pagers.Keys != {} {
      var some :| some in q.pagers;
      RoundsCountDown(q, 5, some);
    } else {
      RoundsKeepKeys(q, 5);
    }
    forall id | id in r.pagers
      ensures r.pagers[id].flash_left <= 0 && r.pagers[id].pair_left <= 0
    {
      RoundsCountDown(q, 5, id);
    }
    QuietRound(r);
  }

  lemma {:induction false} RoundsKeepKeys(q: Queue, n: nat)
    ensures Rounds(q, n).pagers.Keys == q.pagers.Keys
    decreases n
  {
    hide *;
    RoundsMeaning(q, n);
    if n != 0 {
      RoundsKeepKeys(q, n - 1);
      RoundMeaning(Rounds(q, n - 1));
    }
  }

  lemma {:induction false} QuietRoundUpTo(q: Queue, ids: seq<ushort>, n: nat)
    requires Quiet(q) && n <= |ids| && Known(q, ids)
    ensures RoundUpTo(q, ids, n) == q
    decreases n
  {
    if n != 0 {
      QuietRoundUpTo(q, ids, n - 1);
    }
  }

  lemma QuietRound(q: Queue)
    requires Quiet(q)
    ensures Round(q) == q
  {
    RoundMeaning(q);
    QuietRoundUpTo(q, Ascending(q.pagers.Keys), |Ascending(q.pagers.Keys)|);
  }

  // ----- what the messages say

  /** The flash time last asked for among the first events: of the last flash request with an id that is
      this one modulo 2^16, its time modulo 2^16; before any, what the pager had. -1 if there is none. */
  function Asked(q: Queue, events: seq<Event>, n: nat, id: ushort): int
    requires n <= |events|
    decreases n
  {
    if n == 0 then if id in q.pagers then q.pagers[id].flash_time as int else -1
    else if events[n - 1].FlashRequest? && events[n - 1].id % 0x1_0000 == id as int then events[n - 1].time % 0x1_0000
    else Asked(q, events, n - 1, id)
  }

  /** A message a round owes: a flash message with the time of its pager, or a pair message. */
  predicate Due(q: Queue, m: Message)
  {
    && m.receiver_id in q.pagers
    && var p := q.pagers[m.receiver_id];
       || (m.message_type == 0xBBDD && p.flash_left > 0 && m.message_param == p.flash_time)
       || (m.message_type == 0xBDBD && p.pair_left > 0 && m.message_param == 0)
  }

  ghost predicate AllDue(q: Queue, sent: seq<Message>)
  {
    |q.sent| <= |sent| && q.sent == sent[..|q.sent|] && forall k :: |q.sent| <= k < |sent| ==> Due(q, sent[k])
  }

  lemma VisitedDue(q: Queue, r: Queue, id: ushort)
    requires AllDue(q, r.sent) && id in q.pagers && id in r.pagers && r.pagers[id] == q.pagers[id]
    ensures AllDue(q, Visited(r, id).sent)
  {
  }

  lemma NothingSent(q: Queue)
    ensures AllDue(q, q.sent)
  {
  }

  lemma NotYet(q: Queue, r: Queue, ids: seq<ushort>, n: nat)
    requires n < |ids| && Increasing(ids) && ids[n] in q.pagers && Took(q, r, ids, n, ids[n])
    ensures ids[n] in r.pagers && r.pagers[ids[n]] == q.pagers[ids[n]]
  {
  }

  lemma {:induction false} RoundDue(q: Queue, ids: seq<ushort>, n: nat)
    requires n <= |ids| && Known(q, ids) && Increasing(ids)
    ensures AllDue(q, RoundUpTo(q, ids, n).sent)
    decreases n
  {
    hide *;
    if n == 0 {
      RoundStarts(q, ids);
      NothingSent(q);
    } else {
      RoundDue(q, ids, n - 1);
      KnownAt(q, ids, n - 1);
      RoundDecrements(q, ids, n - 1, ids[n - 1]);
      NotYet(q, RoundUpTo(q, ids, n - 1), ids, n - 1);
      VisitedDue(q, RoundUpTo(q, ids, n - 1), ids[n - 1]);
    }
  }

  ghost predicate SameTimes(q: Queue, r: Queue)
  {
    forall id :: id in r.pagers ==>
      id in q.pagers && r.pagers[id].flash_time == q.pagers[id].flash_time
        && r.pagers[id].flash_left <= q.pagers[id].flash_left
  }

  lemma VisitedTimes(q: Queue, r: Queue, id: ushort)
    requires SameTimes(q, r) && id in r.pagers
    ensures SameTimes(q, Visited(r, id))
  {
    hide Signed;
  }

  lemma {:induction false} RoundTimes(q: Queue, ids: seq<ushort>, n: nat)
    requires n <= |ids| && Known(q, ids)
    ensures SameTimes(q, RoundUpTo(q, ids, n))
    decreases n
  {
    hide Visited;
    if n != 0 {
      RoundTimes(q, ids, n - 1);
      VisitedTimes(q, RoundUpTo(q, ids, n - 1), ids[n - 1]);
    }
  }

  /** Whoever is owed a flash message is owed one with the time last asked for. */
  ghost predicate TimesAsked(qs: seq<Queue>, events: seq<Event>, n: nat)
    requires n <= |events| && n < |qs|
  {
    forall id :: id in qs[n].pagers && qs[n].pagers[id].flash_left > 0 ==>
      qs[n].pagers[id].flash_time as int == Asked(qs[0], events, n, id)
  }

  lemma RoundSummary(q: Queue)
    ensures AllDue(q, Round(q).sent) && SameTimes(q, Round(q))
  {
    var ids := Ascending(q.pagers.Keys);
    RoundMeaning(q);
    AscendingContents(q.pagers.Keys);
    hide Ascending, AllDue, SameTimes, Visited;
    RoundDue(q, ids, |ids|);
    RoundTimes(q, ids, |ids|);
  }

  lemma {:induction false} TimesStayAsked(qs: seq<Queue>, events: seq<Event>, n: nat)
    requires Run(qs, events) && n <= |events|
    ensures TimesAsked(qs, events, n)
    decreases n
  {
    hide Round;
    if n != 0 {
      TimesStayAsked(qs, events, n - 1);
      assert qs[n - 1 + 1] == After(qs[n - 1], events[n - 1]);
      RoundSummary(qs[n - 1]);
    }
  }

  /** What an event sends is due, and only a round sends. */
  lemma AfterDue(q: Queue, e: Event)
    requires Applicable(e, q)
    ensures AllDue(q, After(q, e).sent)
    ensures e != SendRound ==> After(q, e).sent == q.sent
  {
    hide Round;
    RoundSummary(q);
  }

  /** A message says what was asked for when its round began: a flash message the time last asked for
      its pager, a pair message nothing. */
  predicate SaysAsked(q: Queue, events: seq<Event>, n: nat, m: Message)
    requires n <= |events|
  {
    if m.message_type == 0xBBDD then m.message_param as int == Asked(q, events, n, m.receiver_id)
    else m.message_type == 0xBDBD && m.message_param == 0
  }

  /** Message k was sent by event i. */
  ghost predicate SentBy(qs: seq<Queue>, events: seq<Event>, i: nat, k: nat)
  {
    i < |events| && i + 1 < |qs| && events[i] == SendRound && |qs[i].sent| <= k < |qs[i + 1].sent|
  }

  /** Message k, which is m, was sent by one of the first n events, and says what was asked for then. */
  ghost predicate SaysItsPart(qs: seq<Queue>, events: seq<Event>, n: nat, k: nat, m: Message)
    requires n <= |events|
  {
    exists i: nat :: i < n && SentBy(qs, events, i, k) && SaysAsked(qs[0], events, i, m)
  }

  /** Over every run: each message was sent by a round, and says what was asked for before that round. */
  lemma {:induction false} MessagesSayAsked(qs: seq<Queue>, events: seq<Event>, n: nat, k: nat)
    requires Run(qs, events) && n <= |events| && |qs[0].sent| <= k < |qs[n].sent|
    ensures SaysItsPart(qs, events, n, k, qs[n].sent[k])
    decreases n
  {
    hide After, SaysAsked, AllDue;
    if n != 0 {
      var q := qs[n - 1];
      assert qs[n - 1 + 1] == After(q, events[n - 1]);
      AfterDue(q, events[n - 1]);
      if k < |q.sent| {
        MessagesSayAsked(qs, events, n - 1, k);
        SentKept(q, qs[n].sent, k);
      } else {
        TimesStayAsked(qs, events, n - 1);
        DueSaysAsked(qs, events, n - 1, qs[n].sent, k);
        assert SentBy(qs, events, n - 1, k);
      }
    }
  }

  lemma SentKept(q: Queue, sent: seq<Message>, k: nat)
    requires AllDue(q, sent) && k < |q.sent|
    ensures k < |sent| && sent[k] == q.sent[k]
  {
  }

  lemma DueSaysAsked(qs: seq<Queue>, events: seq<Event>, n: nat, sent: seq<Message>, k: nat)
    requires n <= |events| && n < |qs| && TimesAsked(qs, events, n) && AllDue(qs[n], sent)
    requires |qs[n].sent| <= k < |sent|
    ensures SaysAsked(qs[0], events, n, sent[k])
  {
    assert Due(qs[n], sent[k]);
  }
}
