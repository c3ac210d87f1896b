/** The whole radio link: records queued by the server, signed, encrypted, sent bit by bit,
    received, decrypted and verified. */
module Link {
  import opened Crc
  import opened MessageQueue
  import opened Physical
  import opened Protocol
  import opened Reception
  import opened Security
  import Client
  import Pagers
  import Transmission

  lemma FramesSendable(messages: seq<Message>)
    ensures Transmission.Sendable(Frames(messages))
  {
    hide Frame;
  }

  lemma {:induction false} FramesFit(frames: seq<seq<byte>>)
    requires AllFrames(frames)
    ensures Fitting(frames) == frames
    decreases |frames|
  {
    if frames != [] {
      var n := |frames| - 1;
      FramesFit(frames[..n]);
      assert frames == frames[..n] + [frames[n]];
    }
  }

  predicate AllFrames(frames: seq<seq<byte>>)
  {
    forall i :: 0 <= i < |frames| ==> |frames[i]| == PROTO_FRAME_SIZE
  }

  ghost function AllDecoded(frames: seq<seq<byte>>): (messages: seq<Message>)
    requires AllFrames(frames)
    ensures |messages| == |frames|
  {
    seq(|frames|, i requires 0 <= i < |frames| => Decoded(frames[i]))
  }

  lemma AllFramesDecode(messages: seq<Message>)
    ensures AllFrames(Frames(messages))
    ensures AllDecoded(Frames(messages)) == messages
  {
    hide Decoded, Frame;
    forall i | 0 <= i < |messages|
      ensures AllDecoded(Frames(messages))[i] == messages[i]
    {
      FrameRoundTrip(messages[i]);
    }
  }

  /** What the sender puts on the air is apart enough for every jitter that is steady. */
  lemma OnTheAir(messages: seq<seq<byte>>, run: seq<Transmission.System>, i: nat, t: Timing)
    requires Transmission.Sendable(messages) && Transmission.Run(run, messages) && i < |run| && Steady(t)
    ensures Separated(run[i].blocks, t) && Transmission.OnAir(run[i])
    ensures Transmission.Messages(run[i].blocks) + run[i].todo == messages
    ensures Transmission.Sendable(Transmission.Messages(run[i].blocks))
  {
    var blocks := run[i].blocks;
    Transmission.EmittedLevels(run, messages, i);
    SpacedSeparates(blocks, t);
    forall k | 0 <= k < |blocks|
      ensures 1 <= |Transmission.Messages(blocks)[k]| <= BYTE_BUFFER_SIZE
    {
      assert Transmission.Messages(blocks)[k] == messages[k];
    }
  }

  /** The messages of the first blocks. */
  lemma FirstBlocks(messages: seq<seq<byte>>, blocks: seq<Transmission.Block>, todo: seq<seq<byte>>)
    requires Transmission.Messages(blocks) + todo == messages
    ensures |blocks| <= |messages| && Transmission.Messages(blocks) == messages[..|blocks|]
    ensures 0 < |blocks| ==> Transmission.Messages(blocks[..|blocks| - 1]) == messages[..|blocks| - 1]
  {
    assert Transmission.Messages(blocks) == messages[..|blocks|];
    if 0 < |blocks| {
      assert Transmission.Messages(blocks[..|blocks| - 1]) == messages[..|blocks| - 1];
    }
  }

  /** Some of the last block's message is on the air. */
  ghost predicate MidMessage(s: Transmission.System, before: seq<Transmission.Block>, b: Transmission.Block)
  {
    var j := Transmission.Played(s.tx);
    && s.blocks == before + [b] && j <= 8 * |b.message|
    && s.air == Transmission.Levels(before) + Transmission.Quiet(b.gap) + Transmission.MessageLevels(b.message)[..j]
  }

  lemma OnAirParts(s: Transmission.System)
    requires Transmission.OnAir(s)
    ensures !s.tx.transfer ==> s.air == Transmission.Levels(s.blocks) + Transmission.Quiet(s.quiet)
    ensures s.tx.transfer ==> s.blocks != [] && MidMessage(s, s.blocks[..|s.blocks| - 1], s.blocks[|s.blocks| - 1])
  {
    hide Transmission.Levels, Transmission.MessageLevels, Transmission.Quiet;
  }

  /** At any moment of any interleaving of the sender with its interrupts, whatever the receiver's
      buffer held, pulses and edges within their tolerances: the callback has seen, in order, every
      message started so far that it has room for, the last one excepted as long as it is on the air
      or not enough silence has followed. */
  lemma HeardSoFar(messages: seq<seq<byte>>, run: seq<Transmission.System>, i: nat, r: Rx, edges: seq<Edge>, t: Timing)
    requires Transmission.Sendable(messages) && Transmission.Run(run, messages) && i < |run| && Steady(t)
    requires RxInRange(r) && BetweenFrames(r) && Audible(run[i].air, edges, t)
    ensures var n, heard := |run[i].blocks|, Listen(r, edges, |edges|).messages;
            n <= |messages| && (heard == Fitting(messages[..n]) || (0 < n && heard == Fitting(messages[..n - 1])))
    ensures !run[i].tx.transfer && EndsFrame(run[i].quiet, t) ==>
              Listen(r, edges, |edges|).messages == Fitting(messages[..|run[i].blocks|])
  {
    hide Transmission.Run, Transmission.OnAir, Transmission.Levels, Transmission.MessageLevels, Transmission.Messages;
    hide Audible, Listen, Fitting, Separated, BetweenFrames, EndsFrame, Steady, RxInRange, Transmission.Sendable;
    var s, n := run[i], |run[i].blocks|;
    OnTheAir(messages, run, i, t);
    OnAirParts(s);
    FirstBlocks(messages, s.blocks, s.todo);
    if !s.tx.transfer {
      QuietSoFar(r, edges, t, s.blocks, s.quiet);
      if EndsFrame(s.quiet, t) {
        MessagesDelivered(r, edges, t, s.blocks, s.quiet);
      }
    } else {
      MidwaySoFar(r, edges, t, s.blocks[..n - 1], s.blocks[n - 1], Transmission.Played(s.tx));
    }
  }

  /** Over every run, at any moment: the records decrypted from what the callback has seen are the
      first of those sent, with all their fields, and at most one that was started is missing. Once
      everything has been sent and enough silence has followed, none is. */
  lemma RecordsArrive(messages: seq<Message>, run: seq<Transmission.System>, i: nat, r: Rx, edges: seq<Edge>, t: Timing)
    requires Transmission.Run(run, Frames(messages)) && i < |run| && Steady(t)
    requires RxInRange(r) && BetweenFrames(r) && Audible(run[i].air, edges, t)
    ensures var heard := Listen(r, edges, |edges|).messages;
            && |heard| <= |run[i].blocks| <= |heard| + 1 && |heard| <= |messages|
              && heard == Frames(messages)[..|heard|]
            && AllFrames(heard) && AllDecoded(heard) == messages[..|heard|]
            && (run[i].todo == [] && !run[i].tx.transfer && EndsFrame(run[i].quiet, t) ==>
                  AllDecoded(heard) == messages)
  {
    hide Transmission.Run, Transmission.OnAir, Audible, Listen, Fitting, AllDecoded, AllFrames, Frame, EndsFrame,
      Steady, BetweenFrames;
    FramesSendable(messages);
    HeardSoFar(Frames(messages), run, i, r, edges, t);
    OnTheAir(Frames(messages), run, i, t);
    var n, heard := |run[i].blocks|, Listen(r, edges, |edges|).messages;
    FirstFrames(messages, n);
    if 0 < n {
      FirstFrames(messages, n - 1);
    }
    AllFramesDecode(messages[..|heard|]);
    assert messages[..|messages|] == messages;
  }

  lemma FirstFrames(messages: seq<Message>, n: nat)
    requires n <= |messages|
    ensures Frames(messages)[..n] == Frames(messages[..n]) == Fitting(Frames(messages)[..n])
  {
    hide Frame, Fitting;
    assert Frames(messages)[..n] == Frames(messages[..n]);
    AllFramesDecode(messages[..n]);
    FramesFit(Frames(messages[..n]));
  }

  /** A server that has just loaded its pagers: nothing sent, and nothing owed to any of them. */
  ghost predicate Booted(q: Queue)
  {
    && q.sequence_number == 0 && q.sent == []
    && forall id :: id in q.pagers ==> q.pagers[id].flash_left == 0 && q.pagers[id].pair_left == 0
  }

  /** For every run of requests and rounds on a server just booted: the frames handed to the callback of
      the pager decode to exactly the messages the rounds owed, the k-th one numbered k, every checksum
      valid, and each says what was asked for before its round, above all the flash time. */
  lemma QueueArrives(qs: seq<Queue>, events: seq<Event>, run: seq<Transmission.System>, i: nat,
                     r: Rx, edges: seq<Edge>, t: Timing)
    requires MessageQueue.Run(qs, events) && Booted(qs[0])
    requires Transmission.Run(run, Frames(qs[|events|].sent)) && i < |run| && Steady(t)
    requires run[i].todo == [] && !run[i].tx.transfer && EndsFrame(run[i].quiet, t)
    requires RxInRange(r) && BetweenFrames(r) && Audible(run[i].air, edges, t)
    ensures var heard := Listen(r, edges, |edges|).messages;
            AllFrames(heard)
            && var got := AllDecoded(heard);
               && got == qs[|events|].sent
               && (forall k :: 0 <= k < |got| ==> Numbered(got, k) && ChecksumHolds(got[k]))
               && (forall id, kind: ushort :: SentCount(got, id, kind) + Left(qs[|events|], id, kind)
                                       == TotalGranted(qs, events, id, kind, |events|))
               && (forall k :: 0 <= k < |got| ==> SaysItsPart(qs, events, |events|, k, got[k]))
  {
    hide *;
    QueueCounts(qs, events);
    QueueSays(qs, events);
    RecordsArrive(qs[|events|].sent, run, i, r, edges, t);
  }

  lemma QueueSays(qs: seq<Queue>, events: seq<Event>)
    requires MessageQueue.Run(qs, events) && Booted(qs[0])
    ensures |qs| == |events| + 1
    ensures var sent := qs[|events|].sent;
            forall k :: 0 <= k < |sent| ==> SaysItsPart(qs, events, |events|, k, sent[k])
  {
    hide SaysItsPart, After;
    forall k | 0 <= k < |qs[|events|].sent|
      ensures SaysItsPart(qs, events, |events|, k, qs[|events|].sent[k])
    {
      MessagesSayAsked(qs, events, |events|, k);
    }
  }

  /** The pager's main loop, behind its mailbox for one frame: once it is through it has decoded exactly
      the messages of the server if and only if each frame found the mailbox empty, and otherwise fewer. */
  lemma QueueProcessed(qs: seq<Queue>, events: seq<Event>, run: seq<Transmission.System>, i: nat,
                       r: Rx, edges: seq<Edge>, t: Timing, bs: seq<Client.Mailbox>, steps: seq<Client.Step>)
    requires MessageQueue.Run(qs, events) && Booted(qs[0])
    requires Transmission.Run(run, Frames(qs[|events|].sent)) && i < |run| && Steady(t)
    requires run[i].todo == [] && !run[i].tx.transfer && EndsFrame(run[i].quiet, t)
    requires RxInRange(r) && BetweenFrames(r) && Audible(run[i].air, edges, t)
    requires Client.Steps(bs, steps) && !bs[|steps|].frame_present
    requires Client.Delivered(steps) == Listen(r, edges, |edges|).messages
    ensures var (processed, sent) := (bs[|steps|].processed, qs[|events|].sent);
            |processed| <= |sent| && (processed == sent <==> Client.InTime(bs, steps, |steps|))
  {
    hide *;
    QueueArrives(qs, events, run, i, r, edges, t);
    Client.StepsLength(bs, steps);
    QueueLength(qs, events);
    Client.ProcessedExactly(bs, steps);
    if Client.InTime(bs, steps, |steps|) {
      SameDecoded(bs[|steps|].processed, Client.Delivered(steps));
    }
  }

  lemma QueueLength(qs: seq<Queue>, events: seq<Event>)
    requires MessageQueue.Run(qs, events)
    ensures |qs| == |events| + 1
  {
  }

  lemma SameDecoded(messages: seq<Message>, frames: seq<seq<byte>>)
    requires AllFrames(frames) && |messages| == |frames|
    requires forall i :: 0 <= i < |messages| ==> |frames[i]| == PROTO_FRAME_SIZE && messages[i] == Decoded(frames[i])
    ensures messages == AllDecoded(frames)
  {
    hide Decoded;
  }

  lemma QueueCounts(qs: seq<Queue>, events: seq<Event>)
    requires MessageQueue.Run(qs, events) && Booted(qs[0])
    ensures |qs| == |events| + 1
    ensures var q := qs[|events|];
            && (forall k :: 0 <= k < |q.sent| ==> Numbered(q.sent, k) && ChecksumHolds(q.sent[k]))
            && (forall id, kind: ushort :: SentCount(q.sent, id, kind) + Left(q, id, kind)
                                    == TotalGranted(qs, events, id, kind, |events|))
  {
    var q := qs[|events|];
    BootedInv(qs[0]);
    MessageQueue.RunKeepsInv(qs, events, |events|);
    assert AllValid(q.sent);
    hide ChecksumHolds, Numbered, SentCount, Booted;
    forall id, kind: ushort
      ensures SentCount(q.sent, id, kind) + Left(q, id, kind) == TotalGranted(qs, events, id, kind, |events|)
    {
      Conservation(qs, events, id, kind, |events|);
      NothingOwed(qs[0], id, kind);
    }
  }

  lemma BootedInv(q: Queue)
    requires Booted(q)
    ensures MessageQueue.Inv(q)
  {
  }

  lemma NothingOwed(q: Queue, id: ushort, kind: ushort)
    requires Booted(q)
    ensures Owed(q, id, kind) == 0
  {
  }

  /** Whatever file a server loads when it boots, nothing is owed to any of its pagers. */
  lemma BootOwesNothing(file: Pagers.File, u: Pagers.Undefined)
    ensures Booted(Queue(Pagers.Loaded(Pagers.Registry(map[], false, file), u).pagers, 0, []))
  {
  }
}
