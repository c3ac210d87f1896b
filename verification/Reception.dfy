/** The falling-edge interrupt listening to a run of the transmitter: every message of fewer
    than 128 bytes is handed to the callback once, whole and in order. */
module Reception {
  import opened Crc
  import opened NumberTheory
  import opened Physical
  import opened Transmission

  /** A falling edge: the pulse count read and the time of the interrupt. */
  datatype Edge = Edge(cnt: nat, now: nat)

  /** The sender's cycles on the receiver's clock, in thirds of a microsecond: when each of them starts
      and the last one ends, how long the shortest of them is, and how far the timestamp of an edge may
      lie outside its cycle. The two clocks need not run at the same rate, nor at a constant one. */
  datatype Timing = Timing(starts: seq<int>, cycle: nat, jitter: nat)

  /** Silent cycles after a bit that certainly end the frame. */
  predicate EndsFrame(silent: nat, t: Timing)
  {
    t.cycle * (silent - 1) - 2 * t.jitter > 3 * SPACING_ALLOWED_US_MAX
  }

  lemma LongerEndsFrame(silent: nat, longer: nat, t: Timing)
    requires EndsFrame(silent, t) && silent <= longer
    ensures EndsFrame(longer, t)
  {
    NonNegativeProduct(t.cycle, longer - silent);
    assert t.cycle * (longer - 1) == t.cycle * (silent - 1) + t.cycle * (longer - silent);
  }

  /** The silence the sender leaves between messages ends a frame. */
  predicate Steady(t: Timing)
  {
    EndsFrame(SLEEP_WRAPS + 1, t)
  }

  /** From the second message on, the silence before it ends the frame of its predecessor. */
  ghost predicate Separated(blocks: seq<Block>, t: Timing)
  {
    forall i :: 0 < i < |blocks| ==> EndsFrame(blocks[i].gap, t)
  }

  lemma SpacedSeparates(blocks: seq<Block>, t: Timing)
    requires Spaced(blocks) && Steady(t)
    ensures Separated(blocks, t)
  {
    hide EndsFrame;
    forall i | 0 < i < |blocks|
      ensures EndsFrame(blocks[i].gap, t)
    {
      LongerEndsFrame(SLEEP_WRAPS + 1, blocks[i].gap, t);
    }
  }

  /** With clocks of one rate edges may lie 1.878 ms outside their cycles, and without jitter 11 silent
      cycles end a frame. Without jitter the receiver's clock may run at little more than half the rate
      of the sender's; at 800 parts per million less than it, 1.875 ms are left for the jitter. */
  lemma SteadyExactly(t: Timing, silent: nat)
    ensures t.cycle == CYCLE_THIRDS ==> (Steady(t) <==> t.jitter <= 5634)
    ensures t.cycle == CYCLE_THIRDS && t.jitter == 0 ==> (EndsFrame(silent, t) <==> 11 <= silent)
    ensures t.jitter == 0 ==> (Steady(t) <==> 657 <= t.cycle)
    ensures t.cycle == CYCLE_THIRDS - 1 ==> (Steady(t) <==> t.jitter <= 5625)
  {
  }

  /** One cycle follows the other, and each is as long as the shortest. */
  ghost predicate Cycles(t: Timing, n: nat)
  {
    n < |t.starts| && forall i :: 0 <= i < n ==> t.starts[i] + t.cycle <= t.starts[i + 1]
  }

  lemma {:induction false} CyclesAdd(t: Timing, n: nat, i: nat, j: nat)
    requires Cycles(t, n) && i <= j <= n
    ensures t.starts[i] + t.cycle * (j - i) <= t.starts[j]
    decreases j
  {
    if i < j {
      CyclesAdd(t, n, i, j - 1);
      assert t.cycle * (j - i) == t.cycle * (j - 1 - i) + t.cycle;
      assert t.starts[j - 1] + t.cycle <= t.starts[j - 1 + 1];
    }
  }

  /** Every cycle brings one falling edge, inside the cycle up to the jitter, with a pulse count
      within the tolerance. */
  ghost predicate Audible(levels: seq<nat>, edges: seq<Edge>, t: Timing)
  {
    && |edges| == |levels| && Cycles(t, |levels|)
    && (forall i :: 0 <= i < |edges| ==> NearLevel(levels[i], edges[i].cnt) && InCycle(edges[i].now, t, i))
    && (forall i, j :: 0 <= i <= j < |edges| ==> edges[i].now <= edges[j].now < 0x1_0000_0000_0000_0000)
  }

  predicate NearLevel(level: nat, cnt: nat)
  {
    level - COUNT_TOLERANCE <= cnt <= level + COUNT_TOLERANCE
  }

  predicate InCycle(now: nat, t: Timing, i: nat)
    requires i + 1 < |t.starts|
  {
    t.starts[i] - t.jitter <= 3 * now <= t.starts[i + 1] + t.jitter
  }

  /** The receiver after some edges, and everything it delivered on the way. */
  datatype Heard = Heard(rx: Rx, messages: seq<seq<byte>>)

  function Listen(r: Rx, edges: seq<Edge>, k: nat): (h: Heard)
    requires RxInRange(r) && k <= |edges|
    ensures RxInRange(h.rx)
    decreases k
  {
    if k == 0 then Heard(r, [])
    else
      var h := Listen(r, edges, k - 1);
      var (rx, delivered) := OnFall(h.rx, edges[k - 1].cnt, edges[k - 1].now);
      Heard(rx, h.messages + delivered)
  }

  /** The messages the receiver has room for. */
  function Fitting(messages: seq<seq<byte>>): seq<seq<byte>>
    decreases |messages|
  {
    if messages == [] then []
    else
      var n := |messages| - 1;
      Fitting(messages[..n]) + Kept(messages[n])
  }

  function Kept(m: seq<byte>): seq<seq<byte>>
  {
    if |m| < 128 then [m] else []
  }

  // ----- reading one byte

  function TakenIn(x: byte, b: byte, k: nat): byte
    requires k <= 8
    decreases k
  {
    if k == 0 then x else ShiftIn(TakenIn(x, b, k - 1), SentBit(b, k - 1))
  }

  /** Eight shifts leave nothing of what the cell held before. */
  lemma WholeByte(x: byte, b: byte)
    ensures TakenIn(x, b, 8) == b
  {
    var x1 := ShiftIn(x, SentBit(b, 0));
    var x2 := ShiftIn(x1, SentBit(b, 1));
    var x3 := ShiftIn(x2, SentBit(b, 2));
    var x4 := ShiftIn(x3, SentBit(b, 3));
    var x5 := ShiftIn(x4, SentBit(b, 4));
    var x6 := ShiftIn(x5, SentBit(b, 5));
    var x7 := ShiftIn(x6, SentBit(b, 6));
    assert TakenIn(x, b, 0) == x;
    assert TakenIn(x, b, 1) == x1;
    assert TakenIn(x, b, 2) == x2;
    assert TakenIn(x, b, 3) == x3;
    assert TakenIn(x, b, 4) == x4;
    assert TakenIn(x, b, 5) == x5;
    assert TakenIn(x, b, 6) == x6;
    assert TakenIn(x, b, 7) == x7;
    EightShifts(x, b);
  }

  lemma EightShifts(x: byte, b: byte)
    ensures ShiftIn(ShiftIn(ShiftIn(ShiftIn(ShiftIn(ShiftIn(ShiftIn(ShiftIn(x, SentBit(b, 0)), SentBit(b, 1)),
              SentBit(b, 2)), SentBit(b, 3)), SentBit(b, 4)), SentBit(b, 5)), SentBit(b, 6)), SentBit(b, 7)) == b
  {
  }

  // ----- edge by edge

  lemma AudibleLength(levels: seq<nat>, edges: seq<Edge>, t: Timing)
    requires Audible(levels, edges, t)
    ensures |levels| == |edges|
  {
  }

  lemma QuietTail(levels: seq<nat>, quiet: nat)
    ensures QuietAt(levels + Quiet(quiet), |levels|, quiet)
  {
  }

  lemma AudibleAt(levels: seq<nat>, edges: seq<Edge>, t: Timing, i: nat)
    requires Audible(levels, edges, t) && i < |edges|
    ensures |levels| == |edges| && NearLevel(levels[i], edges[i].cnt)
  {
  }

  lemma ReadingNear(level: nat, cnt: nat)
    requires NearLevel(level, cnt)
    ensures level == PWM_DUTY_ZERO ==> Reading(cnt) == Zero
    ensures level == PWM_DUTY_ONE ==> Reading(cnt) == One
    ensures level == PWM_DUTY_SILENCE ==> Reading(cnt) == Silence
  {
  }

  predicate BetweenFrames(r: Rx)
  {
    r.bit_index == 0 && r.byte_index == 0
  }

  /** What the buffer would deliver if the frame ended now. */
  function Pending(r: Rx): seq<seq<byte>>
    requires RxInRange(r)
  {
    if r.byte_index > 0 then [r.bytes[..r.byte_index]] else []
  }

  // ----- silence

  ghost predicate QuietAt(levels: seq<nat>, k: nat, gap: nat)
  {
    k + gap <= |levels| && forall i :: k <= i < k + gap ==> levels[i] == PWM_DUTY_SILENCE
  }

  function Drained(h: Heard): Heard
    requires RxInRange(h.rx)
  {
    Heard(h.rx.(bit_index := 0, byte_index := 0), h.messages + Pending(h.rx))
  }

  lemma SilentEdge(h: Heard, before: Heard, cnt: nat, now: nat)
    requires RxInRange(h.rx) && RxInRange(before.rx) && Reading(cnt) == Silence
    requires before == h || before == Drained(h)
    ensures var (rx, delivered) := OnFall(before.rx, cnt, now);
            var after := Heard(rx, before.messages + delivered);
            (after == h || after == Drained(h))
            && (Elapsed(now, h.rx.last_good_bit) > SPACING_ALLOWED_US_MAX ==> after == Drained(h))
  {
  }

  lemma SilentEdgeHeard(r: Rx, levels: seq<nat>, edges: seq<Edge>, t: Timing, h: Heard, i: nat)
    requires RxInRange(r) && Audible(levels, edges, t) && i < |edges| == |levels|
    requires levels[i] == PWM_DUTY_SILENCE
    requires RxInRange(h.rx)
    requires Listen(r, edges, i) == h || Listen(r, edges, i) == Drained(h)
    ensures Listen(r, edges, i + 1) == h || Listen(r, edges, i + 1) == Drained(h)
    ensures Elapsed(edges[i].now, h.rx.last_good_bit) > SPACING_ALLOWED_US_MAX ==> Listen(r, edges, i + 1) == Drained(h)
  {
    AudibleAt(levels, edges, t, i);
    hide Audible, Elapsed, Drained, OnFall;
    ReadingNear(levels[i], edges[i].cnt);
    SilentEdge(h, Listen(r, edges, i), edges[i].cnt, edges[i].now);
  }

  /** Silent edges either change nothing yet, or have delivered what was pending and emptied the
      buffer; after enough of them behind a bit it is the latter. */
  lemma {:induction false} SilenceHeard(r: Rx, levels: seq<nat>, edges: seq<Edge>, t: Timing, k: nat, j: nat)
    requires RxInRange(r) && Audible(levels, edges, t) && QuietAt(levels, k, j) && |levels| == |edges|
    ensures Listen(r, edges, k + j) == Listen(r, edges, k) || Listen(r, edges, k + j) == Drained(Listen(r, edges, k))
    ensures EndsFrame(j, t) && 0 < k && Listen(r, edges, k).rx.last_good_bit == edges[k - 1].now
      ==> Listen(r, edges, k + j) == Drained(Listen(r, edges, k))
    decreases j
  {
    hide Audible, Elapsed, Drained, Listen;
    if j != 0 {
      var h, i := Listen(r, edges, k), k + j - 1;
      SilenceHeard(r, levels, edges, t, k, j - 1);
      SilentEdgeHeard(r, levels, edges, t, h, i);
      if EndsFrame(j, t) && 0 < k && h.rx.last_good_bit == edges[k - 1].now {
        SilenceIsLong(levels, edges, t, k - 1, i);
      }
    }
  }

  /** That long after a bit the threshold of ten nominal cycles has passed. */
  lemma SilenceIsLong(levels: seq<nat>, edges: seq<Edge>, t: Timing, i: nat, j: nat)
    requires Audible(levels, edges, t) && i < j < |edges| && EndsFrame(j - i, t)
    ensures Elapsed(edges[j].now, edges[i].now) > SPACING_ALLOWED_US_MAX
  {
    assert InCycle(edges[i].now, t, i) && InCycle(edges[j].now, t, j);
    assert edges[i].now <= edges[j].now;
    CyclesAdd(t, |edges|, i + 1, j);
    hide Audible, Cycles;
    ElapsedIs(edges[j].now, edges[i].now);
  }

  lemma ElapsedIs(now: nat, last: nat)
    requires last <= now < 0x1_0000_0000_0000_0000
    ensures Elapsed(now, last) == now - last
  {
  }

  // ----- a message

  /** The first n bits of m are on the air from position k on. */
  ghost predicate Carries(levels: seq<nat>, k: nat, m: seq<byte>, n: nat)
  {
    k + n <= |levels| && n <= 8 * |m| && forall i :: 0 <= i < n ==> levels[k + i] == MessageLevels(m)[i]
  }

  /** The cells after j bits of m, starting from an idle receiver. */
  ghost predicate Filled(r: Rx, q: Rx, m: seq<byte>, j: nat)
    requires RxInRange(r) && RxInRange(q) && |m| <= BYTE_BUFFER_SIZE && j <= 8 * |m|
  {
    && q.bit_index == j % 8
    && q.byte_index == (if j / 8 == BYTE_BUFFER_SIZE then 0 else j / 8)
    && (forall i :: 0 <= i < j / 8 ==> q.bytes[i] == m[i])
    && (j / 8 < |m| ==> q.bytes[j / 8] == TakenIn(r.bytes[j / 8], m[j / 8], j % 8))
    && (forall i :: j / 8 < i < BYTE_BUFFER_SIZE ==> q.bytes[i] == r.bytes[i])
  }

  lemma FilledNothing(r: Rx, m: seq<byte>)
    requires RxInRange(r) && |m| <= BYTE_BUFFER_SIZE && BetweenFrames(r)
    ensures Filled(r, r, m, 0)
  {
  }

  lemma FilledAll(r: Rx, q: Rx, m: seq<byte>)
    requires RxInRange(r) && RxInRange(q) && 1 <= |m| <= BYTE_BUFFER_SIZE && Filled(r, q, m, 8 * |m|)
    ensures q.bit_index == 0 && Pending(q) == Kept(m)
  {
    if |m| < BYTE_BUFFER_SIZE {
      assert q.bytes[..|m|] == m;
    }
  }

  lemma TakenNext(x: byte, b: byte, k: nat)
    requires k < 8
    ensures TakenIn(x, b, k + 1) == ShiftIn(TakenIn(x, b, k), SentBit(b, k))
  {
  }

  lemma TakenNothing(x: byte, b: byte)
    ensures TakenIn(x, b, 0) == x
  {
  }

  lemma FillNext(r: Rx, q: Rx, m: seq<byte>, j: nat, now: nat)
    requires RxInRange(r) && RxInRange(q) && |m| <= BYTE_BUFFER_SIZE && j < 8 * |m| && Filled(r, q, m, j)
    ensures Filled(r, Accepted(q, SentBit(m[j / 8], j % 8), now), m, j + 1)
  {
    hide TakenIn, ShiftIn, SentBit;
    var c := j / 8;
    TakenNext(r.bytes[c], m[c], j % 8);
    if j % 8 == 7 {
      WholeByte(r.bytes[c], m[c]);
      if c + 1 < |m| {
        TakenNothing(r.bytes[c + 1], m[c + 1]);
      }
      assert (j + 1) / 8 == c + 1 && (j + 1) % 8 == 0;
    } else {
      assert (j + 1) / 8 == c && (j + 1) % 8 == j % 8 + 1;
    }
  }

  lemma BitEdge(q: Rx, m: seq<byte>, j: nat, cnt: nat, now: nat)
    requires RxInRange(q) && j < 8 * |m| && NearLevel(MessageLevels(m)[j], cnt)
    ensures OnFall(q, cnt, now) == (Accepted(q, SentBit(m[j / 8], j % 8), now), [])
    ensures Accepted(q, SentBit(m[j / 8], j % 8), now).last_good_bit == now
  {
    ReadingNear(MessageLevels(m)[j], cnt);
  }

  lemma BitHeard(r: Rx, levels: seq<nat>, edges: seq<Edge>, t: Timing, k: nat, m: seq<byte>, j: nat)
    requires RxInRange(r) && Audible(levels, edges, t) && Carries(levels, k, m, j + 1) && |levels| == |edges|
    ensures var h := Listen(r, edges, k + j);
            var rx := Accepted(h.rx, SentBit(m[j / 8], j % 8), edges[k + j].now);
            Listen(r, edges, k + j + 1) == Heard(rx, h.messages) && rx.last_good_bit == edges[k + j].now
  {
    AudibleAt(levels, edges, t, k + j);
    assert levels[k + j] == MessageLevels(m)[j];
    hide Audible, Carries, MessageLevels, Accepted, OnFall, NearLevel;
    BitEdge(Listen(r, edges, k + j).rx, m, j, edges[k + j].cnt, edges[k + j].now);
  }

  lemma {:induction false} BitsHeard(r: Rx, levels: seq<nat>, edges: seq<Edge>, t: Timing, k: nat, m: seq<byte>, j: nat)
    requires RxInRange(r) && Audible(levels, edges, t) && Carries(levels, k, m, j) && |levels| == |edges|
    requires |m| <= BYTE_BUFFER_SIZE
    requires BetweenFrames(Listen(r, edges, k).rx)
    ensures Listen(r, edges, k + j).messages == Listen(r, edges, k).messages
    ensures Filled(Listen(r, edges, k).rx, Listen(r, edges, k + j).rx, m, j)
    ensures 0 < j ==> Listen(r, edges, k + j).rx.last_good_bit == edges[k + j - 1].now
    decreases j
  {
    hide *;
    FewerCarried(levels, k, m, j);
    if j == 0 {
      FilledNothing(Listen(r, edges, k).rx, m);
    } else {
      BitsHeard(r, levels, edges, t, k, m, j - 1);
      OneMoreHeard(r, levels, edges, t, k, m, j - 1);
    }
  }

  lemma FewerCarried(levels: seq<nat>, k: nat, m: seq<byte>, n: nat)
    requires Carries(levels, k, m, n)
    ensures k + n <= |levels| && n <= 8 * |m| && forall j :: 0 <= j <= n ==> Carries(levels, k, m, j)
  {
  }

  lemma OneMoreHeard(r: Rx, levels: seq<nat>, edges: seq<Edge>, t: Timing, k: nat, m: seq<byte>, j: nat)
    requires RxInRange(r) && Audible(levels, edges, t) && Carries(levels, k, m, j + 1) && |levels| == |edges|
    requires |m| <= BYTE_BUFFER_SIZE
    requires Filled(Listen(r, edges, k).rx, Listen(r, edges, k + j).rx, m, j)
    ensures Listen(r, edges, k + j + 1).messages == Listen(r, edges, k + j).messages
    ensures Filled(Listen(r, edges, k).rx, Listen(r, edges, k + j + 1).rx, m, j + 1)
    ensures Listen(r, edges, k + j + 1).rx.last_good_bit == edges[k + j].now
  {
    hide Listen, Audible, Carries, Filled, Accepted, RxInRange;
    FewerCarried(levels, k, m, j + 1);
    BitHeard(r, levels, edges, t, k, m, j);
    FillNext(Listen(r, edges, k).rx, Listen(r, edges, k + j).rx, m, j, edges[k + j].now);
  }

  lemma WholeMessageHeard(r: Rx, levels: seq<nat>, edges: seq<Edge>, t: Timing, k: nat, m: seq<byte>)
    requires RxInRange(r) && Audible(levels, edges, t) && Carries(levels, k, m, 8 * |m|) && |levels| == |edges|
    requires 1 <= |m| <= BYTE_BUFFER_SIZE && BetweenFrames(Listen(r, edges, k).rx)
    ensures var h := Listen(r, edges, k + 8 * |m|);
            h.rx.bit_index == 0 && h.rx.last_good_bit == edges[k + 8 * |m| - 1].now && Pending(h.rx) == Kept(m)
            && h.messages == Listen(r, edges, k).messages
  {
    hide Audible, Filled, Pending, Kept, Listen;
    BitsHeard(r, levels, edges, t, k, m, 8 * |m|);
    FilledAll(Listen(r, edges, k).rx, Listen(r, edges, k + 8 * |m|).rx, m);
  }

  // ----- runs of messages

  /** After the levels of some blocks: all messages but the last delivered, the last one held. */
  ghost predicate Holding(h: Heard, edges: seq<Edge>, k: nat, blocks: seq<Block>)
    requires RxInRange(h.rx) && k <= |edges|
  {
    if blocks == [] then BetweenFrames(h.rx) && h.messages == []
    else
      var n := |blocks| - 1;
      && h.rx.bit_index == 0 && 0 < k && h.rx.last_good_bit == edges[k - 1].now
      && Pending(h.rx) == Kept(blocks[n].message)
      && h.messages == Fitting(Messages(blocks[..n]))
  }

  lemma FittingLast(blocks: seq<Block>)
    requires blocks != []
    ensures var n := |blocks| - 1;
            Fitting(Messages(blocks)) == Fitting(Messages(blocks[..n])) + Kept(blocks[n].message)
  {
    assert Messages(blocks[..|blocks| - 1]) == Messages(blocks)[..|blocks| - 1];
  }

  lemma GapHeard(r: Rx, levels: seq<nat>, edges: seq<Edge>, t: Timing, blocks: seq<Block>, k: nat, gap: nat)
    requires RxInRange(r) && Audible(levels, edges, t) && QuietAt(levels, k, gap) && |levels| == |edges|
    requires Holding(Listen(r, edges, k), edges, k, blocks)
    requires blocks == [] || EndsFrame(gap, t)
    ensures BetweenFrames(Listen(r, edges, k + gap).rx)
      && Listen(r, edges, k + gap).messages == Fitting(Messages(blocks))
  {
    hide Audible, Listen, Fitting, Kept, Messages;
    SilenceHeard(r, levels, edges, t, k, gap);
    if blocks != [] {
      FittingLast(blocks);
    } else {
      NothingFits();
    }
  }

  lemma NothingFits()
    ensures Fitting(Messages([])) == []
  {
  }

  lemma BlockHeard(r: Rx, levels: seq<nat>, edges: seq<Edge>, t: Timing, before: seq<Block>, b: Block, k: nat)
    requires RxInRange(r) && Audible(levels, edges, t) && |levels| == |edges|
    requires QuietAt(levels, k, b.gap) && Carries(levels, k + b.gap, b.message, 8 * |b.message|)
    requires Holding(Listen(r, edges, k), edges, k, before)
    requires (before == [] || EndsFrame(b.gap, t)) && 1 <= |b.message| <= BYTE_BUFFER_SIZE
    ensures var k' := k + b.gap + 8 * |b.message|;
            Holding(Listen(r, edges, k'), edges, k', before + [b])
  {
    hide Audible, Listen, Pending, Kept, Messages, Fitting;
    GapHeard(r, levels, edges, t, before, k, b.gap);
    WholeMessageHeard(r, levels, edges, t, k + b.gap, b.message);
    assert (before + [b])[..|before|] == before;
  }

  lemma PartsOf(levels: seq<nat>, a: seq<nat>, b: seq<nat>, c: seq<nat>)
    requires a + b + c <= levels
    ensures a <= levels
    ensures forall i :: |a| <= i < |a| + |b| ==> levels[i] == b[i - |a|]
    ensures forall i :: 0 <= i < |c| ==> levels[|a| + |b| + i] == c[i]
  {
    forall i | |a| <= i < |a| + |b|
      ensures levels[i] == b[i - |a|]
    {
      assert (a + b + c)[i] == b[i - |a|];
    }
    forall i | 0 <= i < |c|
      ensures levels[|a| + |b| + i] == c[i]
    {
      assert (a + b + c)[|a| + |b| + i] == c[i];
    }
  }

  /** The last block's levels sit behind those of the blocks before it. */
  lemma LastBlock(levels: seq<nat>, before: seq<Block>, b: Block)
    requires Levels(before + [b]) <= levels
    ensures |Levels(before + [b])| == |Levels(before)| + b.gap + 8 * |b.message|
    ensures Levels(before) <= levels
    ensures QuietAt(levels, |Levels(before)|, b.gap)
    ensures Carries(levels, |Levels(before)| + b.gap, b.message, 8 * |b.message|)
  {
    assert (before + [b])[..|before|] == before;
    PartsOf(levels, Levels(before), Quiet(b.gap), MessageLevels(b.message));
  }

  lemma SeparatedLast(before: seq<Block>, b: Block, t: Timing)
    requires Separated(before + [b], t) && Sendable(Messages(before + [b]))
    ensures Separated(before, t) && Sendable(Messages(before))
    ensures (before == [] || EndsFrame(b.gap, t)) && 1 <= |b.message| <= BYTE_BUFFER_SIZE
  {
    var all := before + [b];
    forall i | 0 <= i < |before|
      ensures before[i] == all[i] && Messages(before)[i] == Messages(all)[i]
    {
    }
    assert all[|before|] == b && Messages(all)[|before|] == b.message;
  }

  lemma {:induction false} BlocksHeard(r: Rx, levels: seq<nat>, edges: seq<Edge>, t: Timing, blocks: seq<Block>)
    requires RxInRange(r) && BetweenFrames(r) && Audible(levels, edges, t) && |levels| == |edges|
    requires Separated(blocks, t) && Sendable(Messages(blocks))
    requires Levels(blocks) <= levels
    ensures Holding(Listen(r, edges, |Levels(blocks)|), edges, |Levels(blocks)|, blocks)
    decreases |blocks|, 0
  {
    if blocks != [] {
      var before, b := blocks[..|blocks| - 1], blocks[|blocks| - 1];
      assert blocks == before + [b];
      LastBlockHeard(r, levels, edges, t, before, b);
    }
  }

  lemma {:induction false} LastBlockHeard(r: Rx, levels: seq<nat>, edges: seq<Edge>, t: Timing,
                                          before: seq<Block>, b: Block)
    requires RxInRange(r) && BetweenFrames(r) && Audible(levels, edges, t) && |levels| == |edges|
    requires Separated(before + [b], t) && Sendable(Messages(before + [b]))
    requires Levels(before + [b]) <= levels
    ensures Holding(Listen(r, edges, |Levels(before + [b])|), edges, |Levels(before + [b])|, before + [b])
    decreases |before|, 1
  {
    hide Listen, Audible, Levels, Carries, QuietAt, Holding, Messages, Separated, Sendable;
    SeparatedLast(before, b, t);
    LastBlock(levels, before, b);
    BlocksHeard(r, levels, edges, t, before);
    BlockHeard(r, levels, edges, t, before, b, |Levels(before)|);
  }

  /** Whatever the receiver's buffer held, and however each pulse and interrupt is off within
      the tolerances: once the last message is followed by silence, exactly the messages of
      fewer than 128 bytes have been delivered, each once, whole and in order. */
  lemma MessagesDelivered(r: Rx, edges: seq<Edge>, t: Timing, blocks: seq<Block>, quiet: nat)
    requires RxInRange(r) && BetweenFrames(r) && Audible(Levels(blocks) + Quiet(quiet), edges, t)
    requires Separated(blocks, t) && Sendable(Messages(blocks)) && EndsFrame(quiet, t)
    ensures Listen(r, edges, |edges|).messages == Fitting(Messages(blocks))
      && BetweenFrames(Listen(r, edges, |edges|).rx)
  {
    hide Listen, Audible, Holding, QuietAt, Levels, Messages, Fitting, Separated, Sendable;
    var levels := Levels(blocks) + Quiet(quiet);
    AudibleLength(levels, edges, t);
    QuietTail(Levels(blocks), quiet);
    BlocksHeard(r, levels, edges, t, blocks);
    GapHeard(r, levels, edges, t, blocks, |Levels(blocks)|, quiet);
  }

  // ----- at any moment

  /** While the channel is quiet, all messages or all but the last have been delivered. */
  lemma QuietSoFar(r: Rx, edges: seq<Edge>, t: Timing, blocks: seq<Block>, quiet: nat)
    requires RxInRange(r) && BetweenFrames(r) && Audible(Levels(blocks) + Quiet(quiet), edges, t)
    requires Separated(blocks, t) && Sendable(Messages(blocks))
    ensures var heard := Listen(r, edges, |edges|).messages;
            heard == Fitting(Messages(blocks)) || (blocks != [] && heard == Fitting(Messages(blocks[..|blocks| - 1])))
  {
    hide *;
    var levels, k := Levels(blocks) + Quiet(quiet), |Levels(blocks)|;
    AudibleLength(levels, edges, t);
    QuietTail(Levels(blocks), quiet);
    BlocksHeard(r, levels, edges, t, blocks);
    HoldingIdle(Listen(r, edges, k), edges, k, blocks);
    SilenceHeard(r, levels, edges, t, k, quiet);
  }

  /** What holds a message back delivers it at most. */
  lemma HoldingIdle(h: Heard, edges: seq<Edge>, k: nat, blocks: seq<Block>)
    requires RxInRange(h.rx) && k <= |edges| && Holding(h, edges, k, blocks)
    ensures h.rx.bit_index == 0 && Drained(h).messages == Fitting(Messages(blocks))
    ensures h.messages == if blocks == [] then Fitting(Messages(blocks)) else Fitting(Messages(blocks[..|blocks| - 1]))
  {
    hide Fitting, Kept, Messages;
    if blocks == [] {
      NothingFits();
    } else {
      FittingLast(blocks);
    }
  }

  /** While a message is on the air, all those before it have been delivered and nothing of it. */
  lemma MidwaySoFar(r: Rx, edges: seq<Edge>, t: Timing, before: seq<Block>, b: Block, j: nat)
    requires RxInRange(r) && BetweenFrames(r) && j <= 8 * |b.message|
    requires Audible(Levels(before) + Quiet(b.gap) + MessageLevels(b.message)[..j], edges, t)
    requires Separated(before + [b], t) && Sendable(Messages(before + [b]))
    ensures Listen(r, edges, |edges|).messages == Fitting(Messages(before))
  {
    hide *;
    var levels := Levels(before) + Quiet(b.gap) + MessageLevels(b.message)[..j];
    AudibleLength(levels, edges, t);
    SeparatedLast(before, b, t);
    MidwayLevels(before, b, j);
    BlocksHeard(r, levels, edges, t, before);
    GapHeard(r, levels, edges, t, before, |Levels(before)|, b.gap);
    BitsHeard(r, levels, edges, t, |Levels(before)| + b.gap, b.message, j);
  }

  lemma MidwayLevels(before: seq<Block>, b: Block, j: nat)
    requires j <= 8 * |b.message|
    ensures var levels := Levels(before) + Quiet(b.gap) + MessageLevels(b.message)[..j];
            && Levels(before) <= levels && |levels| == |Levels(before)| + b.gap + j
            && QuietAt(levels, |Levels(before)|, b.gap) && Carries(levels, |Levels(before)| + b.gap, b.message, j)
  {
    hide Levels, MessageLevels;
    var levels := Levels(before) + Quiet(b.gap) + MessageLevels(b.message)[..j];
    PartsOf(levels, Levels(before), Quiet(b.gap), MessageLevels(b.message)[..j]);
  }

  // ----- the timing allowed is exact

  /** How long n cycles of one length take. */
  function Lasts(cycle: nat, n: nat): nat
  {
    cycle * n
  }

  lemma LastsNext(cycle: nat, n: nat)
    ensures Lasts(cycle, n + 1) == Lasts(cycle, n) + cycle
  {
  }

  lemma {:induction false} LastsGrows(cycle: nat, m: nat, n: nat)
    requires m <= n
    ensures Lasts(cycle, m) <= Lasts(cycle, n)
  {
    NonNegativeProduct(cycle, n - m);
    assert cycle * n == cycle * m + cycle * (n - m);
  }

  /** Times at the edge of the jitter: every edge of the first n cycles as late as it may come, those
      behind them as early as they may. */
  function LateThenEarly(n: nat, t: Timing, i: nat): nat
  {
    var last := Lasts(t.cycle, n);
    if i < n then last - (last - Lasts(t.cycle, i + 1) + 2) / 3
    else
      var early := Lasts(t.cycle, i) - last - 2 * t.jitter;
      last + if early <= 0 then 0 else (early + 2) / 3
  }

  function WorstEdges(levels: seq<nat>, n: nat, t: Timing): (edges: seq<Edge>)
    ensures |edges| == |levels|
  {
    seq(|levels|, i requires 0 <= i < |levels| => Edge(levels[i], LateThenEarly(n, t, i)))
  }

  /** Cycles of one length, such that the n-th may end as late as n cycles on the receiver's clock. */
  function WorstTiming(length: nat, n: nat, cycle: nat, jitter: nat): (t: Timing)
    ensures t.cycle == cycle && t.jitter == jitter
  {
    var first := 2 * Lasts(cycle, n) - jitter;
    Timing(seq(length + 1, i requires 0 <= i <= length => first + Lasts(cycle, i)), cycle, jitter)
  }

  lemma WorstCycles(length: nat, n: nat, cycle: nat, jitter: nat)
    ensures Cycles(WorstTiming(length, n, cycle, jitter), length)
  {
    hide Lasts;
    var t := WorstTiming(length, n, cycle, jitter);
    forall i | 0 <= i < length
      ensures t.starts[i] + t.cycle <= t.starts[i + 1]
    {
      LastsNext(cycle, i);
    }
  }

  lemma LateThenEarlyInCycle(length: nat, n: nat, cycle: nat, jitter: nat, i: nat)
    requires i < length && 2 <= cycle
    ensures var t := WorstTiming(length, n, cycle, jitter);
            InCycle(LateThenEarly(n, t, i), t, i) && LateThenEarly(n, t, i) <= LateThenEarly(n, t, i + 1)
  {
    hide Lasts;
    LastsNext(cycle, i);
    LastsNext(cycle, i + 1);
    if i < n {
      LastsGrows(cycle, i + 1, n);
    } else {
      LastsGrows(cycle, n, i);
    }
  }

  lemma {:induction false} LateThenEarlyGrows(length: nat, n: nat, cycle: nat, jitter: nat, i: nat, j: nat)
    requires i <= j <= length && 2 <= cycle
    ensures var t := WorstTiming(length, n, cycle, jitter); LateThenEarly(n, t, i) <= LateThenEarly(n, t, j)
    decreases j - i
  {
    hide LateThenEarly;
    if i < j {
      LateThenEarlyGrows(length, n, cycle, jitter, i, j - 1);
      LateThenEarlyInCycle(length, n, cycle, jitter, j - 1);
    }
  }

  /** What fits on the receiver's clock: n cycles, and the threshold behind them. */
  predicate OnClock(n: nat, t: Timing)
  {
    Lasts(t.cycle, n) + SPACING_ALLOWED_US_MAX < 0x1_0000_0000_0000_0000
  }

  lemma EarlyWithin(n: nat, t: Timing, silent: nat, i: nat)
    requires !EndsFrame(silent, t) && n <= i < n + silent && 0 < n
    ensures LateThenEarly(n, t, n - 1) == Lasts(t.cycle, n)
    ensures 0 <= LateThenEarly(n, t, i) - Lasts(t.cycle, n) <= SPACING_ALLOWED_US_MAX
  {
    var c := t.cycle;
    assert Lasts(c, i) - Lasts(c, n) == c * (i - n);
    NonNegativeProduct(c, silent - 1 - (i - n));
    assert c * (silent - 1) == c * (i - n) + c * (silent - 1 - (i - n));
    hide Lasts;
    LastsGrows(c, n, i);
  }

  lemma EarlyEdgesTooSoon(n: nat, t: Timing, silent: nat, i: nat)
    requires !EndsFrame(silent, t) && n <= i < n + silent && 0 < n && OnClock(n, t)
    ensures Elapsed(LateThenEarly(n, t, i), LateThenEarly(n, t, n - 1)) <= SPACING_ALLOWED_US_MAX
    ensures LateThenEarly(n, t, i) < 0x1_0000_0000_0000_0000
  {
    EarlyWithin(n, t, silent, i);
    hide LateThenEarly, EndsFrame, Lasts;
    ElapsedIs(LateThenEarly(n, t, i), Lasts(t.cycle, n));
  }

  lemma WorstEdgesAudible(levels: seq<nat>, n: nat, cycle: nat, jitter: nat, silent: nat)
    requires var t := WorstTiming(|levels|, n, cycle, jitter); !EndsFrame(silent, t) && OnClock(n, t)
    requires 0 < n <= |levels| <= n + silent && 2 <= cycle
    ensures var t := WorstTiming(|levels|, n, cycle, jitter); Audible(levels, WorstEdges(levels, n, t), t)
  {
    hide LateThenEarly, InCycle, EndsFrame, Lasts, OnClock, WorstTiming, Cycles;
    var t := WorstTiming(|levels|, n, cycle, jitter);
    var edges := WorstEdges(levels, n, t);
    WorstCycles(|levels|, n, cycle, jitter);
    CyclesCover(t, |levels|);
    forall i | 0 <= i < |edges|
      ensures NearLevel(levels[i], edges[i].cnt) && InCycle(edges[i].now, t, i)
    {
      LateThenEarlyInCycle(|levels|, n, cycle, jitter, i);
    }
    forall i, j | 0 <= i <= j < |edges|
      ensures edges[i].now <= edges[j].now < 0x1_0000_0000_0000_0000
    {
      LateThenEarlyGrows(|levels|, n, cycle, jitter, i, j);
      if j < n {
        LateThenEarlyGrows(|levels|, n, cycle, jitter, j, n);
        LateThenEarlyStarts(n, t);
      } else {
        EarlyEdgesTooSoon(n, t, silent, j);
      }
    }
  }

  lemma CyclesCover(t: Timing, n: nat)
    requires Cycles(t, n)
    ensures n < |t.starts|
  {
  }

  lemma LateThenEarlyStarts(n: nat, t: Timing)
    requires OnClock(n, t)
    ensures LateThenEarly(n, t, n) < 0x1_0000_0000_0000_0000
  {
  }

  lemma {:induction false} TooSoonToHear(r: Rx, levels: seq<nat>, n: nat, t: Timing, silent: nat, j: nat)
    requires RxInRange(r) && !EndsFrame(silent, t) && 0 < n && OnClock(n, t) && |levels| == n + silent && j <= silent
    requires Audible(levels, WorstEdges(levels, n, t), t) && QuietAt(levels, n, silent)
    requires Listen(r, WorstEdges(levels, n, t), n).rx.last_good_bit == LateThenEarly(n, t, n - 1)
    ensures Listen(r, WorstEdges(levels, n, t), n + j) == Listen(r, WorstEdges(levels, n, t), n)
    decreases j
  {
    hide LateThenEarly, Elapsed, EndsFrame, Audible, RxInRange, OnClock;
    if j != 0 {
      TooSoonToHear(r, levels, n, t, silent, j - 1);
      var edges, i := WorstEdges(levels, n, t), n + j - 1;
      AudibleAt(levels, edges, t, i);
      ReadingNear(levels[i], edges[i].cnt);
      EarlyEdgesTooSoon(n, t, silent, i);
    }
  }

  /** One message of some bytes the receiver has room for, sent as the sender does, then silence. */
  function OneBlock(m: seq<byte>): seq<Block>
  {
    [Block(SLEEP_WRAPS, m)]
  }

  /** Whatever the receiver held, wherever the edges lie within the jitter and however long the cycles
      are, if none is shorter: the message arrives. */
  ghost predicate Arrives(m: seq<byte>, quiet: nat, cycle: nat, jitter: nat)
  {
    forall r, edges, t: Timing ::
      RxInRange(r) && BetweenFrames(r) && t.cycle == cycle && t.jitter == jitter
      && Audible(Levels(OneBlock(m)) + Quiet(quiet), edges, t)
      ==> Listen(r, edges, |edges|).messages == [m]
  }

  /** The bound is exact: a message is certain to have arrived after some silence exactly if that
      silence ends a frame for the given cycle and jitter. Cycles of less than a microsecond and of more
      than 23 minutes are left out: the clock could not tell them apart, or not count them all. */
  lemma TimingExact(m: seq<byte>, quiet: nat, cycle: nat, jitter: nat)
    requires 1 <= |m| < BYTE_BUFFER_SIZE && 2 <= cycle < 0x1_0000_0000
    ensures Arrives(m, quiet, cycle, jitter) <==> EndsFrame(quiet, Timing([], cycle, jitter))
  {
    hide EndsFrame, Audible, Listen, Levels, LateThenEarly, WorstEdges, RxInRange;
    var anyTiming := Timing([], cycle, jitter);
    if EndsFrame(quiet, anyTiming) {
      forall r, edges, t: Timing | RxInRange(r) && BetweenFrames(r) && t.cycle == cycle && t.jitter == jitter
          && Audible(Levels(OneBlock(m)) + Quiet(quiet), edges, t)
        ensures Listen(r, edges, |edges|).messages == [m]
      {
        SameEnds(quiet, anyTiming, t);
        MessagesDelivered(r, edges, t, OneBlock(m), quiet);
        OneFits(m);
      }
    } else {
      MayNotArrive(m, quiet, cycle, jitter);
    }
  }

  lemma SameEnds(silent: nat, t: Timing, u: Timing)
    requires t.cycle == u.cycle && t.jitter == u.jitter
    ensures EndsFrame(silent, t) == EndsFrame(silent, u)
  {
  }

  lemma OneFits(m: seq<byte>)
    requires |m| < BYTE_BUFFER_SIZE
    ensures Fitting(Messages(OneBlock(m))) == [m]
  {
    assert Messages(OneBlock(m)) == [m] && [m][..0] == [];
  }

  lemma OneBlockLevels(m: seq<byte>)
    ensures |Levels(OneBlock(m))| == SLEEP_WRAPS + 8 * |m|
  {
    assert OneBlock(m)[..0] == [];
  }

  lemma IdleReceiver(r: Rx)
    requires r == Rx(seq(BYTE_BUFFER_SIZE, _ => 0 as byte), 0, 0, 0)
    ensures RxInRange(r) && BetweenFrames(r)
  {
  }

  lemma ShortOnClock(n: nat, t: Timing)
    requires n <= 2000 && t.cycle < 0x1_0000_0000
    ensures OnClock(n, t)
  {
    NonNegativeProduct(t.cycle, 2000 - n);
    assert t.cycle * 2000 == t.cycle * n + t.cycle * (2000 - n);
  }

  lemma MayNotArrive(m: seq<byte>, quiet: nat, cycle: nat, jitter: nat)
    requires 1 <= |m| < BYTE_BUFFER_SIZE && 2 <= cycle < 0x1_0000_0000 && !EndsFrame(quiet, Timing([], cycle, jitter))
    ensures !Arrives(m, quiet, cycle, jitter)
  {
    hide EndsFrame, Audible, Listen, Levels, LateThenEarly, RxInRange, BetweenFrames, QuietAt, OnClock, WorstTiming;
    var r := Rx(seq(BYTE_BUFFER_SIZE, _ => 0 as byte), 0, 0, 0);
    var levels, n := Levels(OneBlock(m)) + Quiet(quiet), |Levels(OneBlock(m))|;
    var t := WorstTiming(|levels|, n, cycle, jitter);
    var edges := WorstEdges(levels, n, t);
    IdleReceiver(r);
    OneBlockLevels(m);
    ShortOnClock(n, t);
    SameEnds(quiet, Timing([], cycle, jitter), t);
    WorstEdgesAudible(levels, n, cycle, jitter, quiet);
    BlocksHeard(r, levels, edges, t, OneBlock(m));
    NothingFits();
    assert OneBlock(m)[..0] == [];
    QuietTail(Levels(OneBlock(m)), quiet);
    TooSoonToHear(r, levels, n, t, quiet, quiet);
    assert Listen(r, edges, |edges|).messages == [];
  }
}
