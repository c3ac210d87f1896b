/** A receiver switched on while a message is on the air: what it makes of the rest of that message is
    one piece of garbage at most, and everything behind the next silence arrives. */
module Resynchronisation {
  import opened Crc
  import opened Physical
  import opened Reception
  import opened Transmission

  /** Listening on from where one has come is listening to what is left. */
  lemma {:induction false} ListenOn(r: Rx, edges: seq<Edge>, k: nat, i: nat)
    requires RxInRange(r) && k + i <= |edges|
    ensures var h := Listen(r, edges, k);
            var g := Listen(h.rx, edges[k..], i);
            Listen(r, edges, k + i) == Heard(g.rx, h.messages + g.messages)
    decreases i
  {
    hide Listen, OnFall;
    var h := Listen(r, edges, k);
    if i == 0 {
      ListenFirst(h.rx, edges[k..]);
    } else {
      var g := Listen(h.rx, edges[k..], i - 1);
      var delivered := OnFall(g.rx, edges[k + i - 1].cnt, edges[k + i - 1].now).1;
      ListenOn(r, edges, k, i - 1);
      assert edges[k..][i - 1] == edges[k + i - 1];
      ListenNext(r, edges, k + i - 1);
      ListenNext(h.rx, edges[k..], i - 1);
      assert h.messages + g.messages + delivered == h.messages + (g.messages + delivered);
    }
  }

  lemma ListenFirst(r: Rx, edges: seq<Edge>)
    requires RxInRange(r)
    ensures Listen(r, edges, 0) == Heard(r, [])
  {
  }

  lemma ListenNext(r: Rx, edges: seq<Edge>, k: nat)
    requires RxInRange(r) && k < |edges|
    ensures var h := Listen(r, edges, k);
            var (rx, delivered) := OnFall(h.rx, edges[k].cnt, edges[k].now);
            Listen(r, edges, k + 1) == Heard(rx, h.messages + delivered)
  {
    hide OnFall;
  }

  function Later(t: Timing, k: nat): Timing
    requires k <= |t.starts|
  {
    t.(starts := t.starts[k..])
  }

  lemma AudibleLater(levels: seq<nat>, edges: seq<Edge>, t: Timing, k: nat)
    requires Audible(levels, edges, t) && k <= |levels|
    ensures |levels| == |edges| < |t.starts| && Audible(levels[k..], edges[k..], Later(t, k))
  {
    var u := Later(t, k);
    forall i | 0 <= i < |levels| - k
      ensures u.starts[i] + u.cycle <= u.starts[i + 1]
    {
      assert t.starts[k + i] + t.cycle <= t.starts[k + i + 1];
    }
    forall i | 0 <= i < |edges| - k
      ensures NearLevel(levels[k..][i], edges[k..][i].cnt) && InCycle(edges[k..][i].now, u, i)
    {
      assert NearLevel(levels[k + i], edges[k + i].cnt) && InCycle(edges[k + i].now, t, k + i);
    }
  }

  predicate IsBit(level: nat)
  {
    level == PWM_DUTY_ZERO || level == PWM_DUTY_ONE
  }

  ghost predicate Bits(levels: seq<nat>, n: nat)
  {
    n <= |levels| && forall i :: 0 <= i < n ==> IsBit(levels[i])
  }

  lemma BitTaken(rx: Rx, level: nat, e: Edge)
    requires RxInRange(rx) && NearLevel(level, e.cnt) && IsBit(level)
    ensures OnFall(rx, e.cnt, e.now).1 == [] && OnFall(rx, e.cnt, e.now).0.last_good_bit == e.now
  {
    ReadingNear(level, e.cnt);
  }

  lemma {:induction false} BitsDeliverNothing(r: Rx, levels: seq<nat>, edges: seq<Edge>, t: Timing, n: nat)
    requires RxInRange(r) && Audible(levels, edges, t) && |levels| == |edges| && Bits(levels, n)
    ensures Listen(r, edges, n).messages == []
    ensures 0 < n ==> Listen(r, edges, n).rx.last_good_bit == edges[n - 1].now
    decreases n
  {
    hide Audible, OnFall, IsBit, NearLevel;
    if n != 0 {
      BitsDeliverNothing(r, levels, edges, t, n - 1);
      AudibleAt(levels, edges, t, n - 1);
      BitTaken(Listen(r, edges, n - 1).rx, levels[n - 1], edges[n - 1]);
    }
  }

  /** Some bits and a silence that ends the frame leave any receiver between frames. */
  lemma SilenceResets(r: Rx, levels: seq<nat>, edges: seq<Edge>, t: Timing, n: nat, gap: nat)
    requires RxInRange(r) && Audible(levels, edges, t) && |levels| == |edges|
    requires 0 < n && Bits(levels, n) && QuietAt(levels, n, gap) && EndsFrame(gap, t)
    ensures BetweenFrames(Listen(r, edges, n + gap).rx) && |Listen(r, edges, n + gap).messages| <= 1
  {
    hide Audible, Listen, Bits, EndsFrame;
    BitsDeliverNothing(r, levels, edges, t, n);
    SilenceHeard(r, levels, edges, t, n, gap);
  }

  /** Whatever the receiver holds and whatever bits it hears first: behind a silence that ends a frame
      every message arrives, after one piece of garbage at most. */
  lemma Resynchronises(r: Rx, levels: seq<nat>, edges: seq<Edge>, t: Timing, n: nat, gap: nat,
                       blocks: seq<Block>, quiet: nat)
    requires RxInRange(r) && Audible(levels, edges, t) && |levels| == |edges|
    requires 0 < n && Bits(levels, n) && QuietAt(levels, n, gap) && EndsFrame(gap, t)
    requires n + gap <= |levels| && levels[n + gap..] == Levels(blocks) + Quiet(quiet)
    requires Separated(blocks, t) && Sendable(Messages(blocks)) && (blocks == [] || EndsFrame(quiet, t))
    ensures |Listen(r, edges, n + gap).messages| <= 1
    ensures Listen(r, edges, |edges|).messages == Listen(r, edges, n + gap).messages + Fitting(Messages(blocks))
  {
    hide *;
    var k := n + gap;
    AudibleLater(levels, edges, t, k);
    SilenceResets(r, levels, edges, t, n, gap);
    var h, u := Listen(r, edges, k), Later(t, k);
    ListenOn(r, edges, k, |edges| - k);
    SameTiming(t, k, blocks, quiet);
    if blocks == [] {
      NothingFits();
      NoBlocks(blocks);
      QuietSoFar(h.rx, edges[k..], u, blocks, quiet);
    } else {
      MessagesDelivered(h.rx, edges[k..], u, blocks, quiet);
    }
  }

  lemma NoBlocks(blocks: seq<Block>)
    requires blocks == []
    ensures Messages(blocks) == []
  {
  }

  lemma SameTiming(t: Timing, k: nat, blocks: seq<Block>, quiet: nat)
    requires k <= |t.starts|
    ensures Separated(blocks, t) ==> Separated(blocks, Later(t, k))
    ensures EndsFrame(quiet, t) ==> EndsFrame(quiet, Later(t, k))
  {
  }

  // ----- in the middle of a run

  lemma LevelsLast(before: seq<Block>, b: Block)
    ensures Levels(before + [b]) == Levels(before) + (Quiet(b.gap) + MessageLevels(b.message))
  {
    hide MessageLevels;
    assert (before + [b])[..|before|] == before;
    Regroups(Levels(before), Quiet(b.gap), MessageLevels(b.message));
  }

  lemma Regroups(a: seq<nat>, b: seq<nat>, c: seq<nat>)
    ensures a + b + c == a + (b + c)
  {
  }

  lemma {:induction false} LevelsConcat(a: seq<Block>, b: seq<Block>)
    ensures Levels(a + b) == Levels(a) + Levels(b)
    decreases |b|
  {
    hide Levels, MessageLevels, Quiet;
    if b == [] {
      NoLevels();
      assert a + b == a;
    } else {
      var before, last := b[..|b| - 1], b[|b| - 1];
      assert b == before + [last] && a + b == (a + before) + [last];
      LevelsConcat(a, before);
      LevelsLast(before, last);
      LevelsLast(a + before, last);
      Regroups(Levels(a), Levels(before), Quiet(last.gap) + MessageLevels(last.message));
    }
  }

  /** What is on the air from bit j of the n-th message on. */
  function From(blocks: seq<Block>, n: nat, j: nat): seq<nat>
    requires n < |blocks| && j <= 8 * |blocks[n].message|
  {
    MessageLevels(blocks[n].message)[j..] + Levels(blocks[n + 1..])
  }

  lemma FromIsSuffix(blocks: seq<Block>, n: nat, j: nat)
    requires n < |blocks| && j <= 8 * |blocks[n].message|
    ensures var a := |Levels(blocks[..n])| + blocks[n].gap + j;
            a <= |Levels(blocks)| && Levels(blocks)[a..] == From(blocks, n, j)
  {
    hide Levels, MessageLevels;
    assert blocks == blocks[..n] + ([blocks[n]] + blocks[n + 1..]);
    LevelsConcat(blocks[..n], [blocks[n]] + blocks[n + 1..]);
    LevelsConcat([blocks[n]], blocks[n + 1..]);
    OneBlockOnAir(blocks[n]);
  }

  lemma OneBlockOnAir(b: Block)
    ensures Levels([b]) == Quiet(b.gap) + MessageLevels(b.message)
  {
    hide MessageLevels;
    assert [b][..0] == [];
    assert Levels([b]) == Levels([]) + Quiet(b.gap) + MessageLevels(b.message);
  }

  lemma RestOfMessage(m: seq<byte>, j: nat)
    requires j < 8 * |m|
    ensures var bits := MessageLevels(m)[j..]; bits != [] && Bits(bits, |bits|)
  {
  }

  /** The silence in front of the first of some blocks, and the rest of them. */
  lemma FirstGap(blocks: seq<Block>)
    requires blocks != []
    ensures var rest := [Block(0, blocks[0].message)] + blocks[1..];
            Levels(blocks) == Quiet(blocks[0].gap) + Levels(rest) && Messages(rest) == Messages(blocks)
  {
    hide Levels, MessageLevels;
    var b := blocks[0];
    assert blocks == [b] + blocks[1..];
    LevelsConcat([b], blocks[1..]);
    LevelsConcat([Block(0, b.message)], blocks[1..]);
    OneBlockOnAir(b);
    OneBlockOnAir(Block(0, b.message));
    assert Quiet(0) + MessageLevels(b.message) == MessageLevels(b.message);
  }

  lemma LaterBlocks(blocks: seq<Block>, n: nat, t: Timing)
    requires n < |blocks| && Separated(blocks, t) && Sendable(Messages(blocks))
    ensures var later := blocks[n + 1..];
            && Sendable(Messages(later)) && Messages(later) == Messages(blocks)[n + 1..]
            && (later != [] ==> EndsFrame(later[0].gap, t) && Separated([Block(0, later[0].message)] + later[1..], t))
  {
    hide EndsFrame;
    var later := blocks[n + 1..];
    assert Messages(later) == Messages(blocks)[n + 1..];
    if later != [] {
      var rest := [Block(0, later[0].message)] + later[1..];
      forall i | 0 < i < |rest|
        ensures EndsFrame(rest[i].gap, t)
      {
        assert rest[i] == blocks[n + 1 + i];
      }
      assert later[0] == blocks[n + 1];
    }
  }

  /** All messages were delivered, at most one thing before them. */
  ghost predicate AfterGarbage(heard: seq<seq<byte>>, messages: seq<seq<byte>>)
  {
    exists garbage :: |garbage| <= 1 && heard == garbage + messages
  }

  lemma IsAfterGarbage(garbage: seq<seq<byte>>, messages: seq<seq<byte>>)
    requires |garbage| <= 1
    ensures AfterGarbage(garbage + messages, messages)
  {
  }

  /** Switched on at bit j of the n-th message, in whatever state, the receiver delivers every later
      message it has room for, whole and in order, after one piece of garbage at most. */
  lemma SwitchedOn(r: Rx, edges: seq<Edge>, t: Timing, blocks: seq<Block>, quiet: nat, n: nat, j: nat)
    requires RxInRange(r) && n < |blocks| && j < 8 * |blocks[n].message|
    requires Audible(From(blocks, n, j) + Quiet(quiet), edges, t)
    requires Separated(blocks, t) && Sendable(Messages(blocks)) && EndsFrame(quiet, t)
    ensures AfterGarbage(Listen(r, edges, |edges|).messages, Fitting(Messages(blocks)[n + 1..]))
  {
    hide *;
    var levels, later, k := From(blocks, n, j) + Quiet(quiet), blocks[n + 1..], 8 * |blocks[n].message| - j;
    AudibleLength(levels, edges, t);
    LaterBlocks(blocks, n, t);
    FromParts(blocks, n, j, quiet);
    if later == [] {
      NoLevels();
      assert levels[k + quiet..] == [] + [];
      Resynchronises(r, levels, edges, t, k, quiet, [], 0);
      IsAfterGarbage(Listen(r, edges, k + quiet).messages, Fitting([]));
    } else {
      FirstGap(later);
      Resynchronises(r, levels, edges, t, k, later[0].gap, [Block(0, later[0].message)] + later[1..], quiet);
      IsAfterGarbage(Listen(r, edges, k + later[0].gap).messages, Fitting(Messages(later)));
    }
  }

  /** The rest of the n-th message, the silence behind it, and what follows. */
  lemma FromParts(blocks: seq<Block>, n: nat, j: nat, quiet: nat)
    requires n < |blocks| && j < 8 * |blocks[n].message|
    ensures var levels, later, k := From(blocks, n, j) + Quiet(quiet), blocks[n + 1..], 8 * |blocks[n].message| - j;
            && 0 < k <= |levels| && Bits(levels, k)
            && (if later == [] then QuietAt(levels, k, quiet) && k + quiet == |levels|
                else && QuietAt(levels, k, later[0].gap) && k + later[0].gap <= |levels|
                     && levels[k + later[0].gap..] == Levels([Block(0, later[0].message)] + later[1..]) + Quiet(quiet))
  {
    hide Levels, MessageLevels, Bits;
    var levels, later, k := From(blocks, n, j) + Quiet(quiet), blocks[n + 1..], 8 * |blocks[n].message| - j;
    var bits := MessageLevels(blocks[n].message)[j..];
    RestOfMessage(blocks[n].message, j);
    if later == [] {
      NoLevels();
      assert levels == bits + Quiet(quiet) + [];
      PartsAre(bits, quiet, []);
    } else {
      var rest := Levels([Block(0, later[0].message)] + later[1..]) + Quiet(quiet);
      FirstGap(later);
      assert levels == bits + Quiet(later[0].gap) + rest;
      PartsAre(bits, later[0].gap, rest);
    }
  }

  lemma PartsAre(bits: seq<nat>, gap: nat, rest: seq<nat>)
    requires Bits(bits, |bits|)
    ensures var levels := bits + Quiet(gap) + rest;
            && Bits(levels, |bits|) && QuietAt(levels, |bits|, gap) && levels[|bits| + gap..] == rest
  {
    hide IsBit;
    PartsOf(bits + Quiet(gap) + rest, bits, Quiet(gap), rest);
  }

  lemma NoLevels()
    ensures Levels([]) == [] && Quiet(0) == [] && Messages([]) == [] && Sendable([])
    ensures forall t :: Separated([], t)
  {
  }
}
