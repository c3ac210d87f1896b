/** send_bytes and the wrap interrupt as two threads over the same variables: every
    interleaving puts whole messages on the air, separated by enough silence. */
module Transmission {
  import opened Crc
  import opened Physical

  /** Time is counted in thirds of a microsecond, so that a 2400 Hz cycle is a whole number. */
  const CYCLE_THIRDS: nat := 1250

  /** Wrap interrupts that at least happen while send_bytes sleeps. */
  const SLEEP_WRAPS: nat := 19

  /** Interrupts in the half-open time span (from, to] when they happen at multiples of the
      cycle, counted from any origin. */
  function WrapsIn(from: int, to: int): int
  {
    to / CYCLE_THIRDS - from / CYCLE_THIRDS
  }

  function WrapsInSleep(start: int): int
  {
    WrapsIn(start, start + 3 * SPACING_GENERATED_US)
  }

  /** The spacing sleep spans at least SLEEP_WRAPS interrupts, and no larger number is certain. */
  lemma SleepSpansWraps(n: int)
    ensures n <= SLEEP_WRAPS <==> forall start: int :: n <= WrapsInSleep(start)
  {
    if SLEEP_WRAPS < n {
      assert WrapsInSleep(0) == 19;
    }
  }

  // ----- what is heard

  datatype Block = Block(gap: nat, message: seq<byte>)

  function Quiet(n: nat): (levels: seq<nat>)
    ensures |levels| == n
  {
    seq(n, _ => PWM_DUTY_SILENCE)
  }

  function MessageLevels(m: seq<byte>): (levels: seq<nat>)
    ensures |levels| == 8 * |m|
  {
    seq(8 * |m|, j requires 0 <= j < 8 * |m| => if SentBit(m[j / 8], j % 8) then PWM_DUTY_ONE else PWM_DUTY_ZERO)
  }

  /** Silence, then a whole message, for each block in turn. */
  function Levels(blocks: seq<Block>): seq<nat>
    decreases |blocks|
  {
    if blocks == [] then []
    else
      var n := |blocks| - 1;
      Levels(blocks[..n]) + Quiet(blocks[n].gap) + MessageLevels(blocks[n].message)
  }

  function Messages(blocks: seq<Block>): (ms: seq<seq<byte>>)
    ensures |ms| == |blocks|
  {
    seq(|blocks|, i requires 0 <= i < |blocks| => blocks[i].message)
  }

  /** What is on the air, in counts of 1024: 512 in silence, and for each bit of a message, the most
      significant of a byte first, 853 if it is set and 170 if it is not. */
  lemma LevelsOnAir(m: seq<byte>, i: nat, k: nat, gap: nat, j: nat)
    requires i < |m| && k < 8 && j < gap
    ensures Quiet(gap)[j] == 512
    ensures MessageLevels(m)[8 * i + k] == if m[i] & [0x80, 0x40, 0x20, 0x10, 8, 4, 2, 1][k] != 0 then 853 else 170
  {
    BitOnAir(m[i], k);
    hide SentBit;
    assert (8 * i + k) / 8 == i && (8 * i + k) % 8 == k;
  }

  lemma BitOnAir(b: byte, k: nat)
    requires k < 8
    ensures SentBit(b, k) <==> b & [0x80, 0x40, 0x20, 0x10, 8, 4, 2, 1][k] != 0
  {
  }

  /** The first message follows the sleep; every later one also the interrupt that ended its
      predecessor. */
  predicate Spaced(blocks: seq<Block>)
  {
    forall i :: 0 <= i < |blocks| ==> (if i == 0 then SLEEP_WRAPS else SLEEP_WRAPS + 1) <= blocks[i].gap
  }

  // ----- the two threads

  datatype Phase =
    | Waiting
    | Sleeping(wraps: nat)
    | Copying(count: nat)
    | SettingCount
    | SettingBitIndex
    | SettingByteIndex
    | RaisingTransfer

  /** The shared variables, the sending thread, its messages still to come, and what has been
      on the air so far: whole blocks, then quiet levels, then part of the running message. */
  datatype System = System(tx: Tx, phase: Phase, todo: seq<seq<byte>>, air: seq<nat>,
                           blocks: seq<Block>, quiet: nat)

  predicate Sendable(messages: seq<seq<byte>>)
  {
    forall i :: 0 <= i < |messages| ==> 1 <= |messages[i]| <= BYTE_BUFFER_SIZE
  }

  ghost predicate Init(s: System, messages: seq<seq<byte>>)
  {
    && TxInRange(s.tx) && !s.tx.transfer && s.tx.level == PWM_DUTY_SILENCE
    && s.phase == Waiting && s.todo == messages && s.air == [] && s.blocks == [] && s.quiet == 0
  }

  /** One wrap interrupt, wherever the sending thread happens to be. */
  ghost predicate Interrupt(s: System, t: System)
    requires TxInRange(s.tx)
  {
    var tx := WrapIrq(s.tx);
    && t.tx == tx && t.air == s.air + [tx.level] && t.todo == s.todo && t.blocks == s.blocks
    && t.phase == (if s.phase.Sleeping? then Sleeping(s.phase.wraps + 1) else s.phase)
    && t.quiet == (if !tx.transfer then s.quiet + 1 else s.quiet)
  }

  /** One write of the sending thread, or one look at the flag it waits for. */
  ghost predicate Send(s: System, t: System)
    requires |s.tx.bytes| == BYTE_BUFFER_SIZE && Sendable(s.todo)
  {
    && s.todo != []
    && var m := s.todo[0];
    match s.phase
    case Waiting => t == if s.tx.transfer then s else s.(phase := Sleeping(0))
    case Sleeping(wraps) => SLEEP_WRAPS <= wraps && t == s.(phase := Copying(0))
    case Copying(count) =>
      count <= |m| &&
      t == if count < |m| then s.(tx := s.tx.(bytes := s.tx.bytes[count := m[count]]), phase := Copying(count + 1))
           else s.(phase := SettingCount)
    case SettingCount => t == s.(tx := s.tx.(byte_count := |m|), phase := SettingBitIndex)
    case SettingBitIndex => t == s.(tx := s.tx.(bit_index := 0), phase := SettingByteIndex)
    case SettingByteIndex => t == s.(tx := s.tx.(byte_index := 0), phase := RaisingTransfer)
    case RaisingTransfer =>
      t == s.(tx := s.tx.(transfer := true), phase := Waiting, todo := s.todo[1..],
              blocks := s.blocks + [Block(s.quiet, m)], quiet := 0)
  }

  ghost predicate Next(s: System, t: System)
  {
    TxInRange(s.tx) && Sendable(s.todo) && (Interrupt(s, t) || Send(s, t))
  }

  ghost predicate Run(run: seq<System>, messages: seq<seq<byte>>)
  {
    run != [] && Init(run[0], messages) && forall i :: 0 <= i < |run| - 1 ==> Next(run[i], run[i + 1])
  }

  // ----- the invariant

  /** How far the sending thread has come with the message it is about to start. */
  ghost predicate Prepared(s: System)
  {
    match s.phase
    case Waiting => true
    case Sleeping(_) => true
    case Copying(count) => s.todo != [] && count <= |s.todo[0]| && CopiedUpTo(s, count)
    case SettingCount => s.todo != [] && CopiedUpTo(s, |s.todo[0]|)
    case SettingBitIndex => s.todo != [] && CopiedUpTo(s, |s.todo[0]|) && s.tx.byte_count == |s.todo[0]|
    case SettingByteIndex =>
      s.todo != [] && CopiedUpTo(s, |s.todo[0]|) && s.tx.byte_count == |s.todo[0]| && s.tx.bit_index == 0
    case RaisingTransfer =>
      s.todo != [] && CopiedUpTo(s, |s.todo[0]|) && s.tx.byte_count == |s.todo[0]| && s.tx.bit_index == 0
      && s.tx.byte_index == 0
  }

  ghost predicate CopiedUpTo(s: System, count: nat)
    requires s.todo != []
  {
    count <= |s.todo[0]| <= |s.tx.bytes| && s.tx.bytes[..count] == s.todo[0][..count]
  }

  /** Quiet interrupts so far: one ended the previous message, the rest fell into the sleep. */
  ghost predicate Rested(s: System)
  {
    var since := if s.blocks == [] then 0 else 1;
    match s.phase
    case Waiting => s.tx.transfer || since <= s.quiet
    case Sleeping(wraps) => wraps + since <= s.quiet
    case _ => SLEEP_WRAPS + since <= s.quiet
  }

  ghost predicate Playing(tx: Tx, m: seq<byte>)
  {
    tx.byte_count == |m| <= |tx.bytes| && tx.bytes[..|m|] == m && tx.byte_index < |m| && tx.bit_index <= 8
  }

  function Played(tx: Tx): nat
  {
    8 * tx.byte_index + tx.bit_index
  }

  ghost predicate OnAir(s: System)
  {
    if !s.tx.transfer then
      s.air == Levels(s.blocks) + Quiet(s.quiet) && s.tx.level == PWM_DUTY_SILENCE
    else
      && s.blocks != [] && s.quiet == 0 && s.phase == Waiting
      && var n := |s.blocks| - 1;
      && Playing(s.tx, s.blocks[n].message)
      && s.air == Levels(s.blocks[..n]) + Quiet(s.blocks[n].gap) + MessageLevels(s.blocks[n].message)[..Played(s.tx)]
  }

  ghost predicate Inv(s: System, messages: seq<seq<byte>>)
  {
    && TxInRange(s.tx) && Sendable(messages) && Sendable(s.todo)
    && Messages(s.blocks) + s.todo == messages
    && Spaced(s.blocks) && Prepared(s) && Rested(s) && OnAir(s)
  }

  lemma QuietGrows(n: nat)
    ensures Quiet(n) + [PWM_DUTY_SILENCE] == Quiet(n + 1)
  {
  }

  lemma NextBit(tx: Tx, m: seq<byte>)
    requires TxInRange(tx) && tx.transfer && Playing(tx, m) && WrapIrq(tx).transfer
    ensures Playing(WrapIrq(tx), m) && Played(WrapIrq(tx)) == Played(tx) + 1
    ensures Played(tx) < 8 * |m| && WrapIrq(tx).level == MessageLevels(m)[Played(tx)]
  {
    var j, t := Played(tx), WrapIrq(tx);
    assert j / 8 == t.byte_index && j % 8 == t.bit_index - 1;
    assert tx.bytes[t.byte_index] == tx.bytes[..|m|][t.byte_index];
  }

  lemma BitGoesOut(s: System, t: System)
    requires TxInRange(s.tx) && Interrupt(s, t) && s.tx.transfer && t.tx.transfer && OnAir(s)
    ensures OnAir(t)
  {
    hide Levels, Quiet, MessageLevels, WrapIrq, Playing, Played;
    var n, m, j := |s.blocks| - 1, s.blocks[|s.blocks| - 1].message, Played(s.tx);
    NextBit(s.tx, m);
    OneMore(Levels(s.blocks[..n]) + Quiet(s.blocks[n].gap), MessageLevels(m), j);
  }

  lemma OneMore(before: seq<nat>, levels: seq<nat>, j: nat)
    requires j < |levels|
    ensures before + levels[..j] + [levels[j]] == before + levels[..j + 1]
  {
  }

  lemma MessageEnds(s: System, t: System)
    requires TxInRange(s.tx) && Interrupt(s, t) && s.tx.transfer && !t.tx.transfer && OnAir(s)
    ensures OnAir(t)
  {
    var n := |s.blocks| - 1;
    var levels := MessageLevels(s.blocks[n].message);
    assert levels[..Played(s.tx)] == levels;
    assert Quiet(1) == [PWM_DUTY_SILENCE];
  }

  lemma SilenceGoesOn(s: System, t: System)
    requires TxInRange(s.tx) && Interrupt(s, t) && !s.tx.transfer && OnAir(s)
    ensures OnAir(t)
  {
    QuietGrows(s.quiet);
    assert t.air == Levels(t.blocks) + Quiet(t.quiet);
  }

  lemma InterruptKeepsInv(s: System, t: System, messages: seq<seq<byte>>)
    requires Inv(s, messages) && Interrupt(s, t)
    ensures Inv(t, messages)
  {
    if !s.tx.transfer {
      SilenceGoesOn(s, t);
    } else if t.tx.transfer {
      BitGoesOut(s, t);
    } else {
      MessageEnds(s, t);
    }
  }

  lemma SendKeepsInv(s: System, t: System, messages: seq<seq<byte>>)
    requires Inv(s, messages) && Send(s, t)
    ensures Inv(t, messages)
  {
    if s.phase.RaisingTransfer? {
      TransferStarts(s, t);
    } else {
      PreparationGoesOn(s, t);
    }
  }

  lemma PreparationGoesOn(s: System, t: System)
    requires TxInRange(s.tx) && Sendable(s.todo) && Send(s, t) && !s.phase.RaisingTransfer?
    requires Prepared(s) && Rested(s) && OnAir(s)
    ensures TxInRange(t.tx) && Prepared(t) && Rested(t) && OnAir(t) && t.blocks == s.blocks && t.todo == s.todo
  {
    var m := s.todo[0];
    match s.phase
    case Copying(count) =>
      if count < |m| {
        assert m[..count + 1] == m[..count] + [m[count]];
      } else {
        assert m[..|m|] == m;
      }
    case _ =>
  }

  lemma TransferStarts(s: System, t: System)
    requires Inv(s, Messages(s.blocks) + s.todo) && Send(s, t) && s.phase.RaisingTransfer?
    ensures Inv(t, Messages(s.blocks) + s.todo)
  {
    var (m, n) := (s.todo[0], |s.blocks|);
    assert t.blocks[..n] == s.blocks;
    assert m[..|m|] == m;
    assert Messages(t.blocks) == Messages(s.blocks) + [m];
    assert MessageLevels(m)[..0] == [];
  }

  lemma {:induction false} RunKeepsInv(run: seq<System>, messages: seq<seq<byte>>, i: nat)
    requires Sendable(messages) && Run(run, messages) && i < |run|
    ensures Inv(run[i], messages)
    decreases i
  {
    if i == 0 {
      assert Levels([]) + Quiet(0) == [];
      assert Messages([]) + messages == messages;
    } else {
      RunKeepsInv(run, messages, i - 1);
      assert Next(run[i - 1], run[i]);
      if Interrupt(run[i - 1], run[i]) {
        InterruptKeepsInv(run[i - 1], run[i], messages);
      } else {
        SendKeepsInv(run[i - 1], run[i], messages);
      }
    }
  }

  /** What every interleaving puts on the air: in order, each started message whole and most
      significant bit first, the running one so far as its bits have gone out, and between
      messages more silent cycles than the sleep spans. */
  lemma EmittedLevels(run: seq<System>, messages: seq<seq<byte>>, i: nat)
    requires Sendable(messages) && Run(run, messages) && i < |run|
    ensures Messages(run[i].blocks) + run[i].todo == messages
    ensures Spaced(run[i].blocks) && TxInRange(run[i].tx) && OnAir(run[i])
  {
    RunKeepsInv(run, messages, i);
  }

  // ----- how long a transfer takes

  ghost predicate Interrupts(ts: seq<Tx>)
  {
    forall i :: 0 <= i < |ts| ==> IrqSafe(ts[i]) && (i + 1 < |ts| ==> ts[i + 1] == WrapIrq(ts[i]))
  }

  lemma {:induction false} TransferProgress(ts: seq<Tx>, t: Tx, bytes: seq<byte>, n: nat)
    requires TxInRange(t) && |bytes| <= BYTE_BUFFER_SIZE && ts != [] && ts[0] == Started(t, bytes) && Interrupts(ts)
    requires 0 < n < |ts| && (n <= 8 * |bytes| || bytes == [])
    ensures ts[n].transfer && ts[n].byte_count == |bytes|
    ensures ts[n].byte_index == (n - 1) / 8 && ts[n].bit_index == (n - 1) % 8 + 1
    decreases n
  {
    assert ts[n - 1 + 1] == WrapIrq(ts[n - 1]);
    if n != 1 {
      TransferProgress(ts, t, bytes, n - 1);
    }
  }

  /** A transfer of at least one byte is over after exactly 8 * count + 1 interrupts; one of no
      bytes is never over, up to the point where the handler leaves the buffer. */
  lemma TransferLength(ts: seq<Tx>, t: Tx, bytes: seq<byte>, n: nat)
    requires TxInRange(t) && |bytes| <= BYTE_BUFFER_SIZE && ts != [] && ts[0] == Started(t, bytes) && Interrupts(ts)
    requires n < |ts|
    ensures ts[n].transfer <==> bytes == [] || n <= 8 * |bytes|
    decreases n
  {
    if n == 0 {
    } else if bytes == [] || n <= 8 * |bytes| {
      TransferProgress(ts, t, bytes, n);
    } else {
      assert ts[n - 1 + 1] == WrapIrq(ts[n - 1]);
      TransferLength(ts, t, bytes, n - 1);
      if n == 8 * |bytes| + 1 {
        TransferProgress(ts, t, bytes, n - 1);
      }
    }
  }

  // ----- the writes without interruption

  ghost predicate Writes(ss: seq<System>)
  {
    forall i :: 0 <= i < |ss| ==>
      TxInRange(ss[i].tx) && Sendable(ss[i].todo) && (i + 1 < |ss| ==> Send(ss[i], ss[i + 1]))
  }

  lemma {:induction false} CopyProgress(ss: seq<System>, n: nat)
    requires Writes(ss) && n < |ss| && ss[0].phase == Copying(0) && ss[0].todo != []
    requires n <= |ss[0].todo[0]|
    ensures ss[n].phase == Copying(n) && ss[n].todo == ss[0].todo
    ensures ss[n].tx == ss[0].tx.(bytes := ss[0].todo[0][..n] + ss[0].tx.bytes[n..])
    decreases n
  {
    if n != 0 {
      CopyProgress(ss, n - 1);
      assert Send(ss[n - 1], ss[n - 1 + 1]);
    } else {
      assert ss[0].todo[0][..0] + ss[0].tx.bytes[0..] == ss[0].tx.bytes;
    }
  }

  /** Left alone, the single writes add up to what send_bytes does in one go. */
  lemma WritesStartTransfer(ss: seq<System>, m: seq<byte>)
    requires Writes(ss) && |ss| == |m| + 6 && ss[0].phase == Copying(0) && ss[0].todo != [] && ss[0].todo[0] == m
    ensures ss[|m| + 5].tx == Started(ss[0].tx, m) && ss[|m| + 5].phase == Waiting
  {
    var n := |m|;
    CopyProgress(ss, n);
    assert Send(ss[n], ss[n + 1]) && Send(ss[n + 1], ss[n + 1 + 1]) && Send(ss[n + 2], ss[n + 2 + 1]);
    assert Send(ss[n + 3], ss[n + 3 + 1]) && Send(ss[n + 4], ss[n + 4 + 1]);
    assert m[..n] == m;
  }
}
