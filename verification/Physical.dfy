/** Constants of the pulse-width link (pagers-common/physical.hpp), its two interrupt handlers
    as functions of the shared variables, and the classes that hold those variables. */
module Physical {
  import opened Crc

  const BYTE_BUFFER_SIZE: nat := 128
  const CLOCK_SPEED_HZ: nat := 2400
  const CYCLE_TIME_US: nat := 1000000 / CLOCK_SPEED_HZ
  const SUB_CYCLES: nat := 6
  const PWM_TOP: nat := 1024
  const PWM_DUTY_SILENCE: nat := PWM_TOP * 3 / SUB_CYCLES
  const PWM_DUTY_ZERO: nat := PWM_TOP * 1 / SUB_CYCLES
  const PWM_DUTY_ONE: nat := PWM_TOP * 5 / SUB_CYCLES
  const PWM_DUTY_ZERO_MAX: nat := PWM_TOP * 2 / SUB_CYCLES
  const PWM_DUTY_ONE_MIN: nat := PWM_TOP * 4 / SUB_CYCLES
  const SPACING_GENERATED_US: nat := CYCLE_TIME_US * 20
  const SPACING_ALLOWED_US_MAX: nat := CYCLE_TIME_US * 10

  /** How far a pulse count may be off before a symbol is misread. */
  const COUNT_TOLERANCE: nat := 170

  datatype Symbol = Zero | One | Silence

  function DutyOf(s: Symbol): nat
  {
    match s
    case Zero => PWM_DUTY_ZERO
    case One => PWM_DUTY_ONE
    case Silence => PWM_DUTY_SILENCE
  }

  /** The receiver's reading of a pulse count. */
  function Reading(cnt: nat): Symbol
  {
    if cnt < PWM_DUTY_ZERO_MAX then Zero
    else if cnt > PWM_DUTY_ONE_MIN then One
    else Silence
  }

  /** Every count within the tolerance is read as the symbol sent, and no wider tolerance has
      that property. */
  lemma ToleranceExact(tolerance: nat)
    ensures tolerance <= COUNT_TOLERANCE <==>
      forall s: Symbol, cnt: nat :: Near(s, cnt, tolerance) ==> Reading(cnt) == s
  {
    if COUNT_TOLERANCE < tolerance {
      assert Near(Zero, 341, tolerance) && Reading(341) == Silence;
    }
  }

  predicate Near(s: Symbol, cnt: nat, tolerance: nat)
  {
    DutyOf(s) - tolerance <= cnt <= DutyOf(s) + tolerance
  }

  /** Bit i of a byte in sending order, most significant first, as the handler extracts it. */
  predicate SentBit(b: byte, i: nat)
    requires i < 8
  {
    (b << (i as bv4)) & 0x80 != 0
  }

  // ----- transmitter

  datatype Tx = Tx(bytes: seq<byte>, byte_count: nat, bit_index: nat, byte_index: nat, transfer: bool, level: nat)

  predicate TxInRange(t: Tx)
  {
    && |t.bytes| == BYTE_BUFFER_SIZE && t.byte_count <= BYTE_BUFFER_SIZE
    && (t.transfer ==> t.bit_index <= 8 && t.byte_index < t.byte_count)
  }

  /** The handler reads a cell that exists. */
  predicate IrqSafe(t: Tx)
  {
    && |t.bytes| == BYTE_BUFFER_SIZE
    && (t.transfer ==> t.bit_index <= 8)
    && (t.transfer && t.bit_index < 8 ==> t.byte_index < BYTE_BUFFER_SIZE)
    && (t.transfer && t.bit_index == 8 ==> t.byte_index + 1 == t.byte_count || t.byte_index + 1 < BYTE_BUFFER_SIZE)
  }

  /** The wrap interrupt: the next bit's duty, or silence once the last byte is out. */
  function WrapIrq(t: Tx): Tx
    requires IrqSafe(t)
  {
    if !t.transfer then t
    else if t.bit_index == 8 && t.byte_index + 1 == t.byte_count then
      t.(bit_index := 0, byte_index := t.byte_index + 1, transfer := false, level := PWM_DUTY_SILENCE)
    else
      var byte_index := if t.bit_index == 8 then t.byte_index + 1 else t.byte_index;
      var bit_index := if t.bit_index == 8 then 0 else t.bit_index;
      t.(bit_index := bit_index + 1, byte_index := byte_index,
         level := if SentBit(t.bytes[byte_index], bit_index) then PWM_DUTY_ONE else PWM_DUTY_ZERO)
  }

  class Transmitter {
    const tx_bytes: array<byte>
    var tx_byte_count: nat
    var tx_bit_index: nat
    var tx_byte_index: nat
    var tx_transfer: bool
    var level: nat

    /** send_setup: the carrier starts silent. */
    constructor ()
      ensures State().transfer == false && State().level == PWM_DUTY_SILENCE && TxInRange(State())
    {
      tx_bytes := new byte[BYTE_BUFFER_SIZE];
      tx_byte_count, tx_bit_index, tx_byte_index := 0, 0, 0;
      tx_transfer := false;
      level := PWM_DUTY_SILENCE;
    }

    ghost function State(): Tx
      reads this, tx_bytes
    {
      Tx(tx_bytes[..], tx_byte_count, tx_bit_index, tx_byte_index, tx_transfer, level)
    }

    method PwmWrapIrq()
      requires IrqSafe(State())
      modifies this
      ensures State() == WrapIrq(old(State()))
    {
      if !tx_transfer {
        return;
      }
      if tx_bit_index == 8 {
        tx_bit_index := 0;
        tx_byte_index := tx_byte_index + 1;
        if tx_byte_index == tx_byte_count {
          tx_transfer := false;
          level := PWM_DUTY_SILENCE;
          return;
        }
      }
      var bit := (tx_bytes[tx_byte_index] << (tx_bit_index as bv4)) & 0x80;
      level := if bit != 0 then PWM_DUTY_ONE else PWM_DUTY_ZERO;
      tx_bit_index := tx_bit_index + 1;
    }

    /** send_bytes after its waiting and sleeping. */
    method StartTransfer(bytes: seq<byte>)
      requires |bytes| <= BYTE_BUFFER_SIZE && tx_bytes.Length == BYTE_BUFFER_SIZE && !tx_transfer
      modifies this, tx_bytes
      ensures State() == Started(old(State()), bytes)
    {
      for i := 0 to |bytes|
        invariant tx_bytes[..i] == bytes[..i] && tx_bytes[i..] == old(tx_bytes[i..])
        invariant level == old(level)
      {
        tx_bytes[i] := bytes[i];
      }
      tx_byte_count := |bytes|;
      tx_bit_index := 0;
      tx_byte_index := 0;
      tx_transfer := true;
    }
  }

  function Started(t: Tx, bytes: seq<byte>): Tx
    requires |bytes| <= |t.bytes|
  {
    t.(bytes := bytes + t.bytes[|bytes|..], byte_count := |bytes|, bit_index := 0, byte_index := 0, transfer := true)
  }

  // ----- receiver

  datatype Rx = Rx(bytes: seq<byte>, bit_index: nat, byte_index: nat, last_good_bit: nat)

  predicate RxInRange(r: Rx)
  {
    |r.bytes| == BYTE_BUFFER_SIZE && r.bit_index < 8 && r.byte_index < BYTE_BUFFER_SIZE
  }

  /** Microseconds since the last bit, in unsigned 64-bit arithmetic. */
  function Elapsed(now: int, last: int): nat
  {
    (now - last) % 0x1_0000_0000_0000_0000
  }

  function ShiftIn(b: byte, bit: bool): byte
  {
    (b << 1) | (if bit then 1 else 0)
  }

  /** A bit taken in: a full byte moves on to the next cell, a full buffer starts over. */
  function Accepted(r: Rx, bit: bool, now: nat): Rx
    requires RxInRange(r)
  {
    var bytes := r.bytes[r.byte_index := ShiftIn(r.bytes[r.byte_index], bit)];
    if r.bit_index + 1 < 8 then Rx(bytes, r.bit_index + 1, r.byte_index, now)
    else Rx(bytes, 0, if r.byte_index + 1 == BYTE_BUFFER_SIZE then 0 else r.byte_index + 1, now)
  }

  /** The falling-edge interrupt: the new variables and the buffers handed to the callback. */
  function OnFall(r: Rx, cnt: nat, now: nat): (Rx, seq<seq<byte>>)
    requires RxInRange(r)
  {
    if Reading(cnt) == Silence then
      if Elapsed(now, r.last_good_bit) > SPACING_ALLOWED_US_MAX then
        (r.(bit_index := 0, byte_index := 0), if r.byte_index > 0 then [r.bytes[..r.byte_index]] else [])
      else
        (r, [])
    else
      (Accepted(r, Reading(cnt) == One, now), [])
  }

  /** A byte with its lowest bit replaced. */
  function WithLowBit(x: byte, bit: byte): byte
  {
    x ^ (((0 - bit) ^ x) & 1)
  }

  lemma ShiftXor(x: byte, bit: byte)
    requires bit == 0 || bit == 1
    ensures WithLowBit(x << 1, bit) == ShiftIn(x, bit == 1)
  {
  }

  class Receiver {
    const rx_bytes: array<byte>
    var rx_bit_index: nat
    var rx_byte_index: nat
    var last_good_bit: nat

    constructor ()
      ensures RxInRange(State()) && rx_bit_index == 0 && rx_byte_index == 0 && last_good_bit == 0
    {
      rx_bytes := new byte[BYTE_BUFFER_SIZE];
      rx_bit_index, rx_byte_index, last_good_bit := 0, 0, 0;
    }

    ghost function State(): Rx
      reads this, rx_bytes
    {
      Rx(rx_bytes[..], rx_bit_index, rx_byte_index, last_good_bit)
    }

    /** Returns the buffers passed to the callback, at most one. */
    method RxFallCallback(cnt: nat, now: nat) returns (delivered: seq<seq<byte>>)
      requires RxInRange(State())
      modifies this, rx_bytes
      ensures (State(), delivered) == OnFall(old(State()), cnt, now)
    {
      delivered := [];
      var bit: int;
      if cnt < PWM_DUTY_ZERO_MAX {
        bit := 0;
      } else if cnt > PWM_DUTY_ONE_MIN {
        bit := 1;
      } else {
        bit := -1;
        if Elapsed(now, last_good_bit) > SPACING_ALLOWED_US_MAX {
          if rx_byte_index > 0 {
            delivered := [rx_bytes[..rx_byte_index]];
          }
          rx_byte_index := 0;
          rx_bit_index := 0;
        }
      }
      if bit != -1 {
        AcceptBit(if bit == 1 then 1 else 0, now);
      }
    }

    method AcceptBit(bit: byte, now: nat)
      requires RxInRange(State()) && (bit == 0 || bit == 1)
      modifies this, rx_bytes
      ensures State() == Accepted(old(State()), bit == 1, now)
    {
      hide ShiftIn, WithLowBit;
      last_good_bit := now;
      ghost var before, at := rx_bytes[..], rx_byte_index;
      ShiftXor(rx_bytes[rx_byte_index], bit);
      rx_bytes[rx_byte_index] := rx_bytes[rx_byte_index] << 1;
      rx_bytes[rx_byte_index] := WithLowBit(rx_bytes[rx_byte_index], bit);
      assert rx_bytes[..] == before[at := ShiftIn(before[at], bit == 1)];
      rx_bit_index := rx_bit_index + 1;
      if rx_bit_index == 8 {
        rx_bit_index := 0;
        rx_byte_index := rx_byte_index + 1;
        if rx_byte_index == BYTE_BUFFER_SIZE {
          rx_byte_index := 0;
        }
      }
    }
  }
}
