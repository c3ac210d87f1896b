/** The pager (pagers-client/main.cpp): the one-frame mailbox between the receiving interrupt
    and the main loop, and what the main loop does with a frame, the button and the clock. */
module Client {
  import opened Crc
  import opened NumberTheory
  import opened Protocol
  import opened Security

  const PAIR_FLASH_US: nat := 100000
  const FLASH_US: nat := 500000

  // ----- the mailbox

  /** Where the main loop is with the frame: looking at the flag, reading the buffer byte by
      byte, or done with the data but not yet with the flag. */
  datatype Reader =
    | Looking
    | Reading(copied: seq<byte>)
    | Done(data: Message)

  /** The shared flag and buffer, the main loop, and a history: what the interrupt accepted and
      what the main loop has finished with. */
  datatype Mailbox = Mailbox(frame_present: bool, frame: seq<byte>, reader: Reader,
                             accepted: seq<seq<byte>>, processed: seq<Message>)

  ghost predicate Empty(b: Mailbox)
  {
    !b.frame_present && |b.frame| == PROTO_FRAME_SIZE && b.reader == Looking && b.accepted == [] && b.processed == []
  }

  /** frame_received: only an empty mailbox takes a frame, and only one of the right size. */
  function FrameReceived(b: Mailbox, buffer: seq<byte>): Mailbox
  {
    if !b.frame_present && |buffer| == PROTO_FRAME_SIZE then
      b.(frame := buffer, frame_present := true, accepted := b.accepted + [buffer])
    else b
  }

  ghost predicate MainStep(b: Mailbox, c: Mailbox)
  {
    match b.reader
    case Looking => c == if b.frame_present then b.(reader := Reading([])) else b
    case Reading(copied) =>
      if |copied| < |b.frame| then c == b.(reader := Reading(copied + [b.frame[|copied|]]))
      else |copied| == PROTO_FRAME_SIZE && c == b.(reader := Done(Decoded(copied)))
    case Done(data) => c == b.(reader := Looking, frame_present := false, processed := b.processed + [data])
  }

  ghost predicate Next(b: Mailbox, c: Mailbox)
  {
    MainStep(b, c) || exists buffer: seq<byte> :: c == FrameReceived(b, buffer)
  }

  ghost predicate Run(bs: seq<Mailbox>)
  {
    bs != [] && Empty(bs[0]) && forall i :: 0 <= i < |bs| - 1 ==> Next(bs[i], bs[i + 1])
  }

  ghost predicate Inv(b: Mailbox)
  {
    && |b.frame| == PROTO_FRAME_SIZE
    && (forall i :: 0 <= i < |b.accepted| ==> |b.accepted[i]| == PROTO_FRAME_SIZE)
    && |b.accepted| == |b.processed| + (if b.frame_present then 1 else 0)
    && (b.frame_present ==> b.accepted[|b.processed|] == b.frame)
    && (forall i :: 0 <= i < |b.processed| ==> b.processed[i] == Decoded(b.accepted[i]))
    && match b.reader
       case Looking => true
       case Reading(copied) => b.frame_present && |copied| <= |b.frame| && copied == b.frame[..|copied|]
       case Done(data) => b.frame_present && data == Decoded(b.frame)
  }

  lemma NextKeepsInv(b: Mailbox, c: Mailbox)
    requires Inv(b) && Next(b, c)
    ensures Inv(c)
  {
    hide Decoded;
    if MainStep(b, c) && b.reader.Reading? && |b.reader.copied| == |b.frame| {
      assert b.frame[..|b.frame|] == b.frame;
    }
  }

  /** In every interleaving of the interrupt with the main loop's single reads, what the main loop
      has decoded are the accepted frames, whole, in order and once each; the only frame possibly
      outstanding is the one in the buffer. */
  lemma {:induction false} FramesNeverTorn(bs: seq<Mailbox>, i: nat)
    requires Run(bs) && i < |bs|
    ensures Inv(bs[i])
    ensures |bs[i].processed| <= |bs[i].accepted| <= |bs[i].processed| + 1
    decreases i
  {
    if i != 0 {
      FramesNeverTorn(bs, i - 1);
      assert Next(bs[i - 1], bs[i - 1 + 1]);
      NextKeepsInv(bs[i - 1], bs[i]);
    }
  }

  // ----- which frames get through the mailbox

  /** One step of a run: the callback is handed a buffer, or the main loop goes on. */
  datatype Step = Deliver(buffer: seq<byte>) | Main

  ghost predicate Takes(b: Mailbox, c: Mailbox, step: Step)
  {
    match step
    case Deliver(buffer) => c == FrameReceived(b, buffer)
    case Main => MainStep(b, c)
  }

  ghost predicate Steps(bs: seq<Mailbox>, steps: seq<Step>)
  {
    |bs| == |steps| + 1 && Empty(bs[0]) && forall i :: 0 <= i < |steps| ==> Takes(bs[i], bs[i + 1], steps[i])
  }

  lemma StepsRun(bs: seq<Mailbox>, steps: seq<Step>)
    requires Steps(bs, steps)
    ensures Run(bs)
  {
    hide FrameReceived, MainStep;
    forall i | 0 <= i < |bs| - 1
      ensures Next(bs[i], bs[i + 1])
    {
      assert Takes(bs[i], bs[i + 1], steps[i]);
    }
  }

  /** The buffers handed to the callback, in order. */
  function Delivered(steps: seq<Step>): seq<seq<byte>>
    decreases |steps|
  {
    if steps == [] then []
    else
      var n := |steps| - 1;
      Delivered(steps[..n]) + if steps[n].Deliver? then [steps[n].buffer] else []
  }

  /** Every buffer has the size of a frame and finds the mailbox empty. */
  ghost predicate InTime(bs: seq<Mailbox>, steps: seq<Step>, n: nat)
    requires n <= |steps| <= |bs|
  {
    forall i :: 0 <= i < n && steps[i].Deliver? ==> !bs[i].frame_present && |steps[i].buffer| == PROTO_FRAME_SIZE
  }

  lemma OneStep(b: Mailbox, c: Mailbox, step: Step)
    requires Takes(b, c, step)
    ensures var taken := step.Deliver? && !b.frame_present && |step.buffer| == PROTO_FRAME_SIZE;
            c.accepted == b.accepted + if taken then [step.buffer] else []
  {
    hide Decoded;
  }

  /** Frames are accepted exactly as they are handed over as long as each of them finds the mailbox
      empty; one that does not is lost for good. */
  lemma {:induction false} AcceptedExactly(bs: seq<Mailbox>, steps: seq<Step>, n: nat)
    requires Steps(bs, steps) && n <= |steps|
    ensures |bs[n].accepted| <= |Delivered(steps[..n])|
    ensures |bs[n].accepted| == |Delivered(steps[..n])| <==> InTime(bs, steps, n)
    ensures InTime(bs, steps, n) ==> bs[n].accepted == Delivered(steps[..n])
    decreases n
  {
    hide Takes, Empty;
    if n == 0 {
      NothingAccepted(bs[0]);
    } else {
      AcceptedExactly(bs, steps, n - 1);
      OneStep(bs[n - 1], bs[n - 1 + 1], steps[n - 1]);
      assert steps[..n][..n - 1] == steps[..n - 1] && steps[..n][n - 1] == steps[n - 1];
    }
  }

  lemma NothingAccepted(b: Mailbox)
    requires Empty(b)
    ensures b.accepted == []
  {
  }

  /** Once the main loop is through with the last of them it has decoded every frame handed over, in
      order, exactly if each found the mailbox empty. */
  lemma ProcessedExactly(bs: seq<Mailbox>, steps: seq<Step>)
    requires Steps(bs, steps) && !bs[|steps|].frame_present
    ensures var (processed, delivered) := (bs[|steps|].processed, Delivered(steps));
            && |processed| <= |delivered| && (|processed| == |delivered| <==> InTime(bs, steps, |steps|))
            && (InTime(bs, steps, |steps|) ==>
                  forall i :: 0 <= i < |processed| ==>
                    |delivered[i]| == PROTO_FRAME_SIZE && processed[i] == Decoded(delivered[i]))
  {
    hide Steps, Delivered, Decoded, InTime;
    assert |bs| == |steps| + 1 by { StepsLength(bs, steps); }
    assert steps[..|steps|] == steps;
    StepsRun(bs, steps);
    AcceptedExactly(bs, steps, |steps|);
    FramesNeverTorn(bs, |steps|);
  }

  lemma StepsLength(bs: seq<Mailbox>, steps: seq<Step>)
    requires Steps(bs, steps)
    ensures |bs| == |steps| + 1
  {
  }

  // ----- what a message does

  /** The light that blinked for the last record. */
  datatype Light = NoLight | Green | Red

  datatype Pager = Pager(device_id: ushort, pairing: bool, button_up: bool, flash_time_left: int,
                         last_flash: nat, flash_led: bool, last_pair_flash: nat, pair_led: bool,
                         yellow: bool, light: Light)

  /** The main loop's handling of a decoded record. The checksum only picks the light to blink. */
  function Handled(p: Pager, m: Message): Pager
  {
    Reaction(p.(light := if ChecksumHolds(m) then Green else Red), m)
  }

  function Reaction(p: Pager, m: Message): Pager
  {
    var q :=
      if m.message_type == PAIR && p.pairing then p.(pairing := false, yellow := false, device_id := m.receiver_id)
      else p;
    if m.receiver_id == q.device_id && m.message_type == FLASH then
      q.(flash_time_left := m.message_param as int, yellow := if m.message_param == 0 then false else q.yellow)
    else q
  }

  /** The button: a release toggles pairing mode. */
  function Button(p: Pager, up: bool): Pager
  {
    if !up then p.(button_up := false)
    else if p.button_up then p
    else p.(button_up := true, pairing := !p.pairing, yellow := if p.pairing then false else p.yellow)
  }

  /** Unsigned 64-bit difference of clock readings. */
  function Since(now: nat, last: nat): nat
  {
    (now as int - last as int) % 0x1_0000_0000_0000_0000
  }

  function PairBlink(p: Pager, now: nat): Pager
  {
    if p.pairing && Since(now, p.last_pair_flash) > PAIR_FLASH_US then
      p.(last_pair_flash := now, pair_led := !p.pair_led, yellow := !p.pair_led)
    else p
  }

  /** Every second toggle, the one that lights the LED, takes a second off the flash time. */
  function FlashBlink(p: Pager, now: nat): Pager
  {
    if p.flash_time_left > 0 && Since(now, p.last_flash) > FLASH_US then
      var led := !p.flash_led;
      var left := if led then p.flash_time_left - 1 else p.flash_time_left;
      p.(last_flash := now, flash_led := led, flash_time_left := left, yellow := led && left != 0)
    else p
  }

  /** What one turn of the main loop finds: the button, a frame's record if there is one, the time. */
  datatype Input = Input(up: bool, heard: bool, message: Message, now: nat)

  function TurnOf(p: Pager, x: Input): Pager
  {
    var q := Button(p, x.up);
    FlashBlink(PairBlink(if x.heard then Handled(q, x.message) else q, x.now), x.now)
  }

  class PagerClient {
    var frame_present: bool
    const frame: array<byte>
    var pager: Pager
    const data: ProtoData
    const crc: Crc16

    constructor (device_id: ushort)
      ensures Valid() && !frame_present
      ensures pager == Pager(device_id, false, true, 0, 0, false, 0, false, false, NoLight)
    {
      frame_present := false;
      frame := new byte[PROTO_FRAME_SIZE];
      pager := Pager(device_id, false, true, 0, 0, false, 0, false, false, NoLight);
      data := new ProtoData(Message(0, 0, 0, 0, 0));
      crc := new Crc16();
    }

    ghost predicate Valid()
      reads this, crc, crc.table
    {
      frame.Length == PROTO_FRAME_SIZE && crc.Valid()
    }

    /** The receiving callback. */
    method Receive(buffer: seq<byte>)
      requires Valid()
      modifies this`frame_present, frame
      ensures Valid()
      ensures var b := FrameReceived(Mailbox(old(frame_present), old(frame[..]), Looking, [], []), buffer);
              frame_present == b.frame_present && frame[..] == b.frame
    {
      if !frame_present {
        if |buffer| != PROTO_FRAME_SIZE {
          return;
        }
        StoreBytes(buffer, frame);
        frame_present := true;
      }
    }

    /** The main loop's turn for the mailbox. */
    method ProcessFrame()
      requires Valid()
      modifies this`frame_present, this`pager, data, crc, crc.table
      ensures Valid() && !frame_present
      ensures pager == if old(frame_present) then Handled(old(pager), Decoded(old(frame[..]))) else old(pager)
    {
      hide Decoded, ChecksumHolds, Reaction;
      if frame_present {
        var r := ProtoDecrypt(frame, data);
        var verified := data.ChecksumVerify(crc);
        if verified == SUCCESS {
          pager := pager.(light := Green);
        } else {
          pager := pager.(light := Red);
        }
        React();
        frame_present := false;
      }
    }

    method React()
      modifies this`pager
      ensures pager == Reaction(old(pager), data.Value())
    {
      if data.message_type == PAIR {
        if pager.pairing {
          pager := pager.(pairing := false, yellow := false, device_id := data.receiver_id);
        }
      }
      if data.receiver_id == pager.device_id {
        if data.message_type == FLASH {
          pager := pager.(flash_time_left := data.message_param as int);
          if pager.flash_time_left == 0 {
            pager := pager.(yellow := false);
          }
        }
      }
    }

    /** The rest of a turn: the button before the frame, the two blinkers after it. */
    method Turn(up: bool, now: nat)
      requires Valid()
      modifies this`frame_present, this`pager, data, crc, crc.table
      ensures Valid() && !frame_present
      ensures pager == TurnOf(old(pager), Input(up, old(frame_present), Decoded(old(frame[..])), now))
    {
      pager := Button(pager, up);
      ProcessFrame();
      pager := PairBlink(pager, now);
      pager := FlashBlink(pager, now);
    }
  }

  // ----- handling repeated messages

  /** Handling a record again at once changes nothing: the server sends each of them five times. */
  lemma HandlingIsIdempotent(p: Pager, m: Message)
    ensures Handled(Handled(p, m), m) == Handled(p, m)
  {
    hide ChecksumHolds, Reaction;
    var q := p.(light := if ChecksumHolds(m) then Green else Red);
    ReactionIsIdempotent(q, m);
    ReactionKeepsLight(q, m);
  }

  lemma ReactionKeepsLight(p: Pager, m: Message)
    ensures Reaction(p, m).light == p.light
  {
  }

  lemma ReactionIsIdempotent(p: Pager, m: Message)
    ensures Reaction(Reaction(p, m), m) == Reaction(p, m)
  {
    if m.message_type == PAIR && p.pairing {
      assert !Reaction(p, m).pairing;
    }
  }

  function HandledAll(p: Pager, ms: seq<Message>): Pager
    decreases |ms|
  {
    if ms == [] then p else Handled(HandledAll(p, ms[..|ms| - 1]), ms[|ms| - 1])
  }

  /** Records for others leave a pager alone unless it is waiting to be paired. */
  lemma {:induction false} OthersIgnored(p: Pager, ms: seq<Message>)
    requires !p.pairing && forall i :: 0 <= i < |ms| ==> ms[i].receiver_id != p.device_id
    ensures HandledAll(p, ms) == p.(light := HandledAll(p, ms).light)
    decreases |ms|
  {
    hide ChecksumHolds;
    if ms != [] {
      OthersIgnored(p, ms[..|ms| - 1]);
    }
  }

  ghost predicate Repeats(ms: seq<Message>, id: ushort, kind: ushort, param: ushort)
  {
    forall i :: 0 <= i < |ms| ==> ms[i].receiver_id == id && ms[i].message_type == kind && ms[i].message_param == param
  }

  /** Whatever number of repetitions arrives, if at least one does a waiting pager takes the id... */
  lemma {:induction false} PairingTakesEffect(p: Pager, ms: seq<Message>, id: ushort, param: ushort)
    requires p.pairing && ms != [] && Repeats(ms, id, PAIR, param)
    ensures HandledAll(p, ms).device_id == id && !HandledAll(p, ms).pairing
    decreases |ms|
  {
    var n := |ms| - 1;
    hide ChecksumHolds;
    if n != 0 {
      PairingTakesEffect(p, ms[..n], id, param);
    } else {
      assert ms[..n] == [];
    }
  }

  /** ... and a paired pager the flash time. */
  lemma {:induction false} FlashTakesEffect(p: Pager, ms: seq<Message>, time: ushort)
    requires ms != [] && Repeats(ms, p.device_id, FLASH, time)
    ensures HandledAll(p, ms).flash_time_left == time as int && HandledAll(p, ms).device_id == p.device_id
    decreases |ms|
  {
    var n := |ms| - 1;
    hide ChecksumHolds;
    if n != 0 {
      FlashTakesEffect(p, ms[..n], time);
    } else {
      assert ms[..n] == [];
    }
  }

  // ----- the countdown

  function Blinks(p: Pager, times: seq<nat>): Pager
    decreases |times|
  {
    if times == [] then p else FlashBlink(Blinks(p, times[..|times| - 1]), times[|times| - 1])
  }

  predicate LongSince(last: nat, now: nat)
  {
    FLASH_US < now as int - last as int && now < 0x1_0000_0000_0000_0000
  }

  function Previous(last: nat, times: seq<nat>, i: nat): nat
    requires i <= |times|
  {
    if i == 0 then last else times[i - 1]
  }

  /** Consecutive turns far enough apart for each to toggle. */
  ghost predicate HalfSeconds(last: nat, times: seq<nat>)
  {
    forall i :: 0 <= i < |times| ==> LongSince(Previous(last, times, i), times[i])
  }

  lemma FewerHalfSeconds(last: nat, times: seq<nat>, n: nat)
    requires HalfSeconds(last, times) && n <= |times|
    ensures HalfSeconds(last, times[..n])
  {
    forall i | 0 <= i < n
      ensures LongSince(Previous(last, times[..n], i), times[..n][i])
    {
      assert Previous(last, times[..n], i) == Previous(last, times, i);
    }
  }

  /** Toggles left until the flashing is over: two per second, one less when the LED is dark. */
  function TogglesLeft(p: Pager): int
  {
    if p.flash_time_left <= 0 then 0 else 2 * p.flash_time_left - if p.flash_led then 0 else 1
  }

  /** k toggles are behind us; the last happened at a given time. */
  ghost predicate CountedDown(p: Pager, q: Pager, k: nat, last: nat)
  {
    && TogglesLeft(q) == TogglesLeft(p) - k && q.last_flash == last && 0 <= q.flash_time_left
    && (0 < k ==> q.yellow == (0 < TogglesLeft(q) && TogglesLeft(q) % 2 == 0))
  }

  lemma Toggle(p: Pager, q: Pager, k: nat, last: nat, now: nat)
    requires CountedDown(p, q, k, last) && k < TogglesLeft(p) && LongSince(last, now)
    ensures CountedDown(p, FlashBlink(q, now), k + 1, now)
  {
  }

  lemma {:induction false} Countdown(p: Pager, times: seq<nat>)
    requires 0 < p.flash_time_left && HalfSeconds(p.last_flash, times) && |times| <= TogglesLeft(p)
    ensures CountedDown(p, Blinks(p, times), |times|, Previous(p.last_flash, times, |times|))
    decreases |times|
  {
    hide HalfSeconds, LongSince, FlashBlink, CountedDown, Previous, TogglesLeft;
    if times != [] {
      var n := |times| - 1;
      FewerHalfSeconds(p.last_flash, times, n);
      LastPrevious(p.last_flash, times);
      Countdown(p, times[..n]);
      Toggle(p, Blinks(p, times[..n]), n, Previous(p.last_flash, times, n), times[n]);
    } else {
      NoToggle(p);
    }
  }

  lemma NoToggle(p: Pager)
    requires 0 < p.flash_time_left
    ensures CountedDown(p, p, 0, Previous(p.last_flash, [], 0))
  {
  }

  lemma LastPrevious(last: nat, times: seq<nat>)
    requires times != [] && HalfSeconds(last, times)
    ensures var n := |times| - 1;
            && Previous(last, times, |times|) == times[n] && LongSince(Previous(last, times, n), times[n])
            && Previous(last, times[..n], n) == Previous(last, times, n)
  {
    hide LongSince;
  }

  /** A flash ends after exactly as many half seconds as it has toggles left. The LED is lit and dark by
      turns, lit before an even number of toggles to come, and dark at the end. */
  lemma FlashEnds(p: Pager, times: seq<nat>)
    requires 0 < p.flash_time_left && HalfSeconds(p.last_flash, times) && |times| <= TogglesLeft(p)
    ensures Blinks(p, times).flash_time_left == 0 <==> |times| == TogglesLeft(p)
    ensures var left := TogglesLeft(p) - |times|;
            times != [] ==> (Blinks(p, times).yellow <==> 0 < left && left % 2 == 0)
  {
    hide Blinks, HalfSeconds, LongSince;
    Countdown(p, times);
  }

  // ----- runs of turns

  function Turns(p: Pager, xs: seq<Input>): Pager
    decreases |xs|
  {
    if xs == [] then p else TurnOf(Turns(p, xs[..|xs| - 1]), xs[|xs| - 1])
  }

  /** How often the button was released, starting from a given position of it. */
  function Releases(up: bool, xs: seq<Input>): nat
    decreases |xs|
  {
    if xs == [] then 0
    else
      var n := |xs| - 1;
      Releases(up, xs[..n]) + if xs[n].up && !UpAfter(up, xs[..n]) then 1 else 0
  }

  function UpAfter(up: bool, xs: seq<Input>): bool
  {
    if xs == [] then up else xs[|xs| - 1].up
  }

  /** No record of a kind is heard. */
  ghost predicate NoneOf(xs: seq<Input>, kind: ushort)
  {
    forall i :: 0 <= i < |xs| ==> !xs[i].heard || xs[i].message.message_type != kind
  }

  predicate SamePairing(p: Pager, q: Pager)
  {
    q.device_id == p.device_id && q.pairing == p.pairing && q.button_up == p.button_up
  }

  lemma BlinksKeep(p: Pager, now: nat)
    ensures SamePairing(p, PairBlink(p, now)) && SamePairing(p, FlashBlink(p, now))
  {
  }

  lemma HandledKeeps(p: Pager, m: Message)
    ensures Handled(p, m).button_up == p.button_up
    ensures m.message_type == PAIR ==> !Handled(p, m).pairing && (!p.pairing ==> SamePairing(p, Handled(p, m)))
    ensures m.message_type != PAIR ==> SamePairing(p, Handled(p, m))
  {
    hide ChecksumHolds;
  }

  lemma TurnKeeps(p: Pager, x: Input)
    ensures var q := TurnOf(p, x);
            && q.button_up == x.up
            && (x.heard && x.message.message_type == PAIR ==> !q.pairing)
            && (!(x.heard && x.message.message_type == PAIR) ==>
                  q.device_id == p.device_id && q.pairing == (p.pairing != (x.up && !p.button_up)))
            && (q.device_id != p.device_id ==> p.pairing != (x.up && !p.button_up))
  {
    hide Handled, PairBlink, FlashBlink;
    var q := Button(p, x.up);
    var h := if x.heard then Handled(q, x.message) else q;
    HandledKeeps(q, x.message);
    BlinksKeep(h, x.now);
    BlinksKeep(PairBlink(h, x.now), x.now);
  }

  /** The button alone decides about pairing mode as long as no pairing record is heard: it is on
      exactly if the number of releases makes it so. */
  lemma {:induction false} PairingFollowsButton(p: Pager, xs: seq<Input>)
    requires NoneOf(xs, PAIR)
    ensures var q := Turns(p, xs);
            && q.device_id == p.device_id && q.button_up == UpAfter(p.button_up, xs)
            && q.pairing == (p.pairing != (Releases(p.button_up, xs) % 2 == 1))
    decreases |xs|
  {
    hide TurnOf;
    if xs != [] {
      var n := |xs| - 1;
      PairingFollowsButton(p, xs[..n]);
      TurnKeeps(Turns(p, xs[..n]), xs[n]);
    }
  }

  /** Without a release of the button a paired pager keeps its id, whatever is heard. */
  lemma {:induction false} IdNeedsButton(p: Pager, xs: seq<Input>)
    requires !p.pairing && Releases(p.button_up, xs) == 0
    ensures var q := Turns(p, xs);
            q.device_id == p.device_id && !q.pairing && q.button_up == UpAfter(p.button_up, xs)
    decreases |xs|
  {
    hide TurnOf;
    if xs != [] {
      var n := |xs| - 1;
      IdNeedsButton(p, xs[..n]);
      TurnKeeps(Turns(p, xs[..n]), xs[n]);
    }
  }

  ghost predicate InOrder(from: nat, xs: seq<Input>)
  {
    forall i, j :: 0 <= i <= j < |xs| ==> from <= xs[i].now <= xs[j].now < 0x1_0000_0000_0000_0000
  }

  // ----- how long a flash lasts

  /** When a record handled at t0 can first make the LED toggle: at once, or half a second after the last
      toggle. */
  function FirstToggle(last: nat, t0: nat): nat
  {
    if last + FLASH_US < t0 then t0 else last + FLASH_US + 1
  }

  /** Total toggles were left when a record was handled at t0, with the last toggle before it at a given
      time: the k-th toggle since came no earlier than k - 1 half seconds after the first one could. */
  ghost predicate NotTooFast(total: int, last: nat, t0: nat, q: Pager, now: nat)
  {
    var k := total - TogglesLeft(q);
    && 0 <= TogglesLeft(q) && 0 <= k && q.last_flash <= now && t0 <= now
    && (if k == 0 then q.last_flash == last else FirstToggle(last, t0) + (FLASH_US + 1) * (k - 1) <= q.last_flash)
    && 0 <= q.flash_time_left
  }

  /** If no two turns are more than g apart the k-th toggle came no later than k half seconds and k
      times g after the record, and the next one is due no later than half a second after it. */
  ghost predicate NotTooSlow(total: int, t0: nat, g: nat, q: Pager, now: nat)
  {
    var k := total - TogglesLeft(q);
    && 0 <= TogglesLeft(q) && 0 <= k && q.last_flash <= now < 0x1_0000_0000_0000_0000
    && q.last_flash <= t0 + (FLASH_US + g) * k
    && (0 < TogglesLeft(q) ==> now <= q.last_flash + FLASH_US)
  }

  /** A turn without a flash record for this pager; one for another pager does not count. */
  predicate NotFlashed(p: Pager, x: Input)
  {
    !x.heard || x.message.message_type != FLASH || x.message.receiver_id != p.device_id
  }

  /** Turns without a flash record for the id the pager has when it hears them. */
  ghost predicate Undisturbed(p: Pager, xs: seq<Input>)
  {
    forall i :: 0 <= i < |xs| ==> NotFlashed(Turns(p, xs[..i]), xs[i])
  }

  /** Everything of a turn but the last blinker leaves the flash alone, without such a record. */
  lemma FlashUntouched(p: Pager, x: Input)
    requires NotFlashed(p, x)
    ensures exists q: Pager :: TurnOf(p, x) == FlashBlink(q, x.now) && SameFlash(p, q)
  {
    hide ChecksumHolds;
    var h := if x.heard then Handled(Button(p, x.up), x.message) else Button(p, x.up);
    assert SameFlash(p, PairBlink(h, x.now));
  }

  predicate SameFlash(p: Pager, q: Pager)
  {
    q.flash_time_left == p.flash_time_left && q.last_flash == p.last_flash && q.flash_led == p.flash_led
  }

  lemma BlinkNotTooFast(total: int, last: nat, t0: nat, q: Pager, before: nat, now: nat)
    requires NotTooFast(total, last, t0, q, before) && before <= now < 0x1_0000_0000_0000_0000
    ensures NotTooFast(total, last, t0, FlashBlink(q, now), now)
  {
    var k := total - TogglesLeft(q);
    assert (FLASH_US + 1) * k == (FLASH_US + 1) * (k - 1) + (FLASH_US + 1);
  }

  lemma BlinkNotTooSlow(total: int, t0: nat, g: nat, q: Pager, before: nat, now: nat)
    requires 0 <= TogglesLeft(q) <= total && q.last_flash <= before <= now < 0x1_0000_0000_0000_0000
    requires q.last_flash <= t0 + (FLASH_US + g) * (total - TogglesLeft(q))
    requires 0 < TogglesLeft(q) && q.last_flash + FLASH_US < now ==>
      now <= t0 + (FLASH_US + g) * (total - TogglesLeft(q) + 1)
    ensures NotTooSlow(total, t0, g, FlashBlink(q, now), now)
  {
  }

  /** What a flash record does in the turn that hears it: it sets the time, and the blinker may already
      toggle, since it goes by the last toggle before. */
  lemma FlashHeard(p: Pager, x: Input)
    requires x.heard && x.message.message_type == FLASH && x.message.receiver_id == p.device_id
    ensures exists q: Pager ::
      && TurnOf(p, x) == FlashBlink(q, x.now) && q.flash_time_left == x.message.message_param as int
      && q.last_flash == p.last_flash && q.flash_led == p.flash_led
  {
    hide ChecksumHolds;
    var h := Handled(Button(p, x.up), x.message);
    assert PairBlink(h, x.now).flash_time_left == x.message.message_param as int;
    assert TurnOf(p, x) == FlashBlink(PairBlink(h, x.now), x.now);
  }

  /** The toggles a flash of some seconds takes: two per second, one less when the LED was dark. */
  function Toggles(seconds: nat, led: bool): nat
  {
    if seconds == 0 then 0 else 2 * seconds - if led then 0 else 1
  }

  function LastTime(from: nat, xs: seq<Input>): nat
  {
    if xs == [] then from else xs[|xs| - 1].now
  }

  /** Turns follow each other within g. */
  ghost predicate Within(from: nat, xs: seq<Input>, g: nat)
  {
    forall i :: 0 <= i < |xs| ==> xs[i].now <= LastTime(from, xs[..i]) + g
  }

  lemma ButLast(p: Pager, from: nat, xs: seq<Input>, g: nat)
    requires xs != [] && Undisturbed(p, xs) && InOrder(from, xs)
    ensures var n := |xs| - 1;
            && Undisturbed(p, xs[..n]) && NotFlashed(Turns(p, xs[..n]), xs[n])
            && InOrder(from, xs[..n]) && LastTime(from, xs[..n]) <= xs[n].now < 0x1_0000_0000_0000_0000
            && (Within(from, xs, g) ==> Within(from, xs[..n], g) && xs[n].now <= LastTime(from, xs[..n]) + g)
  {
    hide Turns, NotFlashed;
    var n := |xs| - 1;
    assert forall i :: 0 <= i < n ==> xs[..n][..i] == xs[..i];
  }

  lemma {:induction false} FlashNotTooFast(p: Pager, x: Input, xs: seq<Input>)
    requires x.heard && x.message.message_type == FLASH && x.message.receiver_id == p.device_id
    requires Undisturbed(TurnOf(p, x), xs) && p.last_flash <= x.now < 0x1_0000_0000_0000_0000 && InOrder(x.now, xs)
    ensures var total := Toggles(x.message.message_param as nat, p.flash_led);
            NotTooFast(total, p.last_flash, x.now, Turns(TurnOf(p, x), xs), LastTime(x.now, xs))
    decreases |xs|
  {
    hide TurnOf, FlashBlink, NotTooFast, TogglesLeft, Toggles, Undisturbed, NotFlashed, InOrder;
    var total := Toggles(x.message.message_param as nat, p.flash_led);
    if xs == [] {
      FlashHeard(p, x);
      var q :| TurnOf(p, x) == FlashBlink(q, x.now) && q.flash_time_left == x.message.message_param as int
               && q.last_flash == p.last_flash && q.flash_led == p.flash_led;
      JustSet(total, x.now, q, x.message.message_param as nat);
      BlinkNotTooFast(total, p.last_flash, x.now, q, x.now, x.now);
    } else {
      var n := |xs| - 1;
      var before := Turns(TurnOf(p, x), xs[..n]);
      ButLast(TurnOf(p, x), x.now, xs, 0);
      FlashNotTooFast(p, x, xs[..n]);
      FlashUntouched(before, xs[n]);
      var q :| TurnOf(before, xs[n]) == FlashBlink(q, xs[n].now) && SameFlash(before, q);
      SameNotTooFast(total, p.last_flash, x.now, before, q, LastTime(x.now, xs[..n]));
      BlinkNotTooFast(total, p.last_flash, x.now, q, LastTime(x.now, xs[..n]), xs[n].now);
    }
  }

  lemma JustSet(total: int, t0: nat, q: Pager, seconds: nat)
    requires q.flash_time_left == seconds && total == Toggles(seconds, q.flash_led) && q.last_flash <= t0
    ensures TogglesLeft(q) == total && NotTooFast(total, q.last_flash, t0, q, t0)
  {
  }

  lemma SameNotTooFast(total: int, last: nat, t0: nat, p: Pager, q: Pager, now: nat)
    requires NotTooFast(total, last, t0, p, now) && SameFlash(p, q)
    ensures NotTooFast(total, last, t0, q, now)
  {
  }

  lemma {:induction false} FlashNotTooSlow(p: Pager, x: Input, xs: seq<Input>, g: nat)
    requires x.heard && x.message.message_type == FLASH && x.message.receiver_id == p.device_id
    requires Undisturbed(TurnOf(p, x), xs) && p.last_flash <= x.now < 0x1_0000_0000_0000_0000 && InOrder(x.now, xs)
    requires Within(x.now, xs, g)
    ensures var total := Toggles(x.message.message_param as nat, p.flash_led);
            NotTooSlow(total, x.now, g, Turns(TurnOf(p, x), xs), LastTime(x.now, xs))
    decreases |xs|
  {
    hide TurnOf, FlashBlink, NotTooSlow, TogglesLeft, Toggles, Undisturbed, NotFlashed, InOrder, Within;
    var total := Toggles(x.message.message_param as nat, p.flash_led);
    if xs == [] {
      FlashHeard(p, x);
      var q :| TurnOf(p, x) == FlashBlink(q, x.now) && q.flash_time_left == x.message.message_param as int
               && q.last_flash == p.last_flash && q.flash_led == p.flash_led;
      JustSet(total, x.now, q, x.message.message_param as nat);
      BlinkNotTooSlow(total, x.now, g, q, x.now, x.now);
    } else {
      var n := |xs| - 1;
      var before, last := Turns(TurnOf(p, x), xs[..n]), LastTime(x.now, xs[..n]);
      ButLast(TurnOf(p, x), x.now, xs, g);
      FlashNotTooSlow(p, x, xs[..n], g);
      FlashUntouched(before, xs[n]);
      var q :| TurnOf(before, xs[n]) == FlashBlink(q, xs[n].now) && SameFlash(before, q);
      NextDue(total, x.now, g, before, q, last, xs[n].now);
      BlinkNotTooSlow(total, x.now, g, q, last, xs[n].now);
    }
  }

  /** The next turn comes in time for the next toggle. */
  lemma NextDue(total: int, t0: nat, g: nat, p: Pager, q: Pager, before: nat, now: nat)
    requires NotTooSlow(total, t0, g, p, before) && SameFlash(p, q) && now <= before + g
    ensures 0 <= TogglesLeft(q) <= total && q.last_flash <= before
    ensures q.last_flash <= t0 + (FLASH_US + g) * (total - TogglesLeft(q))
    ensures 0 < TogglesLeft(q) ==> now <= t0 + (FLASH_US + g) * (total - TogglesLeft(q) + 1)
  {
    var k := total - TogglesLeft(q);
    assert (FLASH_US + g) * (k + 1) == (FLASH_US + g) * k + (FLASH_US + g);
  }

  /** How long a flash lasts, over every run of turns behind the one that hears its record, without
      another flash record for this pager but with whatever else is heard or pressed: at least its
      toggles but one, of more than half a second each, from the moment it can first toggle, and at
      most its toggles, of half a second and one turn each, from the record. */
  lemma FlashLasts(p: Pager, x: Input, xs: seq<Input>)
    requires x.heard && x.message.message_type == FLASH && x.message.receiver_id == p.device_id
    requires Undisturbed(TurnOf(p, x), xs) && p.last_flash <= x.now < 0x1_0000_0000_0000_0000 && InOrder(x.now, xs)
    ensures var total: int := Toggles(x.message.message_param as nat, p.flash_led);
            var (q, end) := (Turns(TurnOf(p, x), xs), LastTime(x.now, xs));
            && 0 <= q.flash_time_left <= x.message.message_param as int
            && (q.flash_time_left == 0 && 0 < total ==>
                  FirstToggle(p.last_flash, x.now) + (FLASH_US + 1) * (total - 1) <= end)
            && forall g: nat :: Within(x.now, xs, g) && x.now + (FLASH_US + g) * total < end ==> q.flash_time_left == 0
  {
    hide Turns, TurnOf;
    var total: int := Toggles(x.message.message_param as nat, p.flash_led);
    var (q, end) := (Turns(TurnOf(p, x), xs), LastTime(x.now, xs));
    FlashNotTooFast(p, x, xs);
    forall g: nat | Within(x.now, xs, g) && x.now + (FLASH_US + g) * total < end
      ensures q.flash_time_left == 0
    {
      FlashNotTooSlow(p, x, xs, g);
      if 0 < TogglesLeft(q) {
        OverByThen(total, x.now, g, q, end);
      }
    }
  }

  lemma OverByThen(total: int, t0: nat, g: nat, q: Pager, now: nat)
    requires NotTooSlow(total, t0, g, q, now) && 0 < TogglesLeft(q)
    ensures now <= t0 + (FLASH_US + g) * total
  {
    var k := total - TogglesLeft(q);
    NonNegativeProduct(FLASH_US + g, TogglesLeft(q) - 1);
    assert (FLASH_US + g) * total == (FLASH_US + g) * k + (FLASH_US + g) + (FLASH_US + g) * (TogglesLeft(q) - 1);
  }

  /** The first toggle goes by the last one before the record: a flash of one second is over in the turn
      that hears it, and the LED dark again, exactly if the LED was dark and that toggle is more than
      half a second ago. */
  lemma OneSecondUnseen(p: Pager, x: Input)
    requires x.heard && x.message.message_type == FLASH && x.message.receiver_id == p.device_id
    requires x.message.message_param == 1
    ensures TurnOf(p, x).flash_time_left == 0 <==> !p.flash_led && Since(x.now, p.last_flash) > FLASH_US
    ensures TurnOf(p, x).flash_time_left == 0 ==> !TurnOf(p, x).yellow
  {
    hide TurnOf;
    FlashHeard(p, x);
    var q :| TurnOf(p, x) == FlashBlink(q, x.now) && q.flash_time_left == x.message.message_param as int
             && q.last_flash == p.last_flash && q.flash_led == p.flash_led;
  }

  /** Out of pairing mode, and once no time is left dark. */
  ghost predicate DarkAtEnd(p: Pager)
  {
    !p.pairing && (p.flash_time_left <= 0 ==> !p.yellow)
  }

  lemma TurnDarkens(p: Pager, x: Input)
    requires !p.pairing && (x.up ==> p.button_up)
    requires DarkAtEnd(p) || (x.heard && x.message.message_type == FLASH && x.message.receiver_id == p.device_id)
    ensures DarkAtEnd(TurnOf(p, x)) && TurnOf(p, x).button_up == x.up
  {
    hide ChecksumHolds;
  }

  /** When a flash is over the LED is dark, over every run of turns without a release of the button. */
  lemma {:induction false} FlashEndsDark(p: Pager, x: Input, xs: seq<Input>)
    requires x.heard && x.message.message_type == FLASH && x.message.receiver_id == p.device_id
    requires !p.pairing && Releases(p.button_up, [x] + xs) == 0
    ensures DarkAtEnd(Turns(TurnOf(p, x), xs)) && Turns(TurnOf(p, x), xs).button_up == UpAfter(x.up, xs)
    decreases |xs|
  {
    hide TurnOf;
    assert ([x] + xs)[..0] == [] && ([x] + xs)[..1] == [x] && [x][..0] == [];
    if xs == [] {
      assert [x] + xs == [x];
      TurnDarkens(p, x);
    } else {
      var n := |xs| - 1;
      assert ([x] + xs)[..n + 1] == [x] + xs[..n] && ([x] + xs)[n + 1] == xs[n];
      FlashEndsDark(p, x, xs[..n]);
      TurnDarkens(Turns(TurnOf(p, x), xs[..n]), xs[n]);
    }
  }

  // ----- when the LED is lit

  function Times(xs: seq<Input>): (times: seq<nat>)
    ensures |times| == |xs|
  {
    seq(|xs|, i requires 0 <= i < |xs| => xs[i].now)
  }

  datatype Beat = Beat(count: nat, last: nat)

  /** How many of some turns have a toggle: each turn more than a period after the last one, up to a
      number of them. And when the last one was. */
  function Beats(last: nat, times: seq<nat>, most: nat, period: nat): Beat
    decreases |times|
  {
    if times == [] then Beat(0, last)
    else
      var n := |times| - 1;
      var b := Beats(last, times[..n], most, period);
      if b.count < most && b.last + period < times[n] then Beat(b.count + 1, times[n]) else b
  }

  function Beaten(b: Beat, now: nat, most: nat, period: nat): Beat
  {
    if b.count < most && b.last + period < now then Beat(b.count + 1, now) else b
  }

  lemma LastBeat(last: nat, times: seq<nat>, now: nat, most: nat, period: nat)
    ensures Beats(last, times + [now], most, period) == Beaten(Beats(last, times, most, period), now, most, period)
  {
    assert (times + [now])[..|times|] == times;
  }

  /** A flash of some toggles in all, those counted by b behind it, on a pager out of pairing mode that
      showed a given LED before the first. */
  ghost predicate Flashing(q: Pager, total: int, b: Beat, shown: bool)
  {
    && !q.pairing && 0 <= q.flash_time_left && TogglesLeft(q) == total - b.count && q.last_flash == b.last
    && q.yellow == if b.count == 0 then shown else b.count < total && (total - b.count) % 2 == 0
  }

  lemma FlashGoesOn(q: Pager, x: Input, total: nat, b: Beat, shown: bool)
    requires Flashing(q, total, b, shown) && NotFlashed(q, x) && (x.up ==> q.button_up)
    requires b.last <= x.now < 0x1_0000_0000_0000_0000
    ensures Flashing(TurnOf(q, x), total, Beaten(b, x.now, total, 500000), shown) && TurnOf(q, x).button_up == x.up
    ensures Beaten(b, x.now, total, 500000).last <= x.now
  {
    hide ChecksumHolds;
  }

  lemma FlashBegins(p: Pager, x: Input)
    requires x.heard && x.message.message_type == 0xBBDD && x.message.receiver_id == p.device_id
    requires !p.pairing && (x.up ==> p.button_up) && p.last_flash <= x.now < 0x1_0000_0000_0000_0000
    ensures var total: nat := Toggles(x.message.message_param as nat, p.flash_led);
            var b := Beaten(Beat(0, p.last_flash), x.now, total, 500000);
            && Flashing(TurnOf(p, x), total, b, p.yellow && 0 < x.message.message_param) && b.last <= x.now
            && TurnOf(p, x).button_up == x.up
  {
    hide ChecksumHolds;
  }

  /** No release in all is none before the last turn, nor in it. */
  lemma NoReleases(up: bool, x: Input, xs: seq<Input>)
    requires Releases(up, [x] + xs) == 0
    ensures xs == [] ==> (x.up ==> up)
    ensures xs != [] ==> var n := |xs| - 1;
              Releases(up, [x] + xs[..n]) == 0 && (xs[n].up ==> UpAfter(x.up, xs[..n])) && UpAfter(x.up, xs) == xs[n].up
  {
    assert ([x] + xs)[..0] == [] && ([x] + xs)[..1] == [x] && [x][..0] == [];
    if xs == [] {
      assert [x] + xs == [x];
    } else {
      var n := |xs| - 1;
      assert ([x] + xs)[..n + 1] == [x] + xs[..n] && ([x] + xs)[n + 1] == xs[n];
    }
  }

  lemma OneMoreTime(now: nat, xs: seq<Input>)
    ensures [now] + Times([]) == [] + [now]
    ensures xs != [] ==> [now] + Times(xs) == [now] + Times(xs[..|xs| - 1]) + [xs[|xs| - 1].now]
  {
  }

  /** Without a release or another flash record for it, a pager out of pairing mode that hears one has its
      LED lit exactly between a toggle that leaves an even number of them to come and the next: from a
      dark LED the first, the third and so on, the last excepted. A toggle is due half a second after the
      one before. Until the first one the LED stays as it was, unless the flash is one of no time. */
  lemma {:induction false} FlashLit(p: Pager, x: Input, xs: seq<Input>)
    requires x.heard && x.message.message_type == 0xBBDD && x.message.receiver_id == p.device_id
    requires !p.pairing && Releases(p.button_up, [x] + xs) == 0
    requires Undisturbed(TurnOf(p, x), xs) && p.last_flash <= x.now < 0x1_0000_0000_0000_0000 && InOrder(x.now, xs)
    ensures var total: nat := Toggles(x.message.message_param as nat, p.flash_led);
            var b := Beats(p.last_flash, [x.now] + Times(xs), total, 500000);
            && Flashing(Turns(TurnOf(p, x), xs), total, b, p.yellow && 0 < x.message.message_param)
            && b.last <= LastTime(x.now, xs) && Turns(TurnOf(p, x), xs).button_up == UpAfter(x.up, xs)
    decreases |xs|
  {
    hide TurnOf, Flashing, Toggles, Undisturbed, NotFlashed, InOrder, Releases, Times, Beats;
    var total: nat := Toggles(x.message.message_param as nat, p.flash_led);
    NoReleases(p.button_up, x, xs);
    OneMoreTime(x.now, xs);
    if xs == [] {
      LastBeat(p.last_flash, [], x.now, total, 500000);
      NoBeats(p.last_flash, total, 500000);
      FlashBegins(p, x);
    } else {
      var n := |xs| - 1;
      ButLast(TurnOf(p, x), x.now, xs, 0);
      FlashLit(p, x, xs[..n]);
      var times := [x.now] + Times(xs[..n]);
      LastBeat(p.last_flash, times, xs[n].now, total, 500000);
      FlashGoesOn(Turns(TurnOf(p, x), xs[..n]), xs[n], total, Beats(p.last_flash, times, total, 500000),
                  p.yellow && 0 < x.message.message_param);
    }
  }

  lemma NoBeats(last: nat, most: nat, period: nat)
    ensures Beats(last, [], most, period) == Beat(0, last)
  {
  }

  /** A pager waiting to be paired, the toggles counted by b behind it. */
  ghost predicate Waiting(p: Pager, q: Pager, b: Beat)
  {
    && q.pairing && q.flash_time_left <= 0 && q.last_pair_flash == b.last
    && q.pair_led == (p.pair_led != (b.count % 2 == 1)) && q.yellow == if b.count == 0 then p.yellow else q.pair_led
  }

  lemma WaitingGoesOn(p: Pager, q: Pager, x: Input, most: nat, b: Beat)
    requires Waiting(p, q, b) && NotFlashed(q, x) && !(x.heard && x.message.message_type == 0xBDBD)
    requires (x.up ==> q.button_up) && b.count < most && b.last <= x.now < 0x1_0000_0000_0000_0000
    ensures Waiting(p, TurnOf(q, x), Beaten(b, x.now, most, 100000)) && TurnOf(q, x).button_up == x.up
    ensures Beaten(b, x.now, most, 100000).last <= x.now
  {
    hide ChecksumHolds;
  }

  /** In pairing mode, as long as no flash runs and neither a release nor a record ends it, the LED
      toggles with every turn more than a tenth of a second after the one that toggled it last. */
  lemma {:induction false} PairingBlinks(p: Pager, from: nat, xs: seq<Input>, most: nat)
    requires p.pairing && p.flash_time_left <= 0 && p.last_pair_flash <= from && |xs| <= most
    requires Undisturbed(p, xs) && NoneOf(xs, 0xBDBD) && Releases(p.button_up, xs) == 0 && InOrder(from, xs)
    ensures var b := Beats(p.last_pair_flash, Times(xs), most, 100000);
            && Waiting(p, Turns(p, xs), b) && b.count <= |xs| && b.last <= LastTime(from, xs)
            && Turns(p, xs).button_up == UpAfter(p.button_up, xs)
    decreases |xs|
  {
    hide TurnOf, Undisturbed, NotFlashed, InOrder;
    if xs != [] {
      var n := |xs| - 1;
      ButLast(p, from, xs, 0);
      PairingBlinks(p, from, xs[..n], most);
      assert Times(xs) == Times(xs[..n]) + [xs[n].now];
      LastBeat(p.last_pair_flash, Times(xs[..n]), xs[n].now, most, 100000);
      WaitingGoesOn(p, Turns(p, xs[..n]), xs[n], most, Beats(p.last_pair_flash, Times(xs[..n]), most, 100000));
    }
  }

  /** Pairing mode ends, by a release or a record, with a dark LED unless a flash is running. */
  lemma PairingEndsDark(p: Pager, x: Input)
    requires p.pairing && !TurnOf(p, x).pairing && TurnOf(p, x).flash_time_left <= 0
    ensures !TurnOf(p, x).yellow
  {
    hide ChecksumHolds;
  }

  // ----- the light for a record

  /** A record as it was signed gives the green light. The red one shows a burst of at most sixteen bits
      and any odd number of flips in it... */
  lemma CorruptionShown(p: Pager, m: Message, received: Message, e: seq<bool>)
    requires |e| == 8 * PROTO_DATA_SIZE && Bits(Bytes(received)) == XorBits(Bits(Bytes(Signed(m))), e)
    requires OddBits(e) || exists k, from: nat :: Burst(e, from, k)
    ensures Handled(p, Signed(m)).light == Green && Handled(p, received).light == Red
  {
    hide ChecksumHolds, Reaction, Signed, Bits, Bytes, Burst, OddBits, XorBits;
    SignedHolds(m);
    CorruptionDetected(m, received, e);
    ReactionKeepsLight(p.(light := Green), Signed(m));
    ReactionKeepsLight(p.(light := Red), received);
  }

  /** ... and whatever changed in one encrypted cell of its frame, unless the same record is decrypted. */
  lemma ChangedCellShown(p: Pager, m: Message, a: seq<byte>, cell: seq<byte>, b: seq<byte>, changed: seq<byte>)
    requires Frame(Signed(m)) == Around(a, cell, b) && |a| % 4 == 0 && |cell| == |changed| == 4
    ensures var received := Decoded(Around(a, changed, b));
            Handled(p, received).light == if received == Signed(m) then Green else Red
  {
    hide ChecksumHolds, Reaction, Signed, Frame, Decoded, Around;
    var received := Decoded(Around(a, changed, b));
    SignedHolds(m);
    ChangedCellDetected(m, a, cell, b, changed);
    ReactionKeepsLight(p.(light := Green), received);
    ReactionKeepsLight(p.(light := Red), received);
  }
}
