/** The address leases of the DHCP server (pagers-server/dhcpserver/dhcpserver.c) as values, and what
    holds of them over runs. Time is counted in milliseconds without end; the server sees it modulo
    2^32, and keeps only the upper 16 bits of a lease's end. */
module Leases {
  type Byte = b: int | 0 <= b < 0x100

  type Mac = m: seq<Byte> | |m| == 6 witness seq(6, _ => 0)

  const ZERO_MAC: Mac := [0, 0, 0, 0, 0, 0]

  /** The number of addresses to lease. */
  const MAX_IP: nat := 8

  const LEASE_MS: nat := 86_400_000
  const TICKS: nat := 0x1_0000_0000

  datatype Lease = Lease(mac: Mac, expiry: nat)

  type Leases = s: seq<Lease> | |s| == MAX_IP witness seq(MAX_IP, _ => Lease(ZERO_MAC, 0))

  // ----- time

  function Ticks(now: nat): nat
  {
    now % TICKS
  }

  function ExpiryAt(now: nat): nat
  {
    (Ticks(now) + LEASE_MS) % TICKS / 0x1_0000
  }

  /** The difference of two 32-bit numbers is negative as a signed one. */
  predicate Expired(expiry: nat, now: nat)
  {
    (expiry * 0x1_0000 + 0xFFFF - Ticks(now)) % TICKS >= TICKS / 2
  }

  /** The last millisecond of a lease granted at a time. */
  function Deadline(granted: nat): nat
  {
    (granted + LEASE_MS) / 0x1_0000 * 0x1_0000 + 0xFFFF
  }

  lemma AddMultiple(x: int, k: int)
    ensures (x + k * TICKS) % TICKS == x % TICKS
  {
  }

  lemma Negated(x: int)
    ensures (-x - 1) % TICKS == TICKS - 1 - x % TICKS
  {
    AddMultiple(TICKS - 1 - x % TICKS, -(x / TICKS) - 1);
  }

  lemma DeadlineSeen(granted: nat)
    ensures ExpiryAt(granted) < 0x1_0000 && (ExpiryAt(granted) * 0x1_0000 + 0xFFFF) % TICKS == Deadline(granted) % TICKS
  {
    var t := granted + LEASE_MS;
    AddMultiple(Ticks(granted) + LEASE_MS, granted / TICKS);
    assert t % TICKS / 0x1_0000 == t / 0x1_0000 - t / TICKS * 0x1_0000;
    AddMultiple(ExpiryAt(granted) * 0x1_0000 + 0xFFFF, t / TICKS);
  }

  /** A lease is seen to have expired exactly during the 2^31 ms after its end, and again every 2^32 ms. */
  lemma ExpiredExactly(granted: nat, now: nat)
    ensures Expired(ExpiryAt(granted), now) <==> (now - Deadline(granted) - 1) % TICKS < TICKS / 2
  {
    hide ExpiryAt, Deadline;
    DeadlineSeen(granted);
    var d, e := Deadline(granted), ExpiryAt(granted) * 0x1_0000 + 0xFFFF;
    AddMultiple(d - now, e / TICKS - d / TICKS + now / TICKS);
    assert e - Ticks(now) == d - now + (e / TICKS - d / TICKS + now / TICKS) * TICKS;
    Negated(d - now);
  }

  /** A lease lasts at least a day and at most 65.536 s more. */
  lemma DeadlineBounds(granted: nat)
    ensures granted + LEASE_MS <= Deadline(granted) < granted + LEASE_MS + 0x1_0000
  {
  }

  /** A lease that ended 2^31 ms ago does not look expired any more. */
  lemma OldLeaseLooksValid()
    ensures Deadline(0) + TICKS / 2 + 1 == 2_233_925_632 && !Expired(ExpiryAt(0), 2_233_925_632)
  {
    ExpiredExactly(0, 2_233_925_632);
  }

  // ----- the two requests

  /** The first lease held by a client. */
  function FirstHeld(ls: seq<Lease>, mac: Mac): (i: nat)
    ensures i <= |ls| && (i < |ls| ==> ls[i].mac == mac) && forall j :: 0 <= j < i ==> ls[j].mac != mac
  {
    if ls == [] || ls[0].mac == mac then 0 else 1 + FirstHeld(ls[1..], mac)
  }

  predicate Available(l: Lease, now: nat)
  {
    l.mac == ZERO_MAC || Expired(l.expiry, now)
  }

  /** The first lease that is free or has expired when the scan comes to it. */
  function FirstAvailable(ls: seq<Lease>, clock: seq<nat>): (i: nat)
    requires |ls| == |clock|
    ensures i <= |ls| && (i < |ls| ==> Available(ls[i], clock[i]))
    ensures forall j :: 0 <= j < i ==> !Available(ls[j], clock[j])
  {
    if ls == [] || Available(ls[0], clock[0]) then 0 else 1 + FirstAvailable(ls[1..], clock[1..])
  }

  /** The lease offered: the client's own, or else one that is available; MAX_IP if there is none. */
  function Offered(ls: Leases, mac: Mac, clock: seq<nat>): (yi: nat)
    requires |clock| == MAX_IP
    ensures yi <= MAX_IP
  {
    if FirstHeld(ls, mac) < MAX_IP then FirstHeld(ls, mac) else FirstAvailable(ls, clock)
  }

  /** An available lease seen before the client's own is freed. */
  function Freed(ls: Leases, mac: Mac, clock: seq<nat>): Leases
    requires |clock| == MAX_IP
  {
    var i := FirstAvailable(ls, clock);
    if i < FirstHeld(ls, mac) then ls[i := ls[i].(mac := ZERO_MAC)] else ls
  }

  predicate Granted(ls: Leases, mac: Mac, yi: nat)
  {
    yi < MAX_IP && (ls[yi].mac == mac || ls[yi].mac == ZERO_MAC)
  }

  function AfterRequest(ls: Leases, mac: Mac, yi: nat, now: nat): Leases
  {
    if Granted(ls, mac, yi) then ls[yi := Lease(mac, ExpiryAt(now))] else ls
  }

  /** The address offered to a client is granted if it is requested next. */
  lemma OfferIsGranted(ls: Leases, mac: Mac, clock: seq<nat>)
    requires |clock| == MAX_IP
    ensures Offered(ls, mac, clock) < MAX_IP ==> Granted(Freed(ls, mac, clock), mac, Offered(ls, mac, clock))
  {
  }

  /** What a DISCOVER does to the leases: the first available one is freed unless the client holds it or an
      earlier one, also if a later one of its own is offered; the others stay. */
  lemma FreedExactly(ls: Leases, mac: Mac, clock: seq<nat>, k: nat)
    requires |clock| == MAX_IP && k < MAX_IP
    ensures var free := (ls[k].mac == ZERO_MAC || Expired(ls[k].expiry, clock[k]))
                        && (forall j :: 0 <= j < k ==> ls[j].mac != ZERO_MAC && !Expired(ls[j].expiry, clock[j]))
                        && forall j :: 0 <= j <= k ==> ls[j].mac != mac;
            Freed(ls, mac, clock)[k] == if free then Lease(ZERO_MAC, ls[k].expiry) else ls[k]
  {
    var i, h := FirstAvailable(ls, clock), FirstHeld(ls, mac);
    assert i <= k ==> Available(ls[i], clock[i]);
    assert h <= k ==> ls[h].mac == mac;
  }

  /** Nothing is offered only if every lease is held by another client and does not look expired. */
  lemma NothingOffered(ls: Leases, mac: Mac, clock: seq<nat>)
    requires |clock| == MAX_IP
    ensures Offered(ls, mac, clock) == MAX_IP
      <==> forall i :: 0 <= i < 8 ==>
             ls[i].mac != mac && ls[i].mac != [0, 0, 0, 0, 0, 0] && !Expired(ls[i].expiry, clock[i])
  {
  }

  // ----- runs

  /** A message handled, with the times at which the clock is read. */
  datatype Event =
    | Discover(mac: Mac, clock: seq<nat>)
    | Request(mac: Mac, yi: nat, now: nat)
    | Ignored

  predicate InTime(e: Event, from: nat, to: nat)
  {
    match e
    case Discover(_, clock) => |clock| == MAX_IP && forall i :: 0 <= i < MAX_IP ==> from <= clock[i] <= to
    case Request(_, _, now) => from <= now <= to
    case Ignored => true
  }

  function Next(ls: Leases, e: Event): Leases
    requires e.Discover? ==> |e.clock| == MAX_IP
  {
    match e
    case Discover(mac, clock) => Freed(ls, mac, clock)
    case Request(mac, yi, now) => AfterRequest(ls, mac, yi, now)
    case Ignored => ls
  }

  /** Messages are handled one after the other, the i-th between times[i] and times[i + 1]. */
  ghost predicate Run(lss: seq<Leases>, es: seq<Event>, times: seq<nat>)
  {
    && |lss| == |times| == |es| + 1
    && forall i :: 0 <= i < |es| ==>
      times[i] <= times[i + 1] && InTime(es[i], times[i], times[i + 1]) && lss[i + 1] == Next(lss[i], es[i])
  }

  ghost predicate Acked(lss: seq<Leases>, es: seq<Event>, i: nat, yi: nat)
  {
    i < |es| && i < |lss| && es[i].Request? && es[i].yi == yi && Granted(lss[i], es[i].mac, yi)
  }

  /** A client holds a lease, granted between two times. */
  ghost predicate Holds(ls: Leases, yi: nat, mac: Mac, from: nat, to: nat)
  {
    yi < MAX_IP && ls[yi].mac == mac && exists granted :: from <= granted <= to && ls[yi].expiry == ExpiryAt(granted)
  }

  /** One message handled no later than a day after the grant does not take the lease away. */
  lemma HoldsNext(ls: Leases, e: Event, yi: nat, mac: Mac, from: nat, to: nat, until: nat)
    requires Holds(ls, yi, mac, from, to) && to <= until && InTime(e, to, until) && mac != ZERO_MAC
    requires e.Discover? ==> forall i :: 0 <= i < MAX_IP ==> e.clock[i] <= from + LEASE_MS
    ensures Holds(Next(ls, e), yi, mac, from, until)
  {
    var granted :| from <= granted <= to && ls[yi].expiry == ExpiryAt(granted);
    match e
    case Discover(m, clock) =>
      NotExpired(granted, clock[yi]);
      assert !Available(ls[yi], clock[yi]);
    case Request(m, y, now) =>
    case Ignored =>
  }

  lemma NotExpired(granted: nat, now: nat)
    requires granted <= now <= granted + LEASE_MS
    ensures !Expired(ExpiryAt(granted), now)
  {
    ExpiredExactly(granted, now);
    DeadlineBounds(granted);
  }

  lemma {:induction false} HoldsUntil(lss: seq<Leases>, es: seq<Event>, times: seq<nat>, yi: nat, i: nat, j: nat)
    requires Run(lss, es, times) && i < j < |lss| && Acked(lss, es, i, yi) && es[i].mac != ZERO_MAC
    requires times[j] <= es[i].now + LEASE_MS
    ensures Holds(lss[j], yi, es[i].mac, es[i].now, times[j])
    decreases j
  {
    assert lss[j - 1 + 1] == Next(lss[j - 1], es[j - 1]);
    if i + 1 < j {
      assert times[j - 1] <= times[j - 1 + 1];
      HoldsUntil(lss, es, times, yi, i, j - 1);
      assert InTime(es[j - 1], times[j - 1], times[j - 1 + 1]);
      HoldsNext(lss[j - 1], es[j - 1], yi, es[i].mac, es[i].now, times[j - 1], times[j]);
    } else {
      assert InTime(es[i], times[i], times[i + 1]);
    }
  }

  /** Over every run, once an address is acknowledged to a client, no other client has it acknowledged
      for more than a day. */
  lemma LeaseIsExclusive(lss: seq<Leases>, es: seq<Event>, times: seq<nat>, yi: nat, i: nat, j: nat)
    requires Run(lss, es, times) && i < j && Acked(lss, es, i, yi) && Acked(lss, es, j, yi)
    requires es[i].mac != ZERO_MAC && es[j].mac != es[i].mac
    ensures es[j].now > es[i].now + LEASE_MS
  {
    assert InTime(es[j], times[j], times[j + 1]);
    if es[j].now <= es[i].now + LEASE_MS {
      HoldsUntil(lss, es, times, yi, i, j);
    }
  }

  /** Within the day the client itself is offered an address it holds, and acknowledged this one again. */
  lemma HolderKeepsAddress(lss: seq<Leases>, es: seq<Event>, times: seq<nat>, yi: nat, i: nat, j: nat)
    requires Run(lss, es, times) && i < j < |es| && Acked(lss, es, i, yi) && es[i].mac != ZERO_MAC
    requires times[j] <= es[i].now + LEASE_MS && (es[j].Discover? ==> |es[j].clock| == MAX_IP)
    ensures es[j].Discover? && es[j].mac == es[i].mac ==>
      var o := Offered(lss[j], es[j].mac, es[j].clock); o <= yi && lss[j][o].mac == es[i].mac
    ensures es[j].Request? && es[j].mac == es[i].mac && es[j].yi == yi ==> Acked(lss, es, j, yi)
  {
    HoldsUntil(lss, es, times, yi, i, j);
  }

  /** Nor is it offered to another client before a day has passed. */
  lemma LeaseIsNotOffered(lss: seq<Leases>, es: seq<Event>, times: seq<nat>, yi: nat, i: nat, j: nat)
    requires Run(lss, es, times) && i < j < |es| && Acked(lss, es, i, yi) && es[i].mac != ZERO_MAC
    requires es[j].Discover? && es[j].mac != es[i].mac && |es[j].clock| == MAX_IP
    requires Offered(lss[j], es[j].mac, es[j].clock) == yi
    ensures es[j].clock[yi] > es[i].now + LEASE_MS
  {
    assert InTime(es[j], times[j], times[j + 1]);
    if es[j].clock[yi] <= es[i].now + LEASE_MS {
      HoldsUntil(lss, es, times, yi, i, j);
      var granted :| es[i].now <= granted <= times[j] && lss[j][yi].expiry == ExpiryAt(granted);
      NotExpired(granted, es[j].clock[yi]);
    }
  }

  /** A client whose address is zero holds nothing: the lease it gets goes to whoever asks next. */
  lemma ZeroMacHoldsNothing(ls: Leases, yi: nat, now: nat, other: Mac)
    requires Granted(ls, ZERO_MAC, yi)
    ensures Granted(AfterRequest(ls, ZERO_MAC, yi, now), other, yi)
  {
  }
}
