/** The messages of the DHCP server (pagers-server/dhcpserver/dhcpserver.c): how options are found and
    written in a 548-byte message, and what is sent in reply to one. */
module DhcpServer {
  import opened Leases
  import opened Memory

  const DISCOVER: Byte := 1
  const OFFER: Byte := 2
  const REQUEST: Byte := 3
  const ACK: Byte := 5

  const OPT_SUBNET_MASK: Byte := 1
  const OPT_ROUTER: Byte := 3
  const OPT_DNS: Byte := 6
  const OPT_REQUESTED_IP: Byte := 50
  const OPT_IP_LEASE_TIME: Byte := 51
  const OPT_MSG_TYPE: Byte := 53
  const OPT_SERVER_ID: Byte := 54
  const OPT_END: Byte := 255

  const BASE_IP: nat := 16
  const MIN_SIZE: nat := 240 + 3
  const MSG_SIZE: nat := 548

  /** The message, and the bytes behind it that a search ending with a cut option reads. */
  const BUFFER_SIZE: nat := MSG_SIZE + 5

  const YIADDR: nat := 16
  const CHADDR: nat := 28
  const OPTIONS: nat := 240
  const OPTIONS_SIZE: nat := 308

  // ----- options

  datatype Opt = Opt(code: Byte, data: seq<Byte>)

  predicate Encodable(os: seq<Opt>)
  {
    forall i :: 0 <= i < |os| ==> os[i].code != OPT_END && |os[i].data| < 0x100
  }

  function Encoded(os: seq<Opt>): (s: seq<Byte>)
    requires Encodable(os)
  {
    if os == [] then [] else [os[0].code, |os[0].data|] + os[0].data + Encoded(os[1..])
  }

  function FirstOpt(os: seq<Opt>, code: Byte): (i: nat)
    ensures i <= |os| && (i < |os| ==> os[i].code == code) && forall j :: 0 <= j < i ==> os[j].code != code
  {
    if os == [] || os[0].code == code then 0 else 1 + FirstOpt(os[1..], code)
  }

  /** Where the search for an option, continued from a position, ends. */
  function OptFind(area: seq<Byte>, i: nat, code: Byte): (r: Option<nat>)
    requires |area| >= OPTIONS_SIZE + 1
    ensures r.Some? ==> i <= r.value < OPTIONS_SIZE && area[r.value] == code
    decreases OPTIONS_SIZE - i
  {
    if i >= OPTIONS_SIZE || area[i] == OPT_END then None
    else if area[i] == code then Some(i)
    else OptFind(area, i + 2 + area[i + 1], code)
  }

  function Bytes(o: Opt): seq<Byte>
    requires |o.data| < 0x100
  {
    [o.code, |o.data|] + o.data
  }

  lemma FindStep(area: seq<Byte>, before: seq<Byte>, o: Opt, behind: seq<Byte>, code: Byte)
    requires o.code != OPT_END && |o.data| < 0x100 && area == before + Bytes(o) + behind
    requires |before| < OPTIONS_SIZE < |area|
    ensures area[|before|..|before| + |Bytes(o)|] == Bytes(o)
    ensures OptFind(area, |before|, code) == if o.code == code then Some(|before|)
      else OptFind(area, |before| + |Bytes(o)|, code)
  {
    assert area[|before|] == o.code && area[|before| + 1] == |o.data|;
  }

  /** An option written in an area, and where. */
  ghost predicate WrittenAt(area: seq<Byte>, o: Opt, at: nat)
  {
    |o.data| < 0x100 && at + 2 + |o.data| <= |area| && area[at..at + 2 + |o.data|] == Bytes(o)
  }

  /** Searching written options for a code finds the first option with it, or none if there is none. */
  lemma {:induction false} FindsEncoded(area: seq<Byte>, before: seq<Byte>, os: seq<Opt>, behind: seq<Byte>, code: Byte)
    requires Encodable(os) && area == before + Encoded(os) + [OPT_END] + behind && |area| > OPTIONS_SIZE
    requires |before| + |Encoded(os)| < OPTIONS_SIZE && code != OPT_END
    ensures var r := OptFind(area, |before|, code);
            && (r.None? <==> FirstOpt(os, code) == |os|)
            && (r.Some? ==> WrittenAt(area, os[FirstOpt(os, code)], r.value))
    decreases |os|
  {
    hide OptFind, Bytes;
    if os == [] {
      FindsNothing(area, |before|, code);
    } else {
      HeadEncoded(os);
      var o, rest := os[0], Encoded(os[1..]) + [OPT_END] + behind;
      assert area == before + Bytes(o) + rest;
      FindStep(area, before, o, rest, code);
      if o.code != code {
        assert area == before + Bytes(o) + Encoded(os[1..]) + [OPT_END] + behind;
        FindsEncoded(area, before + Bytes(o), os[1..], behind, code);
      } else {
        BytesLength(o);
      }
    }
  }

  lemma BytesLength(o: Opt)
    requires |o.data| < 0x100
    ensures |Bytes(o)| == 2 + |o.data|
  {
  }

  lemma FindsNothing(area: seq<Byte>, i: nat, code: Byte)
    requires |area| > OPTIONS_SIZE && (i < OPTIONS_SIZE ==> area[i] == OPT_END)
    ensures OptFind(area, i, code) == None
  {
  }

  lemma HeadEncoded(os: seq<Opt>)
    requires Encodable(os) && os != []
    ensures Encoded(os) == Bytes(os[0]) + Encoded(os[1..])
  {
  }

  function BigEndian(n: nat): (s: seq<Byte>)
    ensures |s| == 4
  {
    [n / 0x100_0000 % 0x100, n / 0x1_0000 % 0x100, n / 0x100 % 0x100, n % 0x100]
  }

  // ----- messages

  type Address = a: seq<Byte> | |a| == 4 witness seq(4, _ => 0)

  type Buffer = b: seq<Byte> | |b| == BUFFER_SIZE witness seq(BUFFER_SIZE, _ => 0)

  function ClientMac(b: Buffer): Mac
  {
    b[CHADDR..CHADDR + 6]
  }

  function Area(b: Buffer): seq<Byte>
  {
    b[OPTIONS..]
  }

  /** What the server takes a message for. */
  function EventOf(b: Buffer, ip: Address, clock: seq<nat>): Event
    requires |clock| == MAX_IP
  {
    var kind := OptFind(Area(b), 0, OPT_MSG_TYPE);
    if kind.None? then Ignored
    else if Area(b)[kind.value + 2] == DISCOVER then Discover(ClientMac(b), clock)
    else if Area(b)[kind.value + 2] == REQUEST then RequestOf(b, ip, clock[0])
    else Ignored
  }

  function RequestOf(b: Buffer, ip: Address, now: nat): Event
  {
    var o := OptFind(Area(b), 0, OPT_REQUESTED_IP);
    if o.None? || Area(b)[o.value + 2..o.value + 5] != ip[..3] then Ignored
    else Request(ClientMac(b), (Area(b)[o.value + 5] - BASE_IP) % 0x100, now)
  }

  function AddressOf(ip: Address, yi: nat): Address
    requires yi < MAX_IP
  {
    ip[..3] + [BASE_IP + yi]
  }

  function ReplyOptions(kind: Byte, ip: Address, nm: Address): (os: seq<Opt>)
    ensures Encodable(os)
  {
    [Opt(OPT_MSG_TYPE, [kind]), Opt(OPT_SERVER_ID, ip), Opt(OPT_SUBNET_MASK, nm), Opt(OPT_ROUTER, ip), Opt(OPT_DNS, ip),
     Opt(OPT_IP_LEASE_TIME, BigEndian(LEASE_MS / 1000))]
  }

  /** The received message with another operation and an address for the client. */
  function ReplyHead(b: Buffer, ip: Address, yi: nat): (s: seq<Byte>)
    requires yi < MAX_IP
    ensures |s| == OPTIONS
  {
    [OFFER] + b[1..YIADDR] + AddressOf(ip, yi) + b[YIADDR + 4..OPTIONS]
  }

  function Reply(b: Buffer, kind: Byte, ip: Address, nm: Address, yi: nat): seq<Byte>
    requires yi < MAX_IP
  {
    ReplyHead(b, ip, yi) + Encoded(ReplyOptions(kind, ip, nm)) + [OPT_END]
  }

  /** What is sent for an event; nothing if it is empty. */
  function Answer(b: Buffer, ls: Leases, e: Event, ip: Address, nm: Address): seq<Byte>
    requires e.Discover? ==> |e.clock| == MAX_IP
  {
    match e
    case Discover(mac, clock) =>
      if Offered(ls, mac, clock) < MAX_IP then Reply(b, OFFER, ip, nm, Offered(ls, mac, clock)) else []
    case Request(mac, yi, _) =>
      if Granted(ls, mac, yi) then Reply(b, ACK, ip, nm, yi) else []
    case Ignored => []
  }

  class DhcpServer {
    const ip: Address
    const nm: Address
    const lease: array<Lease>

    ghost predicate Valid()
    {
      lease.Length == MAX_IP
    }

    constructor (ip: Address, nm: Address)
      ensures Valid() && fresh(lease) && this.ip == ip && this.nm == nm
      ensures forall i :: 0 <= i < MAX_IP ==> lease[i] == Lease(ZERO_MAC, 0)
    {
      this.ip, this.nm := ip, nm;
      lease := new Lease[MAX_IP](_ => Lease(ZERO_MAC, 0));
    }

    /** Scans the leases for a client; the i-th is inspected at clock[i]. */
    method FindOffer(mac: Mac, clock: seq<nat>) returns (yi: nat)
      requires Valid() && |clock| == MAX_IP
      modifies lease
      ensures lease[..] == Freed(old(lease[..]), mac, clock) && yi == Offered(old(lease[..]), mac, clock)
    {
      ghost var ls: Leases := lease[..];
      yi := MAX_IP;
      for i := 0 to MAX_IP
        invariant forall j :: 0 <= j < i ==> ls[j].mac != mac
        invariant yi == MAX_IP ==> lease[..] == ls && forall j :: 0 <= j < i ==> !Available(ls[j], clock[j])
        invariant yi != MAX_IP ==>
          yi == FirstAvailable(ls, clock) < i && lease[..] == ls[yi := ls[yi].(mac := ZERO_MAC)]
      {
        assert lease[i] == lease[..][i] == ls[i];
        if lease[i].mac == mac {
          yi := i;
          break;
        }
        if yi == MAX_IP {
          if lease[i].mac == ZERO_MAC {
            yi := i;
          }
          if Expired(lease[i].expiry, clock[i]) {
            lease[i] := lease[i].(mac := ZERO_MAC);
            yi := i;
          }
        }
      }
    }

    method FindOpt(msg: array<Byte>, code: Byte) returns (r: Option<nat>)
      requires msg.Length == BUFFER_SIZE
      ensures r == OptFind(msg[OPTIONS..], 0, code)
    {
      var i := 0;
      while i < OPTIONS_SIZE && msg[OPTIONS + i] != OPT_END
        invariant OptFind(msg[OPTIONS..], i, code) == OptFind(msg[OPTIONS..], 0, code)
        decreases OPTIONS_SIZE - i
      {
        if msg[OPTIONS + i] == code {
          return Some(i);
        }
        i := i + 2 + msg[OPTIONS + i + 1];
      }
      return None;
    }

    method WriteOpt(msg: array<Byte>, at: nat, code: Byte, data: seq<Byte>) returns (end: nat)
      requires at + 2 + |data| <= msg.Length && |data| < 0x100
      modifies msg
      ensures end == at + 2 + |data| && msg[..end] == old(msg[..at]) + [code, |data|] + data
    {
      msg[at] := code;
      msg[at + 1] := |data|;
      forall k | 0 <= k < |data| {
        msg[at + 2 + k] := data[k];
      }
      end := at + 2 + |data|;
    }

    method WriteU8(msg: array<Byte>, at: nat, code: Byte, val: Byte) returns (end: nat)
      requires at + 3 <= msg.Length
      modifies msg
      ensures end == at + 3 && msg[..end] == old(msg[..at]) + [code, 1, val]
    {
      msg[at], msg[at + 1], msg[at + 2] := code, 1, val;
      end := at + 3;
    }

    method WriteU32(msg: array<Byte>, at: nat, code: Byte, val: nat) returns (end: nat)
      requires at + 6 <= msg.Length
      modifies msg
      ensures end == at + 6 && msg[..end] == old(msg[..at]) + [code, 4] + BigEndian(val)
    {
      msg[at], msg[at + 1] := code, 4;
      msg[at + 2], msg[at + 3], msg[at + 4], msg[at + 5] :=
        val / 0x100_0000 % 0x100, val / 0x1_0000 % 0x100, val / 0x100 % 0x100, val % 0x100;
      end := at + 6;
    }

    /** The lease asked for in a request, unless it is no address of this server. */
    method FindRequested(msg: array<Byte>, ghost b: Buffer) returns (r: Option<nat>)
      requires msg.Length == BUFFER_SIZE && msg[OPTIONS..] == Area(b)
      ensures RequestOf(b, ip, 0) == if r.Some? then Request(ClientMac(b), r.value, 0) else Ignored
    {
      hide OptFind;
      var o := FindOpt(msg, OPT_REQUESTED_IP);
      if o.None? {
        return None;
      }
      assert msg[OPTIONS + o.value + 2..OPTIONS + o.value + 5] == Area(b)[o.value + 2..o.value + 5];
      if msg[OPTIONS + o.value + 2..OPTIONS + o.value + 5] != ip[..3] {
        return None;
      }
      assert msg[OPTIONS + o.value + 5] == Area(b)[o.value + 5];
      return Some((msg[OPTIONS + o.value + 5] - BASE_IP) % 0x100);
    }

    /** Leases an address to a client unless another one holds it. */
    method Grant(mac: Mac, yi: nat, now: nat) returns (ok: bool)
      requires Valid()
      modifies lease
      ensures lease[..] == AfterRequest(old(lease[..]), mac, yi, now) && ok == Granted(old(lease[..]), mac, yi)
    {
      if yi >= MAX_IP {
        return false;
      }
      if lease[yi].mac == mac {
      } else if lease[yi].mac == ZERO_MAC {
        lease[yi] := lease[yi].(mac := mac);
      } else {
        return false;
      }
      lease[yi] := lease[yi].(expiry := ExpiryAt(now));
      ok := true;
    }

    /** Handles a datagram received into a buffer on the stack. */
    method Process(datagram: seq<Byte>, stack: Buffer, clock: seq<nat>) returns (sent: seq<Byte>)
      requires Valid() && |clock| == MAX_IP
      modifies lease
      ensures |datagram| < 243 ==> sent == [] && lease[..] == old(lease[..])
      ensures |datagram| >= 243 ==>
        var b := Received(datagram, stack);
        var e := EventOf(b, ip, clock);
        lease[..] == Next(old(lease[..]), e) && sent == Answer(b, old(lease[..]), e, ip, nm)
    {
      hide OptFind, Offered, Freed, Encoded, Granted, AfterRequest, ReplyHead, Area;
      if |datagram| < MIN_SIZE {
        return [];
      }
      ghost var ls := lease[..];
      ghost var b := Received(datagram, stack);
      var msg := new Byte[BUFFER_SIZE](i requires 0 <= i < BUFFER_SIZE => Received(datagram, stack)[i]);
      SetUp(msg, b);
      var kind := FindOpt(msg, OPT_MSG_TYPE);
      if kind.None? {
        return [];
      }
      AreaAt(msg, b, kind.value + 2);
      if msg[OPTIONS + kind.value + 2] == DISCOVER {
        var yi := FindOffer(msg[CHADDR..CHADDR + 6], clock);
        if yi == MAX_IP {
          return [];
        }
        sent := Send(msg, b, OFFER, yi);
      } else if msg[OPTIONS + kind.value + 2] == REQUEST {
        var r := FindRequested(msg, b);
        if r.None? {
          return [];
        }
        var ok := Grant(msg[CHADDR..CHADDR + 6], r.value, clock[0]);
        GrantedInRange(ls, msg[CHADDR..CHADDR + 6], r.value);
        if !ok {
          return [];
        }
        sent := Send(msg, b, ACK, r.value);
      } else {
        return [];
      }
    }

    /** The reply reuses the buffer: its operation and the server's own address. */
    method SetUp(msg: array<Byte>, ghost b: Buffer)
      requires msg.Length == BUFFER_SIZE && msg[..] == b
      modifies msg
      ensures msg[..OPTIONS] == [OFFER] + b[1..YIADDR] + ip + b[YIADDR + 4..OPTIONS]
      ensures msg[OPTIONS..] == Area(b) && msg[CHADDR..CHADDR + 6] == ClientMac(b)
    {
      msg[0] := OFFER;
      forall k | 0 <= k < 4 {
        msg[YIADDR + k] := ip[k];
      }
    }

    lemma AreaAt(msg: array<Byte>, b: Buffer, i: nat)
      requires msg.Length == BUFFER_SIZE && msg[OPTIONS..] == Area(b) && i < BUFFER_SIZE - OPTIONS
      ensures msg[OPTIONS + i] == Area(b)[i]
    {
    }

    /** Completes a reply with the address and its options, and sends it. */
    method Send(msg: array<Byte>, ghost b: Buffer, kind: Byte, yi: nat) returns (sent: seq<Byte>)
      requires msg.Length == BUFFER_SIZE && yi < MAX_IP
      requires msg[..OPTIONS] == [OFFER] + b[1..YIADDR] + ip + b[YIADDR + 4..OPTIONS]
      modifies msg
      ensures sent == Reply(b, kind, ip, nm, yi)
    {
      msg[YIADDR + 3] := BASE_IP + yi;
      assert msg[..OPTIONS] == ReplyHead(b, ip, yi);
      var opt := WriteOptions(msg, kind);
      msg[opt] := OPT_END;
      opt := opt + 1;
      sent := msg[..opt];
    }

    method WriteOptions(msg: array<Byte>, kind: Byte) returns (opt: nat)
      requires msg.Length == BUFFER_SIZE
      modifies msg
      ensures OPTIONS <= opt < BUFFER_SIZE && msg[..opt] == old(msg[..OPTIONS]) + Encoded(ReplyOptions(kind, ip, nm))
    {
      hide Encoded, BigEndian;
      ghost var os := ReplyOptions(kind, ip, nm);
      ghost var head := msg[..OPTIONS];
      NothingEncoded(os);
      opt := WriteU8(msg, OPTIONS, OPT_MSG_TYPE, kind);
      MoreEncoded(head, msg[..opt], os, 0);
      opt := WriteOpt(msg, opt, OPT_SERVER_ID, ip);
      MoreEncoded(head, msg[..opt], os, 1);
      opt := WriteOpt(msg, opt, OPT_SUBNET_MASK, nm);
      MoreEncoded(head, msg[..opt], os, 2);
      opt := WriteOpt(msg, opt, OPT_ROUTER, ip);
      MoreEncoded(head, msg[..opt], os, 3);
      opt := WriteOpt(msg, opt, OPT_DNS, ip);
      MoreEncoded(head, msg[..opt], os, 4);
      opt := WriteU32(msg, opt, OPT_IP_LEASE_TIME, LEASE_MS / 1000);
      MoreEncoded(head, msg[..opt], os, 5);
      assert os[..6] == os;
    }
  }

  lemma GrantedInRange(ls: Leases, mac: Mac, yi: nat)
    ensures Granted(ls, mac, yi) ==> yi < MAX_IP
  {
  }

  lemma NothingEncoded(os: seq<Opt>)
    requires Encodable(os)
    ensures Encoded(os[..0]) == []
  {
  }

  lemma {:induction false} PrefixEncoded(os: seq<Opt>, k: nat)
    requires Encodable(os) && k < |os|
    ensures Encoded(os[..k + 1]) == Encoded(os[..k]) + Bytes(os[k])
    decreases k
  {
    if k == 0 {
      assert os[..1][1..] == [];
    } else {
      PrefixEncoded(os[1..], k - 1);
      assert os[..k + 1][1..] == os[1..][..k] && os[..k][1..] == os[1..][..k - 1];
    }
  }

  /** One more option has been written behind the others. */
  lemma MoreEncoded(head: seq<Byte>, written: seq<Byte>, os: seq<Opt>, k: nat)
    requires Encodable(os) && k < |os| && written == head + Encoded(os[..k]) + Bytes(os[k])
    ensures written == head + Encoded(os[..k + 1])
  {
    PrefixEncoded(os, k);
  }

  /** The buffer once a datagram has been copied into it. */
  function Received(datagram: seq<Byte>, stack: Buffer): Buffer
  {
    if |datagram| >= MSG_SIZE then datagram[..MSG_SIZE] + stack[MSG_SIZE..] else datagram + stack[|datagram|..]
  }

  // ----- a client's exchange with the server

  lemma ReplyShape(b: Buffer, kind: Byte, ip: Address, nm: Address, yi: nat)
    requires yi < MAX_IP
    ensures var r := Reply(b, kind, ip, nm, yi);
            && |r| > OPTIONS && r[..OPTIONS] == ReplyHead(b, ip, yi) && r[YIADDR..YIADDR + 4] == AddressOf(ip, yi)
            && r[OPTIONS..] == Encoded(ReplyOptions(kind, ip, nm)) + [OPT_END]
  {
    hide Encoded;
    assert Reply(b, kind, ip, nm, yi)[YIADDR..YIADDR + 4] == ReplyHead(b, ip, yi)[YIADDR..YIADDR + 4];
  }

  lemma {:induction false} EncodedLength(os: seq<Opt>, most: nat)
    requires Encodable(os) && forall i :: 0 <= i < |os| ==> |os[i].data| <= most
    ensures |Encoded(os)| <= |os| * (most + 2)
  {
    if os != [] {
      EncodedLength(os[1..], most);
    }
  }

  /** Each option of a reply is found by its code. */
  lemma ReplyReads(b: Buffer, kind: Byte, ip: Address, nm: Address, yi: nat, behind: seq<Byte>, k: nat)
    requires yi < MAX_IP && k < 6 && |behind| >= OPTIONS_SIZE
    ensures var (r, os) := (Reply(b, kind, ip, nm, yi), ReplyOptions(kind, ip, nm));
            && |r| >= OPTIONS && var found := OptFind(r[OPTIONS..] + behind, 0, os[k].code);
            found.Some? && WrittenAt(r[OPTIONS..] + behind, os[k], found.value)
  {
    hide Encoded, OptFind, WrittenAt, BigEndian;
    var os := ReplyOptions(kind, ip, nm);
    ReplyShape(b, kind, ip, nm, yi);
    EncodedLength(os, 4);
    var area := Reply(b, kind, ip, nm, yi)[OPTIONS..] + behind;
    assert area == [] + Encoded(os) + [OPT_END] + behind;
    DistinctCodes(kind, ip, nm);
    FirstOptIs(os, k);
    FindsEncoded(area, [], os, behind, os[k].code);
  }

  lemma DistinctCodes(kind: Byte, ip: Address, nm: Address)
    ensures forall i, j :: 0 <= i < j < 6 ==> ReplyOptions(kind, ip, nm)[i].code != ReplyOptions(kind, ip, nm)[j].code
  {
  }

  lemma FirstOptIs(os: seq<Opt>, k: nat)
    requires k < |os| && forall j :: 0 <= j < k ==> os[j].code != os[k].code
    ensures FirstOpt(os, os[k].code) == k
  {
  }

  /** A number in network order, as a client reads it. */
  function NetworkOrder(s: seq<Byte>): nat
    decreases |s|
  {
    if s == [] then 0 else NetworkOrder(s[..|s| - 1]) * 0x100 + s[|s| - 1]
  }

  lemma NetworkOrderReads(n: nat)
    requires n < 0x1_0000_0000
    ensures NetworkOrder(BigEndian(n)) == n
  {
    hide NetworkOrder;
    var (a, b, c, d) := (n / 0x100_0000, n / 0x1_0000 % 0x100, n / 0x100 % 0x100, n % 0x100);
    OneMoreByte([], a);
    OneMoreByte([a], b);
    OneMoreByte([a, b], c);
    OneMoreByte([a, b, c], d);
    assert NetworkOrder([]) == 0 by { NoBytes(); }
    assert n / 0x1_0000 == 0x100 * a + b && n / 0x100 == 0x100 * (n / 0x1_0000) + c;
    assert [] + [a] == [a] && [a] + [b] == [a, b] && [a, b] + [c] == [a, b, c];
    assert BigEndian(n) == [a, b, c] + [d];
  }

  lemma NoBytes()
    ensures NetworkOrder([]) == 0
  {
  }

  lemma OneMoreByte(s: seq<Byte>, b: Byte)
    ensures NetworkOrder(s + [b]) == NetworkOrder(s) * 0x100 + b
  {
    assert (s + [b])[..|s|] == s;
  }

  /** The lease time a client finds in a reply, in seconds, is as long as the lease granted: a day. */
  lemma LeaseTimeReads(b: Buffer, kind: Byte, ip: Address, nm: Address, yi: nat, behind: seq<Byte>)
    requires yi < MAX_IP && |behind| >= OPTIONS_SIZE
    ensures var area := Reply(b, kind, ip, nm, yi)[OPTIONS..] + behind;
            var found := OptFind(area, 0, OPT_IP_LEASE_TIME);
            && found.Some? && area[found.value + 1] == 4
            && NetworkOrder(area[found.value + 2..found.value + 6]) * 1000 == LEASE_MS == 24 * 60 * 60 * 1000
  {
    hide OptFind, BigEndian, Reply, NetworkOrder;
    ReplyShape(b, kind, ip, nm, yi);
    ReplyReads(b, kind, ip, nm, yi, behind, 5);
    NetworkOrderReads(LEASE_MS / 1000);
    var area := Reply(b, kind, ip, nm, yi)[OPTIONS..] + behind;
    var at := OptFind(area, 0, OPT_IP_LEASE_TIME).value;
    assert area[at..at + 6][2..] == area[at + 2..at + 6] && area[at..at + 6][1] == area[at + 1];
  }

  /** What is written for a first option is read by the server at its place. */
  lemma ReadsWritten(area: seq<Byte>, os: seq<Opt>, behind: seq<Byte>, code: Byte)
    requires Encodable(os) && area == Encoded(os) + [OPT_END] + behind && |area| == BUFFER_SIZE - OPTIONS
    requires |Encoded(os)| < OPTIONS_SIZE && code != OPT_END && FirstOpt(os, code) < |os|
    ensures var (r, data) := (OptFind(area, 0, code), os[FirstOpt(os, code)].data);
            && r.Some? && r.value + 2 + |data| <= |area|
            && area[r.value + 2..r.value + 2 + |data|] == data
  {
    hide OptFind, Encoded;
    assert area == [] + Encoded(os) + [OPT_END] + behind;
    FindsEncoded(area, [], os, behind, code);
    var (at, o) := (OptFind(area, 0, code).value, os[FirstOpt(os, code)]);
    assert area[at..at + 2 + |o.data|][2..] == o.data;
  }

  /** What is written for a request with an address of the network is taken for that request. */
  lemma RequestReads(m: Buffer, ip: Address, now: nat, os: seq<Opt>, behind: seq<Byte>, yi: nat)
    requires yi < MAX_IP && Encodable(os) && Area(m) == Encoded(os) + [OPT_END] + behind && |Encoded(os)| < OPTIONS_SIZE
    requires FirstOpt(os, OPT_REQUESTED_IP) < |os| && os[FirstOpt(os, OPT_REQUESTED_IP)].data == AddressOf(ip, yi)
    ensures RequestOf(m, ip, now) == Request(ClientMac(m), yi, now)
  {
    hide OptFind, Encoded, FirstOpt;
    ReadsWritten(Area(m), os, behind, OPT_REQUESTED_IP);
    var at := OptFind(Area(m), 0, OPT_REQUESTED_IP).value;
    AddressParts(Area(m), at + 2, ip, yi);
  }

  lemma AddressParts(area: seq<Byte>, at: nat, ip: Address, yi: nat)
    requires yi < MAX_IP && at + 4 <= |area| && area[at..at + 4] == AddressOf(ip, yi)
    ensures area[at..at + 3] == ip[..3] && area[at + 3] == BASE_IP + yi
  {
    assert area[at..at + 4][..3] == area[at..at + 3];
    assert area[at..at + 4][3] == area[at + 3];
  }

  /** A client that is offered an address and requests it next, with whatever other options, is
      acknowledged that address. */
  lemma OfferThenAck(b: Buffer, m: Buffer, ls: Leases, ip: Address, nm: Address, clock: seq<nat>, later: seq<nat>,
                     os: seq<Opt>, behind: seq<Byte>)
    requires |clock| == |later| == MAX_IP && EventOf(b, ip, clock) == Discover(ClientMac(b), clock)
    requires Offered(ls, ClientMac(b), clock) < MAX_IP && ClientMac(m) == ClientMac(b)
    requires Encodable(os) && Area(m) == Encoded(os) + [OPT_END] + behind && |Encoded(os)| < OPTIONS_SIZE
    requires FirstOpt(os, OPT_MSG_TYPE) < |os| && os[FirstOpt(os, OPT_MSG_TYPE)].data == [REQUEST]
    requires FirstOpt(os, OPT_REQUESTED_IP) < |os|
    requires var offer := Answer(b, ls, EventOf(b, ip, clock), ip, nm);
             |offer| > OPTIONS ==> os[FirstOpt(os, OPT_REQUESTED_IP)].data == offer[YIADDR..YIADDR + 4]
    ensures var (yi, after) := (Offered(ls, ClientMac(b), clock), Next(ls, EventOf(b, ip, clock)));
            && EventOf(m, ip, later) == Request(ClientMac(b), yi, later[0])
            && Answer(m, after, EventOf(m, ip, later), ip, nm) == Reply(m, ACK, ip, nm, yi)
  {
    hide OptFind, Encoded, Reply, FirstOpt, Freed, Granted, Offered, AfterRequest, RequestOf;
    var yi := Offered(ls, ClientMac(b), clock);
    ReplyShape(b, OFFER, ip, nm, yi);
    ReadsWritten(Area(m), os, behind, OPT_MSG_TYPE);
    RequestReads(m, ip, later[0], os, behind, yi);
    OfferIsGranted(ls, ClientMac(b), clock);
  }
}
