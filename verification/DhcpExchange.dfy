/** An exchange with the DHCP server as a client reads it: the fields of section 2 of RFC 2131, and the
    options of RFC 2132 by their numbers. */
module DhcpExchange {
  import opened DhcpServer
  import opened Leases
  import opened Memory

  /** The fields before the options, and the magic cookie that opens those. */
  datatype Packet = Packet(op: Byte, htype: Byte, hlen: Byte, hops: Byte, xid: seq<Byte>, secs: seq<Byte>,
                           flags: seq<Byte>, ciaddr: seq<Byte>, yiaddr: seq<Byte>, siaddr: seq<Byte>,
                           giaddr: seq<Byte>, chaddr: seq<Byte>, sname: seq<Byte>, file: seq<Byte>,
                           cookie: seq<Byte>)

  predicate PacketOk(p: Packet)
  {
    && |p.xid| == |p.ciaddr| == |p.yiaddr| == |p.siaddr| == |p.giaddr| == |p.cookie| == 4
    && |p.secs| == |p.flags| == 2 && |p.chaddr| == 16 && |p.sname| == 64 && |p.file| == 128
  }

  function Wire(p: Packet): (s: seq<Byte>)
    requires PacketOk(p)
    ensures |s| == 240
  {
    [p.op, p.htype, p.hlen, p.hops] + p.xid + p.secs + p.flags + p.ciaddr + p.yiaddr + p.siaddr + p.giaddr
    + p.chaddr + p.sname + p.file + p.cookie
  }

  /** A search of some options for a code finds these data. */
  ghost predicate Has(area: seq<Byte>, code: Byte, data: seq<Byte>)
  {
    && |area| > OPTIONS_SIZE
    && var at := OptFind(area, 0, code);
       && at.Some? && at.value + 2 + |data| <= |area|
       && area[at.value + 1] == |data| && area[at.value + 2..at.value + 2 + |data|] == data
  }

  /** A message is a reply to p: a boot reply of the same transaction and hardware address, with an address
      for the client, and options for the kind of reply, the server, the mask, the router and the name
      server. The lease time is 0x15180 seconds, a day. */
  ghost predicate Replies(r: seq<Byte>, p: Packet, kind: Byte, address: seq<Byte>, ip: Address, nm: Address)
    requires PacketOk(p) && |address| == 4
  {
    && |r| >= 240 && r[..240] == Wire(p.(op := 2, yiaddr := address))
    && var area := r[240..];
       && Has(area, 53, [kind]) && Has(area, 54, ip) && Has(area, 1, nm) && Has(area, 3, ip) && Has(area, 6, ip)
       && Has(area, 51, [0, 0x1, 0x51, 0x80])
  }

  /** The message in three parts around the address for the client. */
  lemma WireParted(p: Packet)
    requires PacketOk(p)
    ensures Wire(p) == [p.op] + Front(p) + p.yiaddr + Back(p)
    ensures |Front(p)| == 15 && |Back(p)| == 220 && Back(p)[8..14] == p.chaddr[..6]
  {
    var tail := p.sname + p.file + p.cookie;
    assert Back(p) == p.siaddr + p.giaddr + p.chaddr + tail;
    assert [p.op] + Front(p) == [p.op, p.htype, p.hlen, p.hops] + p.xid + p.secs + p.flags + p.ciaddr;
  }

  function Front(p: Packet): seq<Byte>
  {
    [p.htype, p.hlen, p.hops] + p.xid + p.secs + p.flags + p.ciaddr
  }

  function Back(p: Packet): seq<Byte>
  {
    p.siaddr + p.giaddr + p.chaddr + p.sname + p.file + p.cookie
  }

  lemma WireParts(p: Packet, rest: seq<Byte>, address: seq<Byte>)
    requires PacketOk(p) && |address| == 4
    ensures var b := Wire(p) + rest;
            && b[28..34] == p.chaddr[..6] && b[240..] == rest
            && Wire(p.(op := 2, yiaddr := address)) == [2] + b[1..16] + address + b[20..240]
  {
    hide Wire, Front, Back;
    var (b, q) := (Wire(p) + rest, p.(op := 2, yiaddr := address));
    WireParted(p);
    WireParted(q);
    SameAround(p, address);
    assert b == [p.op] + Front(p) + p.yiaddr + Back(p) + rest;
    assert b[1..16] == Front(p) && b[20..240] == Back(p) && b[28..34] == Back(p)[8..14];
  }

  lemma SameAround(p: Packet, address: seq<Byte>)
    ensures Front(p.(op := 2, yiaddr := address)) == Front(p) && Back(p.(op := 2, yiaddr := address)) == Back(p)
  {
  }

  lemma WrittenIsHad(area: seq<Byte>, code: Byte, data: seq<Byte>)
    requires |area| > OPTIONS_SIZE && |data| < 0x100 && OptFind(area, 0, code).Some?
    requires WrittenAt(area, Opt(code, data), OptFind(area, 0, code).value)
    ensures Has(area, code, data)
  {
    hide OptFind;
    var at := OptFind(area, 0, code).value;
    var bytes := area[at..at + 2 + |data|];
    assert bytes[1] == area[at + 1] && bytes[2..] == area[at + 2..at + 2 + |data|] == data;
  }

  lemma SixOptions(kind: Byte, ip: Address, nm: Address)
    ensures |ReplyOptions(kind, ip, nm)| == 6
    ensures forall k :: 0 <= k < 6 ==> |ReplyOptions(kind, ip, nm)[k].data| <= 4
  {
  }

  lemma OptionHad(b: Buffer, kind: Byte, ip: Address, nm: Address, yi: nat, more: seq<Byte>, k: nat)
    requires yi < MAX_IP && k < 6 && |more| >= OPTIONS_SIZE
    ensures var (r, o) := (Reply(b, kind, ip, nm, yi), ReplyOptions(kind, ip, nm)[k]);
            |r| > OPTIONS && Has(r[OPTIONS..] + more, o.code, o.data)
  {
    hide OptFind, Reply, ReplyOptions, WrittenAt, Has, Encoded;
    SixOptions(kind, ip, nm);
    ReplyReads(b, kind, ip, nm, yi, more, k);
    ReplyShape(b, kind, ip, nm, yi);
    var (r, o) := (Reply(b, kind, ip, nm, yi), ReplyOptions(kind, ip, nm)[k]);
    WrittenIsHad(r[OPTIONS..] + more, o.code, o.data);
  }

  lemma ReplyReplies(p: Packet, rest: seq<Byte>, b: Buffer, kind: Byte, ip: Address, nm: Address, yi: nat,
                     more: seq<Byte>)
    requires PacketOk(p) && b == Wire(p) + rest && yi < 8 && |more| >= 308
    ensures Replies(Reply(b, kind, ip, nm, yi) + more, p, kind, ip[..3] + [16 + yi], ip, nm)
  {
    hide OptFind, Wire, Reply, Has;
    var r := Reply(b, kind, ip, nm, yi);
    ReplyFields(p, rest, b, kind, ip, nm, yi);
    assert (r + more)[..240] == r[..240] && (r + more)[240..] == r[240..] + more;
    OptionHad(b, kind, ip, nm, yi, more, 0);
    OptionHad(b, kind, ip, nm, yi, more, 1);
    OptionHad(b, kind, ip, nm, yi, more, 2);
    OptionHad(b, kind, ip, nm, yi, more, 3);
    OptionHad(b, kind, ip, nm, yi, more, 4);
    OptionHad(b, kind, ip, nm, yi, more, 5);
  }

  lemma ReplyFields(p: Packet, rest: seq<Byte>, b: Buffer, kind: Byte, ip: Address, nm: Address, yi: nat)
    requires PacketOk(p) && b == Wire(p) + rest && yi < 8
    ensures var r := Reply(b, kind, ip, nm, yi);
            |r| >= 240 && r[..240] == Wire(p.(op := 2, yiaddr := ip[..3] + [16 + yi]))
  {
    hide Wire, Reply, Encoded;
    WireParts(p, rest, ip[..3] + [16 + yi]);
    ReplyShape(b, kind, ip, nm, yi);
  }

  /** The buffer the server works on: of a datagram the first 548 bytes, behind a shorter one what was
      there before. */
  lemma BufferFilled(datagram: seq<Byte>, stack: Buffer, k: nat)
    requires k < |stack|
    ensures |stack| == 553
    ensures Received(datagram, stack)[k] == if k < |datagram| && k < 548 then datagram[k] else stack[k]
  {
  }

  /** A message with options, in the buffer of the server. */
  ghost predicate Holds(b: Buffer, p: Packet, os: seq<Opt>, behind: seq<Byte>)
    requires PacketOk(p) && Encodable(os)
  {
    b == Wire(p) + Encoded(os) + [255] + behind && |Encoded(os)| < 308
  }

  /** The data of the first option with a code, as the server reads them. */
  lemma OptionRead(b: Buffer, p: Packet, os: seq<Opt>, behind: seq<Byte>, code: Byte)
    requires PacketOk(p) && Encodable(os) && Holds(b, p, os, behind) && code != 255
    ensures var (i, r) := (FirstOpt(os, code), OptFind(Area(b), 0, code));
            && (r.None? <==> i == |os|)
            && (i < |os| ==> r.value + 2 + |os[i].data| <= |Area(b)|
                             && Area(b)[r.value + 2..r.value + 2 + |os[i].data|] == os[i].data)
  {
    hide OptFind, Encoded, Wire, FirstOpt;
    var rest := Encoded(os) + [255] + behind;
    assert b == Wire(p) + rest && Area(b) == rest;
    assert rest == [] + Encoded(os) + [OPT_END] + behind;
    FindsEncoded(rest, [], os, behind, code);
    if FirstOpt(os, code) < |os| {
      ReadsWritten(rest, os, behind, code);
    }
  }

  lemma ClientRead(b: Buffer, p: Packet, os: seq<Opt>, behind: seq<Byte>)
    requires PacketOk(p) && Encodable(os) && Holds(b, p, os, behind)
    ensures ClientMac(b) == p.chaddr[..6]
  {
    hide Encoded, Wire;
    assert b == Wire(p) + (Encoded(os) + [255] + behind);
    WireParts(p, Encoded(os) + [255] + behind, p.yiaddr);
  }

  lemma ReplySent(b: Buffer, p: Packet, os: seq<Opt>, behind: seq<Byte>, kind: Byte, ip: Address, nm: Address, yi: nat,
                  more: seq<Byte>)
    requires PacketOk(p) && Encodable(os) && Holds(b, p, os, behind) && yi < 8 && |more| >= 308
    ensures Replies(Reply(b, kind, ip, nm, yi) + more, p, kind, ip[..3] + [16 + yi], ip, nm)
  {
    hide Encoded, Wire, Reply, Replies;
    assert b == Wire(p) + (Encoded(os) + [255] + behind);
    ReplyReplies(p, Encoded(os) + [255] + behind, b, kind, ip, nm, yi, more);
  }

  /** The type of a message: the first byte of the data of its first option 53. */
  lemma TypeRead(b: Buffer, p: Packet, os: seq<Opt>, behind: seq<Byte>, ip: Address, clock: seq<nat>)
    requires PacketOk(p) && Encodable(os) && Holds(b, p, os, behind) && |clock| == 8
    requires var i := FirstOpt(os, 53); i == |os| || os[i].data != []
    ensures var i := FirstOpt(os, 53);
            EventOf(b, ip, clock) == if i == |os| then Ignored
                                     else if os[i].data[0] == 1 then Discover(p.chaddr[..6], clock)
                                     else if os[i].data[0] == 3 then RequestOf(b, ip, clock[0])
                                     else Ignored
  {
    hide OptFind, Encoded, Wire, FirstOpt, Holds, ClientMac, RequestOf;
    OptionRead(b, p, os, behind, 53);
    ClientRead(b, p, os, behind);
    var i, at := FirstOpt(os, 53), OptFind(Area(b), 0, 53);
    if i < |os| {
      assert Area(b)[at.value + 2..at.value + 2 + |os[i].data|][0] == Area(b)[at.value + 2];
    }
  }

  /** A DISCOVER (type 1) is answered exactly if there is an address to offer, and by an OFFER (type 2) of
      that address. */
  lemma DiscoverAnswered(b: Buffer, p: Packet, os: seq<Opt>, behind: seq<Byte>, ls: Leases, ip: Address, nm: Address,
                         clock: seq<nat>, more: seq<Byte>)
    requires PacketOk(p) && Encodable(os) && Holds(b, p, os, behind) && |clock| == 8 && |more| >= 308
    requires var i := FirstOpt(os, 53); i < |os| && os[i].data != [] && os[i].data[0] == 1
    ensures var (r, yi) := (Answer(b, ls, EventOf(b, ip, clock), ip, nm), Offered(ls, p.chaddr[..6], clock));
            if yi < 8 then Replies(r + more, p, 2, ip[..3] + [16 + yi], ip, nm) else r == []
  {
    hide Encoded, Wire, FirstOpt, Reply, Offered, Replies, EventOf, Holds;
    TypeRead(b, p, os, behind, ip, clock);
    var yi := Offered(ls, p.chaddr[..6], clock);
    if yi < 8 {
      ReplySent(b, p, os, behind, 2, ip, nm, yi, more);
    }
  }

  lemma RequestTaken(b: Buffer, p: Packet, os: seq<Opt>, behind: seq<Byte>, ip: Address, now: nat)
    requires PacketOk(p) && Encodable(os) && Holds(b, p, os, behind)
    requires var i := FirstOpt(os, 50); i < |os| ==> |os[i].data| == 4
    ensures var i := FirstOpt(os, 50);
            RequestOf(b, ip, now) == if i < |os| && os[i].data[..3] == ip[..3]
              then Request(p.chaddr[..6], (os[i].data[3] as int - 16) % 0x100, now) else Ignored
  {
    hide OptFind, Encoded, Wire, FirstOpt, Holds, ClientMac;
    OptionRead(b, p, os, behind, 50);
    ClientRead(b, p, os, behind);
    var i, found := FirstOpt(os, 50), OptFind(Area(b), 0, 50);
    if i < |os| {
      var at := found.value;
      assert Area(b)[at + 2..at + 6][..3] == Area(b)[at + 2..at + 5];
      assert Area(b)[at + 2..at + 6][3] == Area(b)[at + 5];
    }
  }

  /** A REQUEST (type 3) for an address (option 50) is answered exactly if that is an address of the server
      which no other client holds, and by an ACK (type 5) of it; a refusal is not sent. */
  lemma RequestAnswered(b: Buffer, p: Packet, os: seq<Opt>, behind: seq<Byte>, ls: Leases, ip: Address, nm: Address,
                        clock: seq<nat>, more: seq<Byte>)
    requires PacketOk(p) && Encodable(os) && Holds(b, p, os, behind) && |clock| == 8 && |more| >= 308
    requires var i := FirstOpt(os, 53); i < |os| && os[i].data != [] && os[i].data[0] == 3
    requires var i := FirstOpt(os, 50); i < |os| ==> |os[i].data| == 4
    ensures var (r, i) := (Answer(b, ls, EventOf(b, ip, clock), ip, nm), FirstOpt(os, 50));
            if i < |os| && os[i].data[..3] == ip[..3] && 16 <= os[i].data[3] < 24
               && ls[os[i].data[3] - 16].mac in {p.chaddr[..6], [0, 0, 0, 0, 0, 0]}
            then Replies(r + more, p, 5, os[i].data, ip, nm) else r == []
  {
    hide Encoded, Wire, FirstOpt, Reply, Replies, EventOf, RequestOf, Holds;
    TypeRead(b, p, os, behind, ip, clock);
    RequestTaken(b, p, os, behind, ip, clock[0]);
    var i := FirstOpt(os, 50);
    if i < |os| && os[i].data[..3] == ip[..3] && 16 <= os[i].data[3] < 24 {
      var yi: nat := os[i].data[3] - 16;
      assert (os[i].data[3] as int - 16) % 0x100 == yi && os[i].data == ip[..3] + [16 + yi];
      ReplySent(b, p, os, behind, 5, ip, nm, yi, more);
    }
  }

  /** A message without a type, or with another one, is not answered. */
  lemma OthersUnanswered(b: Buffer, p: Packet, os: seq<Opt>, behind: seq<Byte>, ls: Leases, ip: Address, nm: Address,
                         clock: seq<nat>)
    requires PacketOk(p) && Encodable(os) && Holds(b, p, os, behind) && |clock| == 8
    requires var i := FirstOpt(os, 53); i == |os| || (os[i].data != [] && os[i].data[0] !in {1, 3})
    ensures Answer(b, ls, EventOf(b, ip, clock), ip, nm) == []
  {
    hide Encoded, Wire, FirstOpt, EventOf, Holds;
    TypeRead(b, p, os, behind, ip, clock);
  }
}
