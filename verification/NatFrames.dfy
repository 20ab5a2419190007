/** What leaves the NAT engine, byte by byte: which bytes of a translated frame change, and to what, and
    exactly which frames are translated. The offsets are those of the Ethernet, IPv4, TCP, UDP and ICMP
    headers on the wire. */
module NatFrames {
  import opened Bytes
  import opened Checksum
  import opened Frames
  import opened RewriteChecksums
  import opened NatChecksums
  import opened Nat
  import Flows = FlowTable
  import Echoes = EchoTable

  // ----- Where the headers are -----

  predicate IPv4(f: seq<Byte>) { |f| >= 34 && f[12] == 8 && f[13] == 0 }

  /** Behind the Ethernet header and as many words of IPv4 header as its length field says. */
  function L4(f: seq<Byte>): nat
    requires IPv4(f)
  {
    14 + 4 * (f[14] % 16)
  }

  predicate Tcp(f: seq<Byte>) { IPv4(f) && f[23] == 6 && |f| >= L4(f) + 20 }

  predicate Udp(f: seq<Byte>) { IPv4(f) && f[23] == 17 && |f| >= L4(f) + 8 }

  /** An ICMP message of this type and code 0 that is no fragment: no offset, and no more to come. */
  predicate Echo(f: seq<Byte>, kind: Byte) {
    && IPv4(f) && f[23] == 1 && |f| >= L4(f) + 8 && f[20] % 64 == 0 && f[21] == 0
    && f[L4(f)] == kind && f[L4(f) + 1] == 0
  }

  /** The UDP checksum is the fourth word of its header, the TCP checksum the ninth. */
  function CheckAt(f: seq<Byte>): nat
    requires Tcp(f) || Udp(f)
  {
    L4(f) + if f[23] == 17 then 6 else 16
  }

  lemma ParseFinds(f: seq<Byte>)
    ensures Parse(f).ipv4 <==> IPv4(f)
    ensures IPv4(f) ==> Parse(f).l4 == L4(f)
    ensures IsPortFrame(f) <==> Tcp(f) || Udp(f)
    ensures Tcp(f) || Udp(f) ==> PortCheck(f) == CheckAt(f)
  {
    if |f| >= 14 {
      BigEndian(f, 12);
    }
  }

  lemma EchoFinds(f: seq<Byte>, kind: Byte)
    ensures IsEchoFrame(f, kind) <==> Echo(f, kind)
  {
    ParseFinds(f);
    if IPv4(f) {
      BigEndian(f, 20);
      FragmentBits(f[20], f[21]);
    }
  }

  /** The lower six bits of one byte and the next byte: offset and more-fragments flag. */
  lemma FragmentBits(high: Byte, low: Byte)
    ensures (256 * high as nat + low) % 0x4000 == 0 <==> high % 64 == 0 && low == 0
  {
    var q, r := high / 64, high % 64;
    assert 256 * high as nat + low == 0x4000 * q + (256 * r as nat + low);
    assert 256 * r as nat + low < 0x4000;
  }

  // ----- Which bytes change -----

  /** g is f but for the IPv4 checksum, the four bytes at `addr` and the two at `port` and at `check`. */
  ghost predicate OnlyThere(f: seq<Byte>, g: seq<Byte>, addr: nat, port: nat, check: nat) {
    && |g| == |f|
    && forall k | 0 <= k < |f| && g[k] != f[k] ::
         k == 24 || k == 25 || addr <= k < addr + 4 || k == port || k == port + 1 || k == check || k == check + 1
  }

  /** So changed, g has this address and this port. */
  ghost predicate Moved(f: seq<Byte>, g: seq<Byte>, addrAt: nat, portAt: nat, check: nat, addr: Addr, port: Word) {
    && OnlyThere(f, g, addrAt, portAt, check) && addrAt + 4 <= |f| && portAt + 2 <= |f|
    && Get32(g, addrAt) == addr && Get16(g, portAt) == port
  }

  lemma PortRewriteMoves(f: seq<Byte>, g: seq<Byte>, addrOff: nat, portOff: nat, check: nat, addr: Addr, port: Word)
    requires |f| >= 34 && addrOff in {SADDR, DADDR}
    requires 34 <= portOff && 34 <= check && portOff + 2 <= |f| && check + 2 <= |f| && Apart(portOff, check)
    requires g == RewritePort(f, addrOff, portOff, check, addr, port)
    ensures Moved(f, g, addrOff, portOff, check, addr, port)
  {
    PortRewriteFields(f, addrOff, portOff, check, addr, port);
  }

  /** g is a rewrite of the frame f at these offsets. */
  ghost predicate RewriteAt(f: seq<Byte>, g: seq<Byte>, addrOff: nat, portOff: nat, addr: Addr, port: Word) {
    exists check: nat ::
      && IsPortFrame(f) && check == PortCheck(f) && check + 2 <= |f| && portOff + 2 <= |f| && addrOff in {SADDR, DADDR}
      && g == RewritePort(f, addrOff, portOff, check, addr, port)
  }

  lemma PortOffsets(f: seq<Byte>)
    requires IsPortFrame(f) && Parse(f).l4 >= 34
    ensures var l4, check := Parse(f).l4, PortCheck(f);
            34 <= check && check + 2 <= |f| && l4 + 4 <= |f| && Apart(l4, check) && Apart(l4 + 2, check)
  {
    HeaderWindow(f);
  }

  lemma RewriteMoves(f: seq<Byte>, g: seq<Byte>, addrOff: nat, portOff: nat, addr: Addr, port: Word)
    requires IsPortFrame(f) && Parse(f).l4 >= 34 && RewriteAt(f, g, addrOff, portOff, addr, port)
    requires portOff == Parse(f).l4 || portOff == Parse(f).l4 + 2
    ensures Moved(f, g, addrOff, portOff, PortCheck(f), addr, port)
  {
    PortOffsets(f);
    PortRewriteMoves(f, g, addrOff, portOff, PortCheck(f), addr, port);
  }

  lemma OutboundAt(e: Engine, f: seq<Byte>, hs: Hashes)
    requires Shaped(e) && IsPortFrame(f) && Parse(f).l4 >= 34 && Outbound(e, f, hs).ok
    ensures RewriteAt(f, Outbound(e, f, hs).frame, SADDR, Parse(f).l4, e.wan, Assign(e, f, hs).1)
  {
    PortOffsets(f);
  }

  lemma InboundAt(e: Engine, f: seq<Byte>)
    requires Shaped(e) && IsPortFrame(f) && Parse(f).l4 >= 34 && Inbound(e, f).ok
    ensures var key := e.flows.sessions[Admit(e, f).1].key;
            RewriteAt(f, Inbound(e, f).frame, DADDR, Parse(f).l4 + 2, key.saddr, key.sport)
  {
    PortOffsets(f);
    InboundPortFrame(e, f);
  }

  /** A TCP or UDP frame to the outside: source address and source port become the WAN address and the
      port of the session, both checksums follow, and nothing else changes. */
  lemma OutboundFrame(e: Engine, f: seq<Byte>, hs: Hashes)
    requires Shaped(e) && (Tcp(f) || Udp(f)) && L4(f) >= 34 && Outbound(e, f, hs).ok
    ensures Moved(f, Outbound(e, f, hs).frame, 26, L4(f), CheckAt(f), e.wan, Assign(e, f, hs).1)
  {
    ParseFinds(f);
    OutboundAt(e, f, hs);
    RewriteMoves(f, Outbound(e, f, hs).frame, SADDR, L4(f), e.wan, Assign(e, f, hs).1);
  }

  /** A TCP or UDP frame to the inside: destination address and destination port become those of the
      session. */
  lemma InboundFrame(e: Engine, f: seq<Byte>)
    requires Shaped(e) && (Tcp(f) || Udp(f)) && L4(f) >= 34 && Inbound(e, f).ok
    ensures var key := e.flows.sessions[Admit(e, f).1].key;
            Moved(f, Inbound(e, f).frame, 30, L4(f) + 2, CheckAt(f), key.saddr, key.sport)
  {
    var key := e.flows.sessions[Admit(e, f).1].key;
    ParseFinds(f);
    InboundAt(e, f);
    RewriteMoves(f, Inbound(e, f).frame, DADDR, L4(f) + 2, key.saddr, key.sport);
  }

  /** And the checksums at those offsets are right as `PortsKept` says, for a segment that ends at `end`. */
  lemma OutboundFrameKeeps(e: Engine, f: seq<Byte>, hs: Hashes, l4: nat, check: nat, end: nat)
    requires Shaped(e) && (Tcp(f) || Udp(f)) && l4 == L4(f) >= 34 && check == CheckAt(f) && Outbound(e, f, hs).ok
    requires l4 + (if f[23] == 17 then 8 else 20) <= end <= |f|
    ensures PortsKept(f, Outbound(e, f, hs).frame, 26, l4, l4, end, check)
  {
    ParseFinds(f);
    OutboundKeepsPorts(e, f, hs, end);
  }

  lemma InboundFrameKeeps(e: Engine, f: seq<Byte>, l4: nat, check: nat, end: nat)
    requires Shaped(e) && (Tcp(f) || Udp(f)) && l4 == L4(f) >= 34 && check == CheckAt(f) && Inbound(e, f).ok
    requires l4 + (if f[23] == 17 then 8 else 20) <= end <= |f|
    ensures PortsKept(f, Inbound(e, f).frame, 30, l4 + 2, l4, end, check)
  {
    ParseFinds(f);
    InboundKeepsPorts(e, f, end);
  }

  /** Echo requests and replies: the address, the identifier in the third word of the ICMP header, and the
      checksums. */
  lemma OutboundEcho(e: Engine, f: seq<Byte>, hs: Hashes)
    requires Shaped(e) && Echo(f, 8) && L4(f) >= 34 && Outbound(e, f, hs).ok
    ensures var g := Outbound(e, f, hs).frame;
            && OnlyThere(f, g, 26, L4(f) + 4, L4(f) + 2)
            && Get32(g, 26) == e.wan && Get16(g, L4(f) + 4) == Assign(e, f, hs).1
  {
    ParseFinds(f);
    EchoFinds(f, 8);
    EchoRewriteFields(f, SADDR, L4(f), e.wan, Assign(e, f, hs).1);
  }

  lemma InboundEcho(e: Engine, f: seq<Byte>)
    requires Shaped(e) && Echo(f, 0) && L4(f) >= 34 && Inbound(e, f).ok
    ensures var g := Inbound(e, f).frame; var key := e.echoes.sessions[Admit(e, f).1].key;
            && OnlyThere(f, g, 30, L4(f) + 4, L4(f) + 2)
            && Get32(g, 30) == key.saddr && Get16(g, L4(f) + 4) == key.id
  {
    ParseFinds(f);
    EchoFinds(f, 0);
    var key := e.echoes.sessions[Admit(e, f).1].key;
    EchoRewriteFields(f, DADDR, L4(f), key.saddr, key.id);
  }

  // ----- Which frames are translated -----

  function FlowOf(f: seq<Byte>): Flows.FlowKey
    requires Tcp(f) || Udp(f)
  {
    Flows.FlowKey(Get32(f, 26), Get32(f, 30), Get16(f, L4(f)), Get16(f, L4(f) + 2))
  }

  function EchoOf(f: seq<Byte>): Echoes.EchoKey
    requires Echo(f, 8)
  {
    Echoes.EchoKey(Get32(f, 26), Get32(f, 30), Get16(f, L4(f) + 4))
  }

  /** Outwards: once there is a WAN address, the TCP and UDP frames and unfragmented echo requests for which
      the tables have room; a frame that is not translated is not touched. */
  lemma OutboundIff(e: Engine, f: seq<Byte>, hs: Hashes)
    requires Shaped(e)
    ensures Outbound(e, f, hs).ok
       <==> && e.wan != 0
            && (|| ((Tcp(f) || Udp(f)) && Flows.Outbound(e.flows, FlowOf(f), hs.flow(FlowOf(f)), e.tick).1 != 0)
                || (Echo(f, 8) && Echoes.Outbound(e.echoes, EchoOf(f), hs.echo(EchoOf(f)), e.tick).1 != 0))
    ensures !Outbound(e, f, hs).ok ==> Outbound(e, f, hs).frame == f
  {
    ParseFinds(f);
    EchoFinds(f, 8);
    if e.wan != 0 && (Tcp(f) || Udp(f)) {
      AssignsPort(e, f, hs);
    } else if e.wan != 0 && Echo(f, 8) {
      AssignsId(e, f, hs);
    }
  }

  lemma AssignsPort(e: Engine, f: seq<Byte>, hs: Hashes)
    requires Shaped(e) && e.wan != 0 && (Tcp(f) || Udp(f))
    ensures Assign(e, f, hs).1 == Flows.Outbound(e.flows, FlowOf(f), hs.flow(FlowOf(f)), e.tick).1
  {
    ParseFinds(f);
    assert FlowKeyOf(f) == FlowOf(f);
  }

  lemma AssignsId(e: Engine, f: seq<Byte>, hs: Hashes)
    requires Shaped(e) && e.wan != 0 && Echo(f, 8)
    ensures Assign(e, f, hs).1 == Echoes.Outbound(e.echoes, EchoOf(f), hs.echo(EchoOf(f)), e.tick).1
  {
    ParseFinds(f);
    EchoFinds(f, 8);
    assert EchoKeyOf(f) == EchoOf(f);
  }

  /** Inwards: the TCP and UDP frames and unfragmented echo replies to the WAN address whose port or
      identifier belongs to an active session with the host, and the port, they come from. */
  lemma InboundIff(e: Engine, f: seq<Byte>)
    requires Shaped(e)
    ensures Inbound(e, f).ok
       <==> || ((Tcp(f) || Udp(f)) && Get32(f, 30) == e.wan
                && FlowAdmits(e.flows, Get32(f, 26), Get16(f, L4(f)), Get16(f, L4(f) + 2)))
            || (Echo(f, 0) && Get32(f, 30) == e.wan && EchoAdmits(e.echoes, Get32(f, 26), Get16(f, L4(f) + 4)))
    ensures !Inbound(e, f).ok ==> Inbound(e, f).frame == f && Inbound(e, f).engine == e
  {
    ParseFinds(f);
    EchoFinds(f, 0);
  }

  predicate FlowAdmits(t: Flows.Table, src: Addr, sport: Word, dport: Word)
    requires Flows.Shaped(t)
  {
    var i := t.index[dport];
    && 0 <= i < 65536 && t.sessions[i].active && t.sessions[i].ext == dport
    && t.sessions[i].key.daddr == src && t.sessions[i].key.dport == sport
  }

  predicate EchoAdmits(t: Echoes.Table, src: Addr, id: Word)
    requires Echoes.Shaped(t)
  {
    var i := t.index[id];
    0 <= i < 4096 && t.sessions[i].active && t.sessions[i].ext == id && t.sessions[i].key.daddr == src
  }
}
