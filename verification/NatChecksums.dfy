/** Every frame the NAT engine translates leaves with right checksums if it came with right ones. */
module NatChecksums {
  import opened Bytes
  import opened Checksum
  import opened Frames
  import opened RewriteChecksums
  import opened Nat

  /** From f to g a right IPv4 header checksum stays right; a right TCP or UDP checksum does if and only if
      its field was not zero or the words exchanged agree modulo 65535; and a receiver that accepts f
      accepts g if and only if one of these holds or it is UDP. */
  ghost predicate PortsKept(f: seq<Byte>, g: seq<Byte>, addrOff: nat, portOff: nat, l4: nat, end: nat, check: nat)
    requires 34 <= l4 <= end <= |f| == |g| && check + 2 <= |f| && addrOff in {SADDR, DADDR} && portOff + 2 <= |f|
  {
    && (IpFresh(f, l4) ==> IpFresh(g, l4))
    && (SegmentFresh(f, l4, end, check) ==>
          (SegmentFresh(g, l4, end, check)
           <==> Get16(f, check) != 0 || Agree(Exchanged(f, addrOff, portOff), Exchanged(g, addrOff, portOff))))
    && (SegmentAccepted(f, l4, end, check) ==>
          (SegmentAccepted(g, l4, end, check)
           <==> || f[PROTOCOL] == UDP || Get16(f, check) != 0
                || Agree(Exchanged(f, addrOff, portOff), Exchanged(g, addrOff, portOff))))
  }

  /** From f to g a right IPv4 header checksum stays right; and a right ICMP checksum does if and only if the
      new identifier or some other word of the message is not zero, and its field was not zero or the
      identifiers agree modulo 65535. */
  ghost predicate EchoKept(f: seq<Byte>, g: seq<Byte>, l4: nat, end: nat)
    requires 34 <= l4 && l4 + 8 <= end <= |f| && |g| == |f|
  {
    && (IpFresh(f, l4) ==> IpFresh(g, l4))
    && (Fresh(f, l4, end, l4 + 2, 0) ==>
          (Fresh(g, l4, end, l4 + 2, 0)
           <==> && (Get16(g, l4 + 4) != 0 || SumWords(Put16(Put16(f, l4 + 2, 0), l4 + 4, 0), l4, end) != 0)
                && (Get16(f, l4 + 2) != 0 || Agree(Get16(f, l4 + 4), Get16(g, l4 + 4)))))
  }

  lemma PortsKeptBy(f: seq<Byte>, g: seq<Byte>, addrOff: nat, portOff: nat, check: nat, l4: nat, end: nat,
                    addr: Addr, port: Word, ipCheck: Word, l4Check: Word)
    requires Layout(f, addrOff, portOff, check, l4, end) && f[PROTOCOL] != 0
    requires ipCheck == UpdateChecksum32(Get16(f, IP_CHECK), Get32(f, addrOff), addr)
    requires l4Check == PortField(f, addrOff, portOff, check, addr, port)
    requires Rewritten(f, g, addrOff, portOff, check, addr, port, ipCheck, l4Check)
    ensures PortsKept(f, g, addrOff, portOff, l4, end, check)
  {
    HeaderStaysFresh(f, g, addrOff, portOff, check, l4, end, addr, port, l4Check);
    if SegmentFresh(f, l4, end, check) {
      SegmentStaysFresh(f, g, addrOff, portOff, check, l4, end, addr, port, ipCheck);
    }
    if SegmentAccepted(f, l4, end, check) {
      SegmentStaysAccepted(f, g, addrOff, portOff, check, l4, end, addr, port, ipCheck);
    }
  }

  lemma EchoKeptBy(f: seq<Byte>, g: seq<Byte>, addrOff: nat, l4: nat, end: nat,
                   addr: Addr, id: Word, ipCheck: Word, l4Check: Word)
    requires Layout(f, addrOff, l4 + 4, l4 + 2, l4, end) && l4 + 8 <= end && f[PROTOCOL] != 0
    requires ipCheck == UpdateChecksum32(Get16(f, IP_CHECK), Get32(f, addrOff), addr)
    requires l4Check == EchoField(f, l4, id)
    requires Rewritten(f, g, addrOff, l4 + 4, l4 + 2, addr, id, ipCheck, l4Check)
    ensures EchoKept(f, g, l4, end)
  {
    HeaderStaysFresh(f, g, addrOff, l4 + 4, l4 + 2, l4, end, addr, id, l4Check);
    if Fresh(f, l4, end, l4 + 2, 0) {
      EchoStaysFresh(f, g, addrOff, l4, end, addr, id, ipCheck);
    }
  }

  /** A TCP or UDP rewrite of either direction. */
  lemma PortRewriteKeeps(f: seq<Byte>, g: seq<Byte>, addrOff: nat, portOff: nat, check: nat, l4: nat, end: nat,
                         addr: Addr, port: Word)
    requires Layout(f, addrOff, portOff, check, l4, end) && f[PROTOCOL] != 0
    requires g == RewritePort(f, addrOff, portOff, check, addr, port)
    ensures |g| == |f| && PortsKept(f, g, addrOff, portOff, l4, end, check)
  {
    PortRewriteFields(f, addrOff, portOff, check, addr, port);
    PortsKeptBy(f, g, addrOff, portOff, check, l4, end, addr, port,
                UpdateChecksum32(Get16(f, IP_CHECK), Get32(f, addrOff), addr),
                PortField(f, addrOff, portOff, check, addr, port));
  }

  /** An ICMP echo rewrite of either direction. */
  lemma EchoRewriteKeeps(f: seq<Byte>, addrOff: nat, l4: nat, end: nat, addr: Addr, id: Word)
    requires Layout(f, addrOff, l4 + 4, l4 + 2, l4, end) && l4 + 8 <= end && f[PROTOCOL] != 0
    ensures EchoKept(f, RewriteEcho(f, addrOff, l4, addr, id), l4, end)
  {
    EchoRewriteFields(f, addrOff, l4, addr, id);
    EchoKeptBy(f, RewriteEcho(f, addrOff, l4, addr, id), addrOff, l4, end, addr, id,
               UpdateChecksum32(Get16(f, IP_CHECK), Get32(f, addrOff), addr), EchoField(f, l4, id));
  }

  /** f[l4..end] is the transport segment of a frame with a full IPv4 header. */
  ghost predicate Segment(f: seq<Byte>, end: nat) {
    Parse(f).hasL4 && Parse(f).l4 >= 34 && Parse(f).l4 + HeaderSize(f[PROTOCOL]) <= end <= |f|
  }

  lemma PortLayout(f: seq<Byte>, end: nat, addrOff: nat, portOff: nat)
    requires Segment(f, end) && IsPortFrame(f) && addrOff in {SADDR, DADDR}
    requires portOff == Parse(f).l4 || portOff == Parse(f).l4 + 2
    ensures Layout(f, addrOff, portOff, PortCheck(f), Parse(f).l4, end)
  {
    HeaderWindow(f);
  }

  lemma EchoLayout(f: seq<Byte>, end: nat, addrOff: nat)
    requires Segment(f, end) && addrOff in {SADDR, DADDR}
    ensures Layout(f, addrOff, Parse(f).l4 + 4, Parse(f).l4 + 2, Parse(f).l4, end)
  {
    HeaderWindow(f);
  }

  /** g is f with some address and port written at these offsets, and the checksums updated. */
  ghost predicate IsRewrite(f: seq<Byte>, g: seq<Byte>, addrOff: nat, portOff: nat, end: nat)
    requires Segment(f, end) && IsPortFrame(f)
  {
    exists addr: Addr, port: Word ::
      && Layout(f, addrOff, portOff, PortCheck(f), Parse(f).l4, end)
      && g == RewritePort(f, addrOff, portOff, PortCheck(f), addr, port)
  }

  lemma FrameIsKept(f: seq<Byte>, g: seq<Byte>, addrOff: nat, portOff: nat, l4: nat, end: nat, check: nat)
    requires Segment(f, end) && IsPortFrame(f) && l4 == Parse(f).l4 && check == PortCheck(f)
    requires |g| == |f| && addrOff in {SADDR, DADDR} && portOff + 2 <= |f| && IsRewrite(f, g, addrOff, portOff, end)
    ensures PortsKept(f, g, addrOff, portOff, l4, end, check)
  {
    var addr: Addr, port: Word :| && Layout(f, addrOff, portOff, PortCheck(f), Parse(f).l4, end)
                                  && g == RewritePort(f, addrOff, portOff, PortCheck(f), addr, port);
    PortRewriteKeeps(f, g, addrOff, portOff, check, l4, end, addr, port);
  }

  lemma OutboundIsRewrite(e: Engine, f: seq<Byte>, hs: Hashes, end: nat)
    requires Shaped(e) && IsPortFrame(f) && Outbound(e, f, hs).ok && Segment(f, end)
    ensures IsRewrite(f, Outbound(e, f, hs).frame, SADDR, Parse(f).l4, end)
  {
    PortLayout(f, end, SADDR, Parse(f).l4);
    assert Outbound(e, f, hs).frame
        == RewritePort(f, SADDR, Parse(f).l4, PortCheck(f), e.wan, Assign(e, f, hs).1);
  }

  lemma InboundIsRewrite(e: Engine, f: seq<Byte>, end: nat)
    requires Shaped(e) && IsPortFrame(f) && Inbound(e, f).ok && Segment(f, end)
    ensures IsRewrite(f, Inbound(e, f).frame, DADDR, Parse(f).l4 + 2, end)
  {
    InboundPortFrame(e, f);
    PortLayout(f, end, DADDR, Parse(f).l4 + 2);
  }

  lemma InboundPortFrame(e: Engine, f: seq<Byte>)
    requires Shaped(e) && IsPortFrame(f) && Inbound(e, f).ok && Parse(f).l4 >= 34
    ensures var key := e.flows.sessions[Admit(e, f).1].key;
            Inbound(e, f).frame == RewritePort(f, DADDR, Parse(f).l4 + 2, PortCheck(f), key.saddr, key.sport)
  {
  }

  /** Every TCP or UDP frame translated outwards. */
  lemma OutboundKeepsPorts(e: Engine, f: seq<Byte>, hs: Hashes, end: nat)
    requires Shaped(e) && IsPortFrame(f) && Outbound(e, f, hs).ok && Segment(f, end)
    ensures PortsKept(f, Outbound(e, f, hs).frame, SADDR, Parse(f).l4, Parse(f).l4, end, PortCheck(f))
  {
    OutboundIsRewrite(e, f, hs, end);
    FrameIsKept(f, Outbound(e, f, hs).frame, SADDR, Parse(f).l4, Parse(f).l4, end, PortCheck(f));
  }

  /** Every echo request translated outwards. */
  lemma OutboundKeepsEcho(e: Engine, f: seq<Byte>, hs: Hashes, end: nat)
    requires Shaped(e) && IsEchoFrame(f, 8) && Outbound(e, f, hs).ok && Segment(f, end)
    ensures EchoKept(f, Outbound(e, f, hs).frame, Parse(f).l4, end)
  {
    EchoLayout(f, end, SADDR);
    EchoRewriteKeeps(f, SADDR, Parse(f).l4, end, e.wan, Assign(e, f, hs).1);
  }

  /** Every TCP or UDP frame translated inwards. */
  lemma InboundKeepsPorts(e: Engine, f: seq<Byte>, end: nat)
    requires Shaped(e) && IsPortFrame(f) && Inbound(e, f).ok && Segment(f, end)
    ensures PortsKept(f, Inbound(e, f).frame, DADDR, Parse(f).l4 + 2, Parse(f).l4, end, PortCheck(f))
  {
    InboundIsRewrite(e, f, end);
    FrameIsKept(f, Inbound(e, f).frame, DADDR, Parse(f).l4 + 2, Parse(f).l4, end, PortCheck(f));
  }

  /** Every echo reply translated inwards. */
  lemma InboundKeepsEcho(e: Engine, f: seq<Byte>, end: nat)
    requires Shaped(e) && IsEchoFrame(f, 0) && Inbound(e, f).ok && Segment(f, end)
    ensures EchoKept(f, Inbound(e, f).frame, Parse(f).l4, end)
  {
    var key := e.echoes.sessions[Admit(e, f).1].key;
    EchoLayout(f, end, DADDR);
    EchoRewriteKeeps(f, DADDR, Parse(f).l4, end, key.saddr, key.id);
  }
}
