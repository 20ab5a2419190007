/** Where the NAT engine falls short of what its users may expect: for each failure, frames and a run from
    the start of the engine that show it. The exact conditions are in NatChecksums and NatRuns. */
module NatFailures {
  import opened Bytes
  import opened Checksum
  import opened Frames
  import opened RewriteChecksums
  import opened NatChecksums
  import opened Nat
  import opened NatRuns
  import Flows = FlowTable
  import Echoes = EchoTable

  // ----- Frames -----

  /** A right IPv4 checksum for a header without options. */
  function Sealed(f: seq<Byte>): (g: seq<Byte>)
    requires |f| >= 34
    ensures |g| == |f| && forall k | 0 <= k < |f| && k != IP_CHECK && k != IP_CHECK + 1 :: g[k] == f[k]
  {
    Put16(f, IP_CHECK, FieldFor(SumWords(Put16(f, IP_CHECK, 0), IP, 34)))
  }

  lemma SealedIsFresh(f: seq<Byte>)
    requires |f| >= 34
    ensures IpFresh(Sealed(f), 34)
  {
    PutTwice(f, IP_CHECK, FieldFor(SumWords(Put16(f, IP_CHECK, 0), IP, 34)), 0);
  }

  function Head(proto: Byte, length: Byte): (h: seq<Byte>)
    ensures |h| == 34 && h[12] == 8 && h[13] == 0 && h[IP] == 0x45 && h[FRAG] == 0 && h[FRAG + 1] == 0
    ensures h[PROTOCOL] == proto
  {
    [0, 0, 0, 0, 0, 0, 0, 0, 0, 0, 0, 0, 8, 0, 0x45, 0, 0, length, 0, 0, 0, 0, 64, proto, 0, 0, 0, 0, 0, 0, 0, 0, 0, 0]
  }

  function Addressed(f: seq<Byte>, src: Addr, dst: Addr): (g: seq<Byte>)
    requires |f| >= 34
    ensures |g| == |f| && Get32(g, SADDR) == src && Get32(g, DADDR) == dst
    ensures forall k | 0 <= k < |f| && !(SADDR <= k < DADDR + 4) :: g[k] == f[k]
  {
    Put32(Put32(f, SADDR, src), DADDR, dst)
  }

  lemma SealedFields(f: seq<Byte>)
    requires |f| >= 34
    ensures Get16(Sealed(f), 12) == Get16(f, 12) && Get16(Sealed(f), FRAG) == Get16(f, FRAG)
    ensures Get32(Sealed(f), SADDR) == Get32(f, SADDR) && Get32(Sealed(f), DADDR) == Get32(f, DADDR)
  {
  }

  /** An Ethernet frame with an IPv4 header of five words. */
  function Frame(proto: Byte, length: Byte, src: Addr, dst: Addr, segment: seq<Byte>): (f: seq<Byte>)
    ensures |f| == 34 + |segment| && Get16(f, 12) == 0x0800 && f[IP] == 0x45 && Get16(f, FRAG) == 0
    ensures f[PROTOCOL] == proto && Get32(f, SADDR) == src && Get32(f, DADDR) == dst
    ensures forall k | 0 <= k < |segment| :: f[34 + k] == segment[k]
  {
    SealedFields(Addressed(Head(proto, length) + segment, src, dst));
    Sealed(Addressed(Head(proto, length) + segment, src, dst))
  }

  lemma FrameIsFresh(proto: Byte, length: Byte, src: Addr, dst: Addr, segment: seq<Byte>)
    ensures IpFresh(Frame(proto, length, src, dst, segment), 34)
  {
    SealedIsFresh(Addressed(Head(proto, length) + segment, src, dst));
  }

  // ----- An echo reply that becomes all zero -----

  /** An echo message with sequence number zero and no data. */
  function EchoSegment(kind: Byte, check: Word, id: Word): (s: seq<Byte>)
    ensures |s| == 8 && s[0] == kind && s[1] == 0 && Get16(s, 2) == check && Get16(s, 4) == id && Get16(s, 6) == 0
  {
    [kind, 0, check / 256, check % 256, id / 256, id % 256, 0, 0]
  }

  lemma SegmentWord(f: seq<Byte>, segment: seq<Byte>, k: nat)
    requires |f| == 34 + |segment| && k + 2 <= |segment|
    requires forall i | 0 <= i < |segment| :: f[34 + i] == segment[i]
    ensures Get16(f, 34 + k) == Get16(segment, k)
  {
    assert f[34 + k] == segment[k] && f[34 + (k + 1)] == segment[k + 1];
  }

  function EchoFrame(src: Addr, dst: Addr, kind: Byte, check: Word, id: Word): (f: seq<Byte>)
    ensures |f| == 42 && IsEchoFrame(f, kind) && Parse(f).l4 == 34
    ensures Get32(f, SADDR) == src && Get32(f, DADDR) == dst
    ensures Get16(f, 34) == kind * 256 && Get16(f, 36) == check && Get16(f, 38) == id && Get16(f, 40) == 0
  {
    var segment := EchoSegment(kind, check, id);
    var f := Frame(ICMP, 28, src, dst, segment);
    SegmentWord(f, segment, 0);
    SegmentWord(f, segment, 2);
    SegmentWord(f, segment, 4);
    SegmentWord(f, segment, 6);
    assert f[34 + 0] == kind && f[34 + 1] == 0;
    f
  }

  /** A request with identifier zero. */
  function ZeroRequest(inside: Addr, remote: Addr): seq<Byte> { EchoFrame(inside, remote, 8, 0xF7FF, 0) }

  /** The reply to it, as it was sent out: 25000 is the first identifier that the engine allocates. */
  function ZeroReply(remote: Addr, wan: Addr): seq<Byte> { EchoFrame(remote, wan, 0, 0xFFFF - 25000, 25000) }

  lemma FourWords(g: seq<Byte>)
    requires |g| == 42
    ensures SumWords(g, 34, 42) == Get16(g, 34) + Get16(g, 36) + Get16(g, 38) + Get16(g, 40)
  {
    assert SumWords(g, 40, 42) == Get16(g, 40) + SumWords(g, 42, 42);
    assert SumWords(g, 38, 42) == Get16(g, 38) + SumWords(g, 40, 42);
    assert SumWords(g, 36, 42) == Get16(g, 36) + SumWords(g, 38, 42);
  }

  lemma ZeroReplySums(f: seq<Byte>)
    requires |f| == 42 && Get16(f, 34) == 0 && Get16(f, 38) == 25000 && Get16(f, 40) == 0
    ensures SumWords(Put16(f, 36, 0), 34, 42) == 25000
    ensures SumWords(Put16(Put16(f, 36, 0), 38, 0), 34, 42) == 0
  {
    var g := Put16(f, 36, 0);
    PutKeeps(f, 36, 0, 34);
    PutKeeps(f, 36, 0, 38);
    PutKeeps(f, 36, 0, 40);
    FourWords(g);
    PutKeeps(g, 38, 0, 34);
    PutKeeps(g, 38, 0, 36);
    PutKeeps(g, 38, 0, 40);
    FourWords(Put16(g, 38, 0));
  }

  /** The first echo session of an engine gets identifier 25000, and admits the reply. */
  lemma FirstEcho(key: Echoes.EchoKey, hash: nat, now: Flows.Tick)
    ensures var r := Echoes.Outbound(Echoes.Empty(), key, hash, now); var i := Echoes.Admits(r.0, key.daddr, 25000);
            r.1 == 25000 && 0 <= i && r.0.sessions[i].key == key
  {
    var t, i := Echoes.Empty(), hash % Echoes.MAX_ICMP_SESSIONS;
    assert Echoes.Probe(t, key, hash, now, 0) == Flows.Take(i);
    assert Echoes.Allocate(t, 0) == (25000, t.(cursor := 25001));
  }

  lemma RunTwo(a: Event, b: Event, hs: Hashes)
    ensures Run(Initial(), [a, b], hs) == Step(Step(Initial(), a, hs), b, hs)
  {
    assert [a, b][..1] == [a] && [a][..0] == [];
    assert Run(Initial(), [a], hs) == Step(Run(Initial(), [], hs), a, hs);
  }

  /** After the WAN address was set and the request was sent, the engine lets the reply in and gives it
      the identifier of the request. */
  lemma ZeroReplyAdmitted(wan: Addr, inside: Addr, remote: Addr, hs: Hashes)
    requires wan != 0
    ensures var e := Run(Initial(), [SetWan(wan), Out(ZeroRequest(inside, remote))], hs);
            var g := Inbound(e, ZeroReply(remote, wan));
            g.ok && Get16(g.frame, 38) == 0
  {
    var f, r := ZeroRequest(inside, remote), ZeroReply(remote, wan);
    var key := EchoKeyOf(f);
    RunTwo(SetWan(wan), Out(f), hs);
    var e := Run(Initial(), [SetWan(wan), Out(f)], hs);
    FirstEcho(key, hs.echo(key), 0);
    EchoReplyRewritten(e, r, Echoes.Admits(e.echoes, remote, 25000));
  }

  /** Whatever the addresses: the WAN address is set, a host sends the request, and the reply arrives with
      right checksums. It is translated, and its ICMP checksum is wrong. */
  lemma ZeroReplyGoesStale(wan: Addr, inside: Addr, remote: Addr, hs: Hashes)
    requires wan != 0
    ensures var e := Run(Initial(), [SetWan(wan), Out(ZeroRequest(inside, remote))], hs);
            var r := ZeroReply(remote, wan);
            && Inbound(e, r).ok && IpFresh(r, 34) && Fresh(r, 34, 42, 36, 0)
            && IpFresh(Inbound(e, r).frame, 34) && !Fresh(Inbound(e, r).frame, 34, 42, 36, 0)
  {
    var e := Run(Initial(), [SetWan(wan), Out(ZeroRequest(inside, remote))], hs);
    var r := ZeroReply(remote, wan);
    ZeroReplyAdmitted(wan, inside, remote, hs);
    ZeroReplySums(r);
    FrameIsFresh(ICMP, 28, remote, wan, EchoSegment(0, 0xFFFF - 25000, 25000));
    InboundKeepsEcho(e, r, 42);
  }

  // ----- A TCP checksum of zero -----

  function Zeros(): seq<Byte> { seq(20, _ => 0) }

  /** A TCP header that opens a connection, with a checksum field of zero. */
  function SynSegment(sport: Word, dport: Word, window: Word): (s: seq<Byte>)
    ensures |s| == 20
  {
    Put16(Put16(Put16(Put16(Zeros(), 0, sport), 2, dport), 12, 0x5002), 14, window)
  }

  function SynFrame(src: Addr, dst: Addr, segment: seq<Byte>): seq<Byte> { Frame(TCP, 40, src, dst, segment) }

  lemma SynFrameParses(src: Addr, dst: Addr, segment: seq<Byte>)
    requires |segment| == 20
    ensures var f := SynFrame(src, dst, segment);
            IsPortFrame(f) && Parse(f).l4 == 34 && PortCheck(f) == 50
  {
  }

  lemma {:induction false} SegmentWords(f: seq<Byte>, segment: seq<Byte>, k: nat)
    requires |f| == 34 + |segment| && k <= |segment|
    requires forall i | 0 <= i < |segment| :: f[34 + i] == segment[i]
    ensures SumWords(f, 34 + k, |f|) == SumWords(segment, k, |segment|)
    decreases |segment| - k
  {
    if k + 2 <= |segment| {
      SegmentWord(f, segment, k);
      SegmentWords(f, segment, k + 2);
    } else if k < |segment| {
      assert f[34 + k] == segment[k];
    }
  }

  lemma {:induction false} ZerosSum(lo: nat)
    requires lo <= 20
    ensures SumWords(Zeros(), lo, 20) == 0
    decreases 20 - lo
  {
    if lo < 19 {
      ZerosSum(lo + 2);
    }
  }

  /** Writing a word where there was none adds it to the sum, and leaves the other words alone. */
  lemma AddWord(s: seq<Byte>, off: nat, w: Word)
    requires |s| == 20 && off + 2 <= 20 && off % 2 == 0 && Get16(s, off) == 0
    ensures SumWords(Put16(s, off, w), 0, 20) == SumWords(s, 0, 20) + w
    ensures forall k | 0 <= k < 19 && Apart(k, off) :: Get16(Put16(s, off, w), k) == Get16(s, k)
  {
    SumAfterPut16(s, 0, 20, off, w);
  }

  lemma SynWords(sport: Word, dport: Word, window: Word)
    ensures var s := SynSegment(sport, dport, window);
            Get16(s, 0) == sport && Get16(s, 16) == 0 && SumWords(s, 0, 20) == sport + dport + 0x5002 + window
  {
    var s1 := Put16(Zeros(), 0, sport);
    var s2 := Put16(s1, 2, dport);
    var s3 := Put16(s2, 12, 0x5002);
    ZerosSum(0);
    AddWord(Zeros(), 0, sport);
    AddWord(s1, 2, dport);
    AddWord(s2, 12, 0x5002);
    AddWord(s3, 14, window);
  }

  const INSIDE: Addr := 0xC0A8_0102
  const REMOTE: Addr := 0x0808_0808
  const WAN: Addr := 0xCB00_7101

  /** From 192.168.1.2:5000 to 8.8.8.8:80; its words add up to twice 65535. */
  function ZeroSyn(): seq<Byte> { SynFrame(INSIDE, REMOTE, SynSegment(5000, 80, 51792)) }

  lemma ZeroSynFields()
    ensures var f := ZeroSyn();
            && |f| == 54 && IsPortFrame(f) && Parse(f).l4 == 34 && PortCheck(f) == 50
            && Get32(f, SADDR) == INSIDE && Get32(f, DADDR) == REMOTE && f[PROTOCOL] == TCP
            && Get16(f, 34) == 5000 && Get16(f, 50) == 0 && SumWords(f, 34, 54) == 5000 + 80 + 0x5002 + 51792
  {
    var segment := SynSegment(5000, 80, 51792);
    SynFrameParses(INSIDE, REMOTE, segment);
    SegmentWord(ZeroSyn(), segment, 0);
    SegmentWord(ZeroSyn(), segment, 16);
    SegmentWords(ZeroSyn(), segment, 0);
    SynWords(5000, 80, 51792);
  }

  lemma ZeroSynIsRight()
    ensures SegmentFresh(ZeroSyn(), 34, 54, 50)
  {
    var f := ZeroSyn();
    ZeroSynFields();
    PutSame(f, 50);
    assert PseudoHeader(f, 20) == 0xC0A8 + 0x0102 + 0x0808 + 0x0808 + 6 + 20;
    assert SegmentSum(f, 34, 54, 50) == 131070;
    ZeroFieldIff(131070);
  }

  lemma FirstFlow(key: Flows.FlowKey, hash: nat, now: Flows.Tick)
    ensures Flows.Outbound(Flows.Empty(), key, hash, now).1 == 10000
  {
    assert Flows.Probe(Flows.Empty(), key, hash, now, 0) == Flows.Take(hash % Flows.MAX_SESSIONS);
  }

  lemma WordsDisagree()
    ensures !Agree(AddrWords(INSIDE) + 5000, AddrWords(WAN) + 10000)
  {
    assert AddrWords(INSIDE) == 49578 && AddrWords(WAN) == 80897;
  }

  lemma OutboundExchange(e: Engine, f: seq<Byte>, hs: Hashes, ext: Word)
    requires Shaped(e) && IsPortFrame(f) && FullHeader(f) && ext == Assign(e, f, hs).1 != 0
    ensures Outbound(e, f, hs).ok
    ensures Exchanged(Outbound(e, f, hs).frame, SADDR, Parse(f).l4) == AddrWords(e.wan) + ext
  {
    PortRewriteFields(f, SADDR, Parse(f).l4, PortCheck(f), e.wan, ext);
  }

  /** g is a translation of f, whose words in place of the old address and port add up to `words`. */
  ghost predicate Translated(f: seq<Byte>, g: seq<Byte>, l4: nat, end: nat, check: nat, words: nat) {
    && 34 <= l4 <= end <= |f| == |g| && check + 2 <= |f| && l4 + 2 <= |f|
    && PortsKept(f, g, SADDR, l4, l4, end, check) && Exchanged(g, SADDR, l4) == words
  }

  /** f has right checksums; g has a right IPv4 checksum and a wrong transport checksum, and a receiver
      refuses it. */
  ghost predicate GoneStale(f: seq<Byte>, g: seq<Byte>, l4: nat, end: nat, check: nat) {
    && 34 <= l4 <= end <= |f| == |g| && check + 2 <= |f|
    && IpFresh(f, l4) && SegmentFresh(f, l4, end, check) && IpFresh(g, l4) && !SegmentFresh(g, l4, end, check)
    && !SegmentAccepted(g, l4, end, check)
  }

  lemma OutboundTranslated(e: Engine, f: seq<Byte>, hs: Hashes, end: nat, ext: Word)
    requires Shaped(e) && IsPortFrame(f) && Segment(f, end) && ext == Assign(e, f, hs).1 != 0
    ensures Outbound(e, f, hs).ok
    ensures Translated(f, Outbound(e, f, hs).frame, Parse(f).l4, end, PortCheck(f), AddrWords(e.wan) + ext)
  {
    OutboundExchange(e, f, hs, ext);
    OutboundKeepsPorts(e, f, hs, end);
  }

  /** A right checksum of zero goes stale whenever the words exchanged disagree. */
  lemma ZeroGoesStale(f: seq<Byte>, g: seq<Byte>, l4: nat, end: nat, check: nat, words: nat)
    requires Translated(f, g, l4, end, check, words) && !Agree(Exchanged(f, SADDR, l4), words)
    requires SegmentFresh(f, l4, end, check) && Get16(f, check) == 0 && IpFresh(f, l4) && f[PROTOCOL] == TCP
    ensures GoneStale(f, g, l4, end, check)
  {
    FreshVerifies(f, l4, end, check);
  }

  /** The first frame of an engine gets the first port. */
  lemma FirstPort(f: seq<Byte>, wan: Addr, hs: Hashes)
    requires IsPortFrame(f) && wan != 0
    ensures var e := Run(Initial(), [SetWan(wan)], hs);
            e.wan == wan && Assign(e, f, hs).1 == 10000
  {
    assert [SetWan(wan)][..0] == [];
    assert Run(Initial(), [SetWan(wan)], hs) == Initial().(wan := wan);
    FirstFlow(FlowKeyOf(f), hs.flow(FlowKeyOf(f)), 0);
  }

  /** The first frame of an engine behind 203.0.113.1 arrives with right checksums, the TCP one being zero,
      and leaves with a wrong one. */
  lemma ZeroSynGoesStale(hs: Hashes)
    ensures var e, f := Run(Initial(), [SetWan(WAN)], hs), ZeroSyn();
            Outbound(e, f, hs).ok && GoneStale(f, Outbound(e, f, hs).frame, 34, 54, 50)
  {
    var e, f := Run(Initial(), [SetWan(WAN)], hs), ZeroSyn();
    ZeroSynFields();
    FirstPort(f, WAN, hs);
    OutboundTranslated(e, f, hs, 54, 10000);
    ZeroSynTranslation(f, Outbound(e, f, hs).frame);
  }

  lemma ZeroSynTranslation(f: seq<Byte>, g: seq<Byte>)
    requires f == ZeroSyn() && Translated(f, g, 34, 54, 50, AddrWords(WAN) + 10000)
    ensures GoneStale(f, g, 34, 54, 50)
  {
    ZeroSynFields();
    ZeroSynIsRight();
    FrameIsFresh(TCP, 40, INSIDE, REMOTE, SynSegment(5000, 80, 51792));
    WordsDisagree();
    ZeroGoesStale(f, g, 34, 54, 50, AddrWords(WAN) + 10000);
  }
}
