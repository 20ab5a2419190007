/** Ethernet frames as received: where the parser finds the IPv4 and transport headers, and the
    in-place rewriting of an address and a port (or echo identifier) with its checksum updates. */
module Frames {
  import opened Bytes
  import opened Checksum

  const TCP: Byte := 6
  const UDP: Byte := 17
  const ICMP: Byte := 1

  // Offsets in the frame of the fields of the IPv4 header.
  const IP: nat := 14
  const FRAG: nat := 20
  const PROTOCOL: nat := 23
  const IP_CHECK: nat := 24
  const SADDR: nat := 26
  const DADDR: nat := 30

  /** What the parser reports; `proto` stays 0 when the header length runs past the frame. */
  datatype Parsed = Parsed(ipv4: bool, proto: Byte, l4: nat, hasL4: bool)

  function HeaderSize(proto: Byte): nat {
    if proto == TCP then 20 else 8
  }

  function Parse(f: seq<Byte>): Parsed {
    if |f| < 14 || Get16(f, 12) != 0x0800 || |f| < 34 then Parsed(false, 0, 0, false)
    else
      var l4 := IP + (f[IP] % 16) * 4;
      if |f| < l4 then Parsed(true, 0, l4, false)
      else
        var proto := f[PROTOCOL];
        Parsed(true, proto, l4, proto in {TCP, UDP, ICMP} && |f| >= l4 + HeaderSize(proto))
  }

  /** A transport header the parser hands out lies inside the frame, and it overlaps the fixed
      IPv4 header exactly when the header length field is below five. */
  lemma HeaderWindow(f: seq<Byte>)
    ensures Parse(f).hasL4 ==> Parse(f).ipv4 && Parse(f).proto == f[PROTOCOL]
    ensures Parse(f).hasL4 ==> 14 <= Parse(f).l4 && Parse(f).l4 + HeaderSize(f[PROTOCOL]) <= |f|
    ensures Parse(f).ipv4 ==> |f| >= 34 && (Parse(f).l4 < 34 <==> f[IP] % 16 < 5)
    ensures Parse(f).ipv4 ==> (Parse(f).l4 - IP) % 2 == 0
  {
  }

  /** Offset of the TCP or UDP checksum field. */
  function PortCheck(f: seq<Byte>): nat
    requires Parse(f).hasL4
  {
    Parse(f).l4 + (if f[PROTOCOL] == TCP then 16 else 6)
  }

  /** The transport checksum after the address at `addrOff` becomes `addr` and the port at `portOff`
      becomes `port`; a zero field is left alone. */
  function PortCheckAfter(f: seq<Byte>, addrOff: nat, portOff: nat, check: nat, addr: Addr, port: Word): seq<Byte>
    requires |f| >= 34 && addrOff in {SADDR, DADDR}
    requires portOff + 2 <= |f| && check + 2 <= |f|
  {
    if Get16(f, check) == 0 then f
    else
      var g := Put16(f, check, UpdateChecksum32(Get16(f, check), Get32(f, addrOff), addr));
      Put16(g, check, UpdateChecksum16(Get16(g, check), Get16(g, portOff), port))
  }

  /** One NAT rewrite of a TCP or UDP frame: the address at `addrOff`, the port at `portOff`, and
      the checksums at IP_CHECK and, unless it is zero, at `check`; in the order of the code. */
  function RewritePort(f: seq<Byte>, addrOff: nat, portOff: nat, check: nat, addr: Addr, port: Word): (r: seq<Byte>)
    requires |f| >= 34 && addrOff in {SADDR, DADDR}
    requires portOff + 2 <= |f| && check + 2 <= |f|
    ensures |r| == |f|
  {
    var f1 := Put16(f, IP_CHECK, UpdateChecksum32(Get16(f, IP_CHECK), Get32(f, addrOff), addr));
    var f2 := PortCheckAfter(f1, addrOff, portOff, check, addr, port);
    Put16(Put32(f2, addrOff, addr), portOff, port)
  }

  /** One NAT rewrite of an ICMP echo frame; the ICMP checksum does not cover the addresses. */
  function RewriteEcho(f: seq<Byte>, addrOff: nat, l4: nat, addr: Addr, id: Word): (r: seq<Byte>)
    requires |f| >= 34 && addrOff in {SADDR, DADDR}
    requires l4 + 8 <= |f|
    ensures |r| == |f|
  {
    var f1 := Put16(f, IP_CHECK, UpdateChecksum32(Get16(f, IP_CHECK), Get32(f, addrOff), addr));
    var f2 :=
      if Get16(f1, l4 + 2) == 0 then f1
      else Put16(f1, l4 + 2, UpdateChecksum16(Get16(f1, l4 + 2), Get16(f, l4 + 4), id));
    Put16(Put32(f2, addrOff, addr), l4 + 4, id)
  }

  // ----- What a rewrite leaves behind -----

  /** r is f with new fields at the two checksums, the address and the port, and nothing else. */
  ghost predicate Rewritten(f: seq<Byte>, r: seq<Byte>, addrOff: nat, portOff: nat, check: nat,
                            addr: Addr, port: Word, ipCheck: Word, l4Check: Word)
    requires |f| >= 34 && addrOff in {SADDR, DADDR} && portOff + 2 <= |f| && check + 2 <= |f|
  {
    && |r| == |f|
    && Get32(r, addrOff) == addr && Get16(r, portOff) == port
    && Get16(r, IP_CHECK) == ipCheck && Get16(r, check) == l4Check
    && forall k | 0 <= k < |f| :: r[k] == f[k] || IP_CHECK <= k < IP_CHECK + 2 || addrOff <= k < addrOff + 4
                                              || portOff <= k < portOff + 2 || check <= k < check + 2
  }

  ghost predicate Apart(a: nat, b: nat) { a + 2 <= b || b + 2 <= a }

  lemma FourWrites(f: seq<Byte>, addrOff: nat, portOff: nat, check: nat,
                   addr: Addr, port: Word, ipCheck: Word, l4Check: Word)
    requires |f| >= 34 && addrOff in {SADDR, DADDR}
    requires 34 <= portOff && 34 <= check && portOff + 2 <= |f| && check + 2 <= |f| && Apart(portOff, check)
    ensures var r := Put16(Put32(Put16(Put16(f, IP_CHECK, ipCheck), check, l4Check), addrOff, addr), portOff, port);
            Rewritten(f, r, addrOff, portOff, check, addr, port, ipCheck, l4Check)
  {
    var f1 := Put16(f, IP_CHECK, ipCheck);
    var f2 := Put16(f1, check, l4Check);
    var f3 := Put32(f2, addrOff, addr);
    var r := Put16(f3, portOff, port);
    assert Get32(r, addrOff) == Get32(f3, addrOff);
    assert Get16(r, IP_CHECK) == Get16(f1, IP_CHECK);
    assert Get16(r, check) == Get16(f2, check);
  }

  /** With a header length of at least five, a TCP or UDP rewrite sets the address and the port and
      changes no byte outside them and the two checksum fields. */
  lemma PortRewriteFields(f: seq<Byte>, addrOff: nat, portOff: nat, check: nat, addr: Addr, port: Word)
    requires |f| >= 34 && addrOff in {SADDR, DADDR}
    requires 34 <= portOff && 34 <= check && portOff + 2 <= |f| && check + 2 <= |f| && Apart(portOff, check)
    ensures Rewritten(f, RewritePort(f, addrOff, portOff, check, addr, port), addrOff, portOff, check, addr, port,
                      UpdateChecksum32(Get16(f, IP_CHECK), Get32(f, addrOff), addr),
                      if Get16(f, check) == 0 then 0 else
                        UpdateChecksum16(UpdateChecksum32(Get16(f, check), Get32(f, addrOff), addr),
                                         Get16(f, portOff), port))
  {
    var c1 := UpdateChecksum32(Get16(f, IP_CHECK), Get32(f, addrOff), addr);
    PutKeeps(f, IP_CHECK, c1, check);
    PutKeeps(f, IP_CHECK, c1, portOff);
    PutKeeps32(f, IP_CHECK, c1, addrOff);
    var f1 := Put16(f, IP_CHECK, c1);
    var c3 := PortCheckValue(f1, addrOff, portOff, check, addr, port);
    FourWrites(f, addrOff, portOff, check, addr, port, c1, c3);
  }

  lemma PortCheckValue(f: seq<Byte>, addrOff: nat, portOff: nat, check: nat, addr: Addr, port: Word)
    returns (c: Word)
    requires |f| >= 34 && addrOff in {SADDR, DADDR}
    requires portOff + 2 <= |f| && check + 2 <= |f| && Apart(portOff, check)
    ensures c == if Get16(f, check) == 0 then 0 else
                   UpdateChecksum16(UpdateChecksum32(Get16(f, check), Get32(f, addrOff), addr), Get16(f, portOff), port)
    ensures PortCheckAfter(f, addrOff, portOff, check, addr, port) == Put16(f, check, c)
  {
    if Get16(f, check) == 0 {
      PutSame(f, check);
      c := 0;
    } else {
      var c2 := UpdateChecksum32(Get16(f, check), Get32(f, addrOff), addr);
      c := UpdateChecksum16(c2, Get16(f, portOff), port);
      PutKeeps(f, check, c2, portOff);
      PutTwice(f, check, c2, c);
    }
  }

  lemma EchoRewriteFields(f: seq<Byte>, addrOff: nat, l4: nat, addr: Addr, id: Word)
    requires |f| >= 34 && addrOff in {SADDR, DADDR}
    requires 34 <= l4 && l4 + 8 <= |f|
    ensures Rewritten(f, RewriteEcho(f, addrOff, l4, addr, id), addrOff, l4 + 4, l4 + 2, addr, id,
                      UpdateChecksum32(Get16(f, IP_CHECK), Get32(f, addrOff), addr),
                      if Get16(f, l4 + 2) == 0 then 0 else
                        UpdateChecksum16(Get16(f, l4 + 2), Get16(f, l4 + 4), id))
  {
    var c1 := UpdateChecksum32(Get16(f, IP_CHECK), Get32(f, addrOff), addr);
    var f1 := Put16(f, IP_CHECK, c1);
    PutKeeps(f, IP_CHECK, c1, l4 + 2);
    if Get16(f, l4 + 2) == 0 {
      PutSame(f1, l4 + 2);
      FourWrites(f, addrOff, l4 + 4, l4 + 2, addr, id, c1, 0);
    } else {
      var c2 := UpdateChecksum16(Get16(f, l4 + 2), Get16(f, l4 + 4), id);
      FourWrites(f, addrOff, l4 + 4, l4 + 2, addr, id, c1, c2);
    }
  }

  lemma PutKeeps(f: seq<Byte>, off: nat, w: Word, other: nat)
    requires off + 2 <= |f| && other + 2 <= |f| && Apart(off, other)
    ensures Get16(Put16(f, off, w), other) == Get16(f, other)
  {
  }

  lemma PutKeeps32(f: seq<Byte>, off: nat, w: Word, other: nat)
    requires off + 2 <= |f| && other + 4 <= |f| && (off + 2 <= other || other + 4 <= off)
    ensures Get32(Put16(f, off, w), other) == Get32(f, other)
  {
  }

  lemma PutSame(f: seq<Byte>, off: nat)
    requires off + 2 <= |f|
    ensures Put16(f, off, Get16(f, off)) == f
  {
  }

  lemma PutTwice(f: seq<Byte>, off: nat, v: Word, w: Word)
    requires off + 2 <= |f|
    ensures Put16(Put16(f, off, v), off, w) == Put16(f, off, w)
  {
  }
}
