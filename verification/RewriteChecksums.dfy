/** A NAT rewrite keeps the checksums of a frame right: what "right" means is recomputation from
    scratch over the IPv4 header, and over the segment with its pseudo-header. */
module RewriteChecksums {
  import opened Bytes
  import opened Checksum
  import opened Frames

  /** The field at `check` equals the checksum recomputed over s[lo..end] plus `extra`. */
  ghost predicate Fresh(f: seq<Byte>, lo: nat, end: nat, check: nat, extra: nat)
    requires end <= |f| && check + 2 <= |f|
  {
    Get16(f, check) == FieldFor(extra + SumWords(Put16(f, check, 0), lo, end))
  }

  ghost predicate IpFresh(f: seq<Byte>, l4: nat)
    requires 34 <= l4 <= |f|
  {
    Fresh(f, IP, l4, IP_CHECK, 0)
  }

  /** The words of the TCP and UDP pseudo-header. */
  function PseudoHeader(f: seq<Byte>, len: nat): nat
    requires |f| >= 34
  {
    High(Get32(f, SADDR)) + Low(Get32(f, SADDR)) + High(Get32(f, DADDR)) + Low(Get32(f, DADDR)) + f[PROTOCOL] + len
  }

  /** They are the words of the two addresses, a zero byte, the protocol and the length (section 3.1 of
      RFC 9293, and RFC 768). */
  lemma PseudoHeaderWords(f: seq<Byte>, len: Word)
    requires |f| >= 34
    ensures PseudoHeader(f, len) == SumWords(f[26..34] + [0, f[23], len / 256, len % 256], 0, 12)
  {
    var p := f[26..34] + [0, f[23], len / 256, len % 256];
    assert SumWords(p, 8, 12) == Get16(p, 8) + (Get16(p, 10) + SumWords(p, 12, 12));
    assert SumWords(p, 4, 12) == Get16(p, 4) + (Get16(p, 6) + SumWords(p, 8, 12));
    assert SumWords(p, 0, 12) == Get16(p, 0) + (Get16(p, 2) + SumWords(p, 4, 12));
    AddressHalves(f, 26);
    AddressHalves(f, 30);
  }

  /** The words a TCP or UDP checksum covers, with its own field taken as zero. */
  function SegmentSum(f: seq<Byte>, l4: nat, end: nat, check: nat): nat
    requires 34 <= l4 <= end <= |f| && check + 2 <= |f|
  {
    PseudoHeader(f, end - l4) + SumWords(Put16(f, check, 0), l4, end)
  }

  ghost predicate SegmentFresh(f: seq<Byte>, l4: nat, end: nat, check: nat)
    requires 34 <= l4 <= end <= |f| && check + 2 <= |f|
  {
    Get16(f, check) == FieldFor(SegmentSum(f, l4, end, check))
  }

  /** A rewrite of aligned fields of the segment f[l4..end] and of one address. */
  ghost predicate Layout(f: seq<Byte>, addrOff: nat, portOff: nat, check: nat, l4: nat, end: nat) {
    && 34 <= l4 <= end <= |f| && (l4 - IP) % 2 == 0
    && addrOff in {SADDR, DADDR}
    && l4 <= portOff && portOff + 2 <= end && (portOff - l4) % 2 == 0
    && l4 <= check && check + 2 <= end && (check - l4) % 2 == 0
    && Apart(portOff, check)
  }

  /** The two sums call for the same checksum, but for the two forms of zero. */
  predicate Agree(a: nat, b: nat) { a % 0xFFFF == b % 0xFFFF }

  function AddrWords(a: Addr): nat { High(a) + Low(a) }

  lemma AddressHalves(g: seq<Byte>, off: nat)
    requires off + 4 <= |g|
    ensures High(Get32(g, off)) == Get16(g, off) && Low(Get32(g, off)) == Get16(g, off + 2)
  {
  }

  lemma SumAfterTwoWords(g: seq<Byte>, lo: nat, hi: nat, off: nat, w: Word, x: Word)
    requires lo <= off && off + 4 <= hi <= |g| && (off - lo) % 2 == 0
    ensures SumWords(Put16(Put16(g, off, w), off + 2, x), lo, hi) + Get16(g, off) + Get16(g, off + 2)
         == SumWords(g, lo, hi) + w + x
  {
    SumAfterPut16(g, lo, hi, off, w);
    SumAfterPut16(Put16(g, off, w), lo, hi, off + 2, x);
    PutKeeps(g, off, w, off + 2);
  }

  /** The sum over the header once an aligned address is overwritten. */
  lemma SumAfterAddress(g: seq<Byte>, lo: nat, hi: nat, off: nat, addr: Addr)
    requires lo <= off && off + 4 <= hi <= |g| && (off - lo) % 2 == 0
    ensures SumWords(Put32(g, off, addr), lo, hi) + AddrWords(Get32(g, off)) == SumWords(g, lo, hi) + AddrWords(addr)
  {
    SumAfterTwoWords(g, lo, hi, off, High(addr), Low(addr));
    AddressHalves(g, off);
  }

  lemma HeaderSumAfter(f: seq<Byte>, r: seq<Byte>, addrOff: nat, portOff: nat, check: nat, l4: nat, end: nat,
                       addr: Addr, port: Word, ipCheck: Word, l4Check: Word)
    requires Layout(f, addrOff, portOff, check, l4, end)
    requires Rewritten(f, r, addrOff, portOff, check, addr, port, ipCheck, l4Check)
    ensures SumWords(Put16(r, IP_CHECK, 0), IP, l4) + AddrWords(Get32(f, addrOff))
         == SumWords(Put16(f, IP_CHECK, 0), IP, l4) + AddrWords(addr)
  {
    var g := Put16(f, IP_CHECK, 0);
    PutKeeps32(f, IP_CHECK, 0, addrOff);
    SumAfterAddress(g, IP, l4, addrOff, addr);
    HeaderBytesAfter(f, r, addrOff, portOff, check, l4, addr, port, ipCheck, l4Check);
    SumAgrees(Put32(g, addrOff, addr), Put16(r, IP_CHECK, 0), IP, l4);
  }

  lemma SameBytes(s: seq<Byte>, t: seq<Byte>, off: nat)
    requires off + 2 <= |s| && off + 2 <= |t| && Get16(s, off) == Get16(t, off)
    ensures s[off] == t[off] && s[off + 1] == t[off + 1]
  {
  }

  lemma HeaderBytesAfter(f: seq<Byte>, r: seq<Byte>, addrOff: nat, portOff: nat, check: nat, l4: nat,
                         addr: Addr, port: Word, ipCheck: Word, l4Check: Word)
    requires |f| >= 34 && 34 <= l4 <= |f| && addrOff in {SADDR, DADDR}
    requires l4 <= portOff && portOff + 2 <= |f| && l4 <= check && check + 2 <= |f|
    requires Rewritten(f, r, addrOff, portOff, check, addr, port, ipCheck, l4Check)
    ensures forall k :: IP <= k < l4 ==> Put32(Put16(f, IP_CHECK, 0), addrOff, addr)[k] == Put16(r, IP_CHECK, 0)[k]
  {
    var g := Put32(Put16(f, IP_CHECK, 0), addrOff, addr);
    SameAddress(g, r, addrOff);
  }

  lemma SameAddress(s: seq<Byte>, t: seq<Byte>, off: nat)
    requires off + 4 <= |s| && off + 4 <= |t| && Get32(s, off) == Get32(t, off)
    ensures forall k :: off <= k < off + 4 ==> s[k] == t[k]
  {
    SameBytes(s, t, off);
    SameBytes(s, t, off + 2);
  }

  lemma SegmentSumAfter(f: seq<Byte>, r: seq<Byte>, addrOff: nat, portOff: nat, check: nat, l4: nat, end: nat,
                        addr: Addr, port: Word, ipCheck: Word, l4Check: Word)
    requires Layout(f, addrOff, portOff, check, l4, end)
    requires Rewritten(f, r, addrOff, portOff, check, addr, port, ipCheck, l4Check)
    ensures SumWords(Put16(r, check, 0), l4, end) + Get16(f, portOff)
         == SumWords(Put16(f, check, 0), l4, end) + port
  {
    var g := Put16(f, check, 0);
    var g1 := Put16(g, portOff, port);
    SumAfterPut16(g, l4, end, portOff, port);
    PutKeeps(f, check, 0, portOff);
    SameBytes(g1, r, portOff);
    SumAgrees(g1, Put16(r, check, 0), l4, end);
  }

  lemma PseudoHeaderAfter(f: seq<Byte>, r: seq<Byte>, addrOff: nat, portOff: nat, check: nat, l4: nat, end: nat,
                          addr: Addr, port: Word, ipCheck: Word, l4Check: Word)
    requires Layout(f, addrOff, portOff, check, l4, end)
    requires Rewritten(f, r, addrOff, portOff, check, addr, port, ipCheck, l4Check)
    ensures PseudoHeader(r, end - l4) + AddrWords(Get32(f, addrOff)) == PseudoHeader(f, end - l4) + AddrWords(addr)
  {
    var other := SADDR + DADDR - addrOff;
    assert r[other..other + 4] == f[other..other + 4];
    assert Get32(r, other) == Get32(f, other);
  }

  /** Two incremental updates follow an address change, as long as some other word is non-zero. */
  lemma AddressUpdateTracks(sum: nat, a: Addr, b: Addr)
    requires AddrWords(a) < sum
    ensures UpdateChecksum32(FieldFor(sum), a, b) == FieldFor(sum - AddrWords(a) + AddrWords(b))
  {
    UpdateEqualsRecomputation(sum, High(a), High(b));
    UpdateEqualsRecomputation(sum - High(a) + High(b), Low(a), Low(b));
  }

  /** The IPv4 header checksum stays right through every NAT rewrite. */
  lemma HeaderStaysFresh(f: seq<Byte>, r: seq<Byte>, addrOff: nat, portOff: nat, check: nat, l4: nat, end: nat,
                         addr: Addr, port: Word, l4Check: Word)
    requires Layout(f, addrOff, portOff, check, l4, end) && f[PROTOCOL] != 0
    requires Rewritten(f, r, addrOff, portOff, check, addr, port,
                       UpdateChecksum32(Get16(f, IP_CHECK), Get32(f, addrOff), addr), l4Check)
    ensures IpFresh(f, l4) ==> IpFresh(r, l4)
  {
    var ipCheck := UpdateChecksum32(Get16(f, IP_CHECK), Get32(f, addrOff), addr);
    HeaderSumAfter(f, r, addrOff, portOff, check, l4, end, addr, port, ipCheck, l4Check);
    AddressWordsBelow(f, addrOff, l4);
    AddressUpdateTracks(SumWords(Put16(f, IP_CHECK, 0), IP, l4), Get32(f, addrOff), addr);
  }

  /** Two words of a sum, beside one that is not zero. */
  lemma WordsBelow(g: seq<Byte>, lo: nat, hi: nat, off: nat, other: nat)
    requires lo <= off && off + 4 <= hi <= |g| && (off - lo) % 2 == 0
    requires lo <= other && other + 2 <= off && (other - lo) % 2 == 0 && Get16(g, other) > 0
    ensures Get16(g, off) + Get16(g, off + 2) < SumWords(g, lo, hi)
  {
    var g1 := Put16(g, off, 0);
    SumAfterTwoWords(g, lo, hi, off, 0, 0);
    SumAtLeast(Put16(g1, off + 2, 0), lo, hi, other);
    PutKeeps(g, off, 0, other);
    PutKeeps(g1, off + 2, 0, other);
  }

  lemma AddressWordsBelow(f: seq<Byte>, addrOff: nat, l4: nat)
    requires 34 <= l4 <= |f| && addrOff in {SADDR, DADDR} && f[PROTOCOL] != 0
    ensures AddrWords(Get32(f, addrOff)) < SumWords(Put16(f, IP_CHECK, 0), IP, l4)
  {
    var g := Put16(f, IP_CHECK, 0);
    PutKeeps32(f, IP_CHECK, 0, addrOff);
    AddressHalves(g, addrOff);
    WordsBelow(g, IP, l4, addrOff, PROTOCOL - 1);
  }

  lemma SegmentTotals(f: seq<Byte>, r: seq<Byte>, addrOff: nat, portOff: nat, check: nat, l4: nat, end: nat,
                      addr: Addr, port: Word, ipCheck: Word, l4Check: Word)
    requires Layout(f, addrOff, portOff, check, l4, end) && f[PROTOCOL] != 0
    requires Rewritten(f, r, addrOff, portOff, check, addr, port, ipCheck, l4Check)
    ensures Exchanged(r, addrOff, portOff) == AddrWords(addr) + port
    ensures SegmentSum(r, l4, end, check) + Exchanged(f, addrOff, portOff)
         == SegmentSum(f, l4, end, check) + Exchanged(r, addrOff, portOff)
    ensures Exchanged(f, addrOff, portOff) < SegmentSum(f, l4, end, check)
  {
    SegmentSumAfter(f, r, addrOff, portOff, check, l4, end, addr, port, ipCheck, l4Check);
    PseudoHeaderAfter(f, r, addrOff, portOff, check, l4, end, addr, port, ipCheck, l4Check);
    PutKeeps(f, check, 0, portOff);
    SumAtLeast(Put16(f, check, 0), l4, end, portOff);
  }

  lemma PortUpdatesTrack(before: nat, oldAddr: Addr, newAddr: Addr, oldPort: Word, newPort: Word)
    requires AddrWords(oldAddr) + oldPort < before
    ensures UpdateChecksum16(UpdateChecksum32(FieldFor(before), oldAddr, newAddr), oldPort, newPort)
         == FieldFor(before - AddrWords(oldAddr) + AddrWords(newAddr) - oldPort + newPort)
  {
    AddressUpdateTracks(before, oldAddr, newAddr);
    UpdateEqualsRecomputation(before - AddrWords(oldAddr) + AddrWords(newAddr), oldPort, newPort);
  }

  lemma FieldAfter(before: nat, after: nat, field: Word, newField: Word, oldAddr: Addr, newAddr: Addr,
                   oldPort: Word, newPort: Word, oldWords: nat, newWords: nat)
    requires field == FieldFor(before)
    requires newField == if field == 0 then 0 else
                           UpdateChecksum16(UpdateChecksum32(field, oldAddr, newAddr), oldPort, newPort)
    requires oldWords == AddrWords(oldAddr) + oldPort && newWords == AddrWords(newAddr) + newPort
    requires after + oldWords == before + newWords && oldWords < before
    ensures newField == FieldFor(after) <==> field != 0 || Agree(oldWords, newWords)
  {
    if field != 0 {
      PortUpdatesTrack(before, oldAddr, newAddr, oldPort, newPort);
    } else {
      ZeroField(before, after, oldWords, newWords);
    }
  }

  /** The words that a TCP or UDP rewrite exchanges. */
  function Exchanged(f: seq<Byte>, addrOff: nat, portOff: nat): nat
    requires |f| >= 34 && addrOff in {SADDR, DADDR} && portOff + 2 <= |f|
  {
    AddrWords(Get32(f, addrOff)) + Get16(f, portOff)
  }

  /** The transport checksum field after a TCP or UDP rewrite. */
  function PortField(f: seq<Byte>, addrOff: nat, portOff: nat, check: nat, addr: Addr, port: Word): Word
    requires |f| >= 34 && addrOff in {SADDR, DADDR} && portOff + 2 <= |f| && check + 2 <= |f|
  {
    if Get16(f, check) == 0 then 0
    else UpdateChecksum16(UpdateChecksum32(Get16(f, check), Get32(f, addrOff), addr), Get16(f, portOff), port)
  }

  /** TCP and UDP: a non-zero field that was right stays right. A field of zero is not updated, so it
      stays right exactly when the words exchanged agree modulo 65535. */
  lemma SegmentStaysFresh(f: seq<Byte>, r: seq<Byte>, addrOff: nat, portOff: nat, check: nat, l4: nat, end: nat,
                          addr: Addr, port: Word, ipCheck: Word)
    requires Layout(f, addrOff, portOff, check, l4, end) && f[PROTOCOL] != 0
    requires Rewritten(f, r, addrOff, portOff, check, addr, port, ipCheck,
                       PortField(f, addrOff, portOff, check, addr, port))
    requires SegmentFresh(f, l4, end, check)
    ensures SegmentFresh(r, l4, end, check)
       <==> Get16(f, check) != 0 || Agree(Exchanged(f, addrOff, portOff), Exchanged(r, addrOff, portOff))
  {
    var l4Check := PortField(f, addrOff, portOff, check, addr, port);
    SegmentTotals(f, r, addrOff, portOff, check, l4, end, addr, port, ipCheck, l4Check);
    FieldAfter(SegmentSum(f, l4, end, check), SegmentSum(r, l4, end, check), Get16(f, check), l4Check,
               Get32(f, addrOff), addr, Get16(f, portOff), port,
               Exchanged(f, addrOff, portOff), Exchanged(r, addrOff, portOff));
  }

  /** A receiver finds the checksum of the segment right. */
  ghost predicate SegmentVerifies(f: seq<Byte>, l4: nat, end: nat, check: nat)
    requires 34 <= l4 <= end <= |f| && check + 2 <= |f|
  {
    Verifies(SegmentSum(f, l4, end, check), Get16(f, check))
  }

  /** A receiver accepts the segment: for UDP a field of zero says that there is no checksum. */
  ghost predicate SegmentAccepted(f: seq<Byte>, l4: nat, end: nat, check: nat)
    requires 34 <= l4 <= end <= |f| && check + 2 <= |f|
  {
    (f[PROTOCOL] == UDP && Get16(f, check) == 0) || SegmentVerifies(f, l4, end, check)
  }

  /** Recomputation gives a field that verifies. */
  lemma FreshVerifies(f: seq<Byte>, l4: nat, end: nat, check: nat)
    requires 34 <= l4 <= end <= |f| && check + 2 <= |f| && SegmentFresh(f, l4, end, check)
    ensures SegmentVerifies(f, l4, end, check)
  {
    FieldVerifies(SegmentSum(f, l4, end, check));
  }

  lemma PortUpdatesVerify(before: nat, field: Word, oldAddr: Addr, newAddr: Addr, oldPort: Word, newPort: Word)
    requires AddrWords(oldAddr) + oldPort < before && Verifies(before, field)
    ensures Verifies(before - AddrWords(oldAddr) + AddrWords(newAddr) - oldPort + newPort,
                     UpdateChecksum16(UpdateChecksum32(field, oldAddr, newAddr), oldPort, newPort))
  {
    var first := UpdateChecksum16(field, High(oldAddr), High(newAddr));
    UpdateVerifies(before, field, High(oldAddr), High(newAddr));
    UpdateVerifies(before - High(oldAddr) + High(newAddr), first, Low(oldAddr), Low(newAddr));
    UpdateVerifies(before - AddrWords(oldAddr) + AddrWords(newAddr), UpdateChecksum32(field, oldAddr, newAddr),
                   oldPort, newPort);
  }

  lemma VerifiesAfter(before: nat, after: nat, field: Word, newField: Word, oldAddr: Addr, newAddr: Addr,
                      oldPort: Word, newPort: Word, oldWords: nat, newWords: nat)
    requires Verifies(before, field)
    requires newField == if field == 0 then 0 else
                           UpdateChecksum16(UpdateChecksum32(field, oldAddr, newAddr), oldPort, newPort)
    requires oldWords == AddrWords(oldAddr) + oldPort && newWords == AddrWords(newAddr) + newPort
    requires after + oldWords == before + newWords && oldWords < before
    ensures Verifies(after, newField) <==> field != 0 || Agree(oldWords, newWords)
  {
    if field != 0 {
      PortUpdatesVerify(before, field, oldAddr, newAddr, oldPort, newPort);
    } else {
      AllOnesIff(before);
      AllOnesIff(after);
      Congruent(before, after, oldWords, newWords);
    }
  }

  /** What a receiver finds right, 0xFFFF in place of zero included, it finds right after the rewrite, if and
      only if the field was not zero or the words exchanged agree modulo 65535. */
  lemma SegmentStillVerifies(f: seq<Byte>, r: seq<Byte>, addrOff: nat, portOff: nat, check: nat, l4: nat, end: nat,
                             addr: Addr, port: Word, ipCheck: Word)
    requires Layout(f, addrOff, portOff, check, l4, end) && f[PROTOCOL] != 0
    requires Rewritten(f, r, addrOff, portOff, check, addr, port, ipCheck,
                       PortField(f, addrOff, portOff, check, addr, port))
    requires SegmentVerifies(f, l4, end, check)
    ensures SegmentVerifies(r, l4, end, check)
       <==> Get16(f, check) != 0 || Agree(Exchanged(f, addrOff, portOff), Exchanged(r, addrOff, portOff))
  {
    var l4Check := PortField(f, addrOff, portOff, check, addr, port);
    SegmentTotals(f, r, addrOff, portOff, check, l4, end, addr, port, ipCheck, l4Check);
    VerifiesAfter(SegmentSum(f, l4, end, check), SegmentSum(r, l4, end, check), Get16(f, check), l4Check,
                  Get32(f, addrOff), addr, Get16(f, portOff), port,
                  Exchanged(f, addrOff, portOff), Exchanged(r, addrOff, portOff));
  }

  /** So a receiver goes on accepting every UDP segment, and a TCP segment unless its field was zero and the
      words exchanged disagree. */
  lemma SegmentStaysAccepted(f: seq<Byte>, r: seq<Byte>, addrOff: nat, portOff: nat, check: nat, l4: nat, end: nat,
                             addr: Addr, port: Word, ipCheck: Word)
    requires Layout(f, addrOff, portOff, check, l4, end) && f[PROTOCOL] != 0
    requires Rewritten(f, r, addrOff, portOff, check, addr, port, ipCheck,
                       PortField(f, addrOff, portOff, check, addr, port))
    requires SegmentAccepted(f, l4, end, check)
    ensures SegmentAccepted(r, l4, end, check)
       <==> || f[PROTOCOL] == UDP || Get16(f, check) != 0
            || Agree(Exchanged(f, addrOff, portOff), Exchanged(r, addrOff, portOff))
  {
    assert r[PROTOCOL] == f[PROTOCOL] && (Get16(f, check) == 0 ==> Get16(r, check) == 0);
    if !(f[PROTOCOL] == UDP && Get16(f, check) == 0) {
      SegmentStillVerifies(f, r, addrOff, portOff, check, l4, end, addr, port, ipCheck);
    }
  }

  /** A sum calls for a zero field exactly when it is a positive multiple of 65535. */
  lemma ZeroField(before: nat, after: nat, oldWords: nat, newWords: nat)
    requires FieldFor(before) == 0 && after + oldWords == before + newWords && after > 0
    ensures FieldFor(after) == 0 <==> Agree(oldWords, newWords)
  {
    ZeroFieldIff(after);
    ZeroFieldIff(before);
    Congruent(before, after, oldWords, newWords);
  }

  lemma ZeroFieldIff(sum: nat)
    ensures FieldFor(sum) == 0 <==> sum > 0 && sum % 0xFFFF == 0
  {
    AllOnesIff(sum);
  }

  lemma Congruent(before: nat, after: nat, oldWords: nat, newWords: nat)
    requires before % 0xFFFF == 0 && after + oldWords == before + newWords
    ensures after % 0xFFFF == 0 <==> oldWords % 0xFFFF == newWords % 0xFFFF
  {
    var q, r := after / 0xFFFF, after % 0xFFFF;
    assert after == r + 0xFFFF * q;
    ModCycles(newWords, before / 0xFFFF);
    ModCycles(r + oldWords, q);
  }

  /** The ICMP checksum field after an echo rewrite. */
  function EchoField(f: seq<Byte>, l4: nat, id: Word): Word
    requires l4 + 8 <= |f|
  {
    if Get16(f, l4 + 2) == 0 then 0 else UpdateChecksum16(Get16(f, l4 + 2), Get16(f, l4 + 4), id)
  }

  lemma EchoFieldAfter(before: nat, after: nat, field: Word, newField: Word, oldId: Word, newId: Word)
    requires field == FieldFor(before) && oldId <= before && after + oldId == before + newId
    requires newField == if field == 0 then 0 else UpdateChecksum16(field, oldId, newId)
    ensures newField == FieldFor(after) <==> after != 0 && (field != 0 || Agree(oldId, newId))
  {
    if field != 0 {
      UpdateEqualsRecomputation(before, oldId, newId);
    } else if after > 0 {
      ZeroField(before, after, oldId, newId);
    }
  }

  /** ICMP echo: the field stays right exactly when the new identifier or some other word of the
      message is non-zero, and the field was non-zero or the two identifiers agree modulo 65535. */
  lemma EchoStaysFresh(f: seq<Byte>, r: seq<Byte>, addrOff: nat, l4: nat, end: nat, addr: Addr, id: Word, ipCheck: Word)
    requires Layout(f, addrOff, l4 + 4, l4 + 2, l4, end) && l4 + 8 <= |f|
    requires Rewritten(f, r, addrOff, l4 + 4, l4 + 2, addr, id, ipCheck, EchoField(f, l4, id))
    requires Fresh(f, l4, end, l4 + 2, 0)
    ensures Fresh(r, l4, end, l4 + 2, 0)
       <==> && (id != 0 || SumWords(Put16(Put16(f, l4 + 2, 0), l4 + 4, 0), l4, end) != 0)
            && (Get16(f, l4 + 2) != 0 || Agree(Get16(f, l4 + 4), id))
  {
    var field := EchoField(f, l4, id);
    var before := SumWords(Put16(f, l4 + 2, 0), l4, end);
    var after := SumWords(Put16(r, l4 + 2, 0), l4, end);
    SegmentSumAfter(f, r, addrOff, l4 + 4, l4 + 2, l4, end, addr, id, ipCheck, field);
    PutKeeps(f, l4 + 2, 0, l4 + 4);
    SumAfterPut16(Put16(f, l4 + 2, 0), l4, end, l4 + 4, 0);
    EchoFieldAfter(before, after, Get16(f, l4 + 2), field, Get16(f, l4 + 4), id);
  }
}
