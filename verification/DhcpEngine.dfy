/** The DHCP server: the lease table in an array, a request taken from a frame, and the header of the
    reply. Every method is proved to do what module DhcpLeases says. */
module DhcpEngine {
  import opened Bytes
  import opened Checksum
  import Frames
  import opened DhcpOptions
  import opened DhcpLeases

  const HEADER_SIZE: nat := 240
  const COOKIE: Addr := 0x6382_5363

  // ----- A request as it arrives -----

  /** A boot request to the server port with the DHCP cookie, whose fixed header is complete. */
  predicate IsRequest(f: seq<Byte>) {
    var p := Frames.Parse(f);
    var dhcp := p.l4 + 8;
    && p.hasL4 && p.proto == Frames.UDP && Get16(f, p.l4 + 2) == 67
    && |f| >= dhcp + HEADER_SIZE && f[dhcp] == 1 && Get32(f, dhcp + 236) == COOKIE
  }

  /** What the option scan of a request finds. */
  function OptionsOf(f: seq<Byte>, past: Byte): Found
    requires IsRequest(f)
  {
    Scan(f[Frames.Parse(f).l4 + 8 + HEADER_SIZE..], past, NOTHING)
  }

  /** The event a frame stands for, if it asks for anything; now and later are the server's clock. */
  function EventOf(f: seq<Byte>, found: Found, now: int, later: int): seq<Event>
    requires IsRequest(f)
  {
    var dhcp := Frames.Parse(f).l4 + 8;
    var mac := f[dhcp + 28..dhcp + 34];
    if found.msgType == 1 then [Discover(mac, now)]
    else if found.msgType == 3 then [Request(mac, found.requested, Get32(f, dhcp + 12), now, later)]
    else []
  }

  /** The table and the reply after a frame. */
  function Handle(t: Table, f: seq<Byte>, past: Byte, now: int, later: int): (r: (Table, Reply))
    requires Shaped(t)
    ensures Shaped(r.0)
  {
    if IsRequest(f) then Respond(t, EventOf(f, OptionsOf(f, past), now, later)) else (t, Silent)
  }

  function Respond(t: Table, evs: seq<Event>): (r: (Table, Reply))
    requires Shaped(t)
    ensures Shaped(r.0)
  {
    if evs == [] then (t, Silent) else Step(t, evs[0])
  }

  // ----- The same, on bytes -----

  /** The BOOTP message of an IPv4 frame without regard to its length: behind the UDP header. */
  function MessageAt(f: seq<Byte>): nat
    requires |f| >= 34
  {
    14 + 4 * (f[14] % 16) + 8
  }

  /** A UDP frame to port 67 with a boot request, op 1, whose fixed part is complete and ends with the DHCP
      cookie (section 3 of RFC 2131). */
  predicate ToServer(f: seq<Byte>) {
    && |f| >= 34 && f[12] == 8 && f[13] == 0 && f[23] == 17
    && var m := MessageAt(f);
    && |f| >= m + 240 && f[m - 6] == 0 && f[m - 5] == 67 && f[m] == 1
    && f[m + 236] == 0x63 && f[m + 237] == 0x82 && f[m + 238] == 0x53 && f[m + 239] == 0x63
  }

  lemma IsRequestIff(f: seq<Byte>)
    ensures IsRequest(f) <==> ToServer(f)
    ensures ToServer(f) ==> Frames.Parse(f).l4 + 8 == MessageAt(f)
  {
    if |f| >= 34 {
      BigEndian(f, 12);
      var m := MessageAt(f);
      if |f| >= m + 240 {
        BigEndian(f, m - 6);
        BigEndian(f, m + 236);
        CookieBytes(f[m + 236], f[m + 237], f[m + 238], f[m + 239]);
      }
    }
  }

  lemma CookieBytes(a: Byte, b: Byte, c: Byte, d: Byte)
    ensures 0x100_0000 * a as nat + 0x1_0000 * b as nat + 256 * c as nat + d == 0x6382_5363
       <==> a == 0x63 && b == 0x82 && c == 0x53 && d == 0x63
  {
  }

  /** The client's hardware address, and the address it names as its own. */
  function ClientOf(f: seq<Byte>): Mac
    requires ToServer(f)
  {
    f[MessageAt(f) + 28..MessageAt(f) + 34]
  }

  function OwnAddress(f: seq<Byte>): Addr
    requires ToServer(f)
  {
    Get32(f, MessageAt(f) + 12)
  }

  /** A message whose options are `opts`, up to an end option, the end of the frame or a cut: a DISCOVER is
      answered by an offer of what the client has or is given, or not at all; a REQUEST by an ACK or a NAK of
      the address it asks for, in option 50 or else as its own; anything else changes nothing. */
  lemma HandlesMessage(t: Table, f: seq<Byte>, opts: seq<Option>, tail: seq<Byte>, past: Byte, now: int, later: int)
    requires Shaped(t) && ToServer(f) && AllWellFormed(opts) && Stops(tail)
    requires f[MessageAt(f) + 240..] == Encode(opts) + tail
    ensures var (u, ip) := FindOrAssign(t, ClientOf(f), now);
            var asked := if LastRequested(opts) == 0 then OwnAddress(f) else LastRequested(opts);
            Handle(t, f, past, now, later)
            == if LastType(opts) == 1 then (u, if ip == 0 then Silent else Offer(ip))
               else if LastType(opts) != 3 then (t, Silent)
               else if ip == asked then (Commit(u, ip, later), Ack(asked)) else (u, Nak(asked))
  {
    var found := Found(LastType(opts), LastRequested(opts));
    IsRequestIff(f);
    assert OptionsOf(f, past) == found by {
      ScanInvertsEncode(opts, tail, past);
    }
    EventIs(f, found, now, later);
  }

  lemma EventIs(f: seq<Byte>, found: Found, now: int, later: int)
    requires ToServer(f) && IsRequest(f)
    ensures EventOf(f, found, now, later)
         == if found.msgType == 1 then [Discover(ClientOf(f), now)]
            else if found.msgType == 3 then [Request(ClientOf(f), found.requested, OwnAddress(f), now, later)]
            else []
  {
    IsRequestIff(f);
  }

  /** Every frame for the server has such options; every other frame is ignored. */
  lemma EveryFrameHandled(t: Table, f: seq<Byte>, past: Byte, now: int, later: int)
      returns (opts: seq<Option>, tail: seq<Byte>)
    requires Shaped(t)
    ensures ToServer(f) ==> AllWellFormed(opts) && Stops(tail) && f[MessageAt(f) + 240..] == Encode(opts) + tail
    ensures !ToServer(f) ==> Handle(t, f, past, now, later) == (t, Silent)
  {
    IsRequestIff(f);
    opts, tail := [], [];
    if ToServer(f) {
      opts, tail := EveryMessageParses(f[MessageAt(f) + 240..]);
    }
  }

  class DhcpEngine {
    const leases: array<Lease>
    var poolCount: nat
    var leaseDuration: int

    ghost predicate Valid()
      reads this
    {
      leases.Length == MAX_POOL_SIZE && poolCount <= MAX_POOL_SIZE
    }

    ghost function Model(): (t: Table)
      requires Valid()
      reads this, leases
      ensures Shaped(t)
    {
      Table(leases[..], poolCount, leaseDuration)
    }

    constructor (start: Addr, end: Addr, duration: int)
      ensures Valid() && fresh(leases) && Inv(Model())
      ensures start <= end ==> Consecutive(Model(), start) && poolCount > 0
    {
      leases := new Lease[MAX_POOL_SIZE](_ => Lease([0, 0, 0, 0, 0, 0], 0, false, 0));
      poolCount, leaseDuration := 0, duration;
      new;
      assert Consecutive(Model(), 0);
      PoolWithinRange(Model(), start, end, duration);
      var _ := InitPoolRange(start, end);
    }

    /** init_pool */
    method InitPoolRange(start: Addr, end: Addr) returns (ok: bool)
      requires Valid()
      modifies this`poolCount, leases
      ensures Valid() && (Model(), ok) == InitPool(old(Model()), start, end)
    {
      if end < start {
        return false;
      }
      var span := end - start + 1;
      poolCount := if span < MAX_POOL_SIZE then span else MAX_POOL_SIZE;
      for i := 0 to poolCount
        invariant poolCount == if span < MAX_POOL_SIZE then span else MAX_POOL_SIZE
        invariant forall k | 0 <= k < i :: leases[k] == old(leases[..])[k].(ip := start + k, active := false)
        invariant forall k | i <= k < MAX_POOL_SIZE :: leases[k] == old(leases[..])[k]
      {
        leases[i] := leases[i].(ip := start + i, active := false);
      }
      assert leases[..] == InitPool(old(Model()), start, end).0.leases;
      ok := true;
    }

    method ReconfigurePool(start: Addr, end: Addr, duration: int) returns (ok: bool)
      requires Valid()
      modifies this, leases
      ensures Valid() && (Model(), ok) == Reconfigure(old(Model()), start, end, duration)
    {
      leaseDuration := duration;
      ok := InitPoolRange(start, end);
    }

    method FindOrAssignLease(mac: Mac, now: int) returns (ip: Addr)
      requires Valid()
      modifies leases
      ensures Valid() && (Model(), ip) == FindOrAssign(old(Model()), mac, now)
    {
      ghost var t := Model();
      for i := 0 to poolCount
        invariant Model() == t && FirstOf(t, mac, 0) == FirstOf(t, mac, i)
      {
        if leases[i].active && leases[i].mac == mac {
          return leases[i].ip;
        }
      }
      for i := 0 to poolCount
        invariant Model() == t && FirstVacant(t, now, 0) == FirstVacant(t, now, i)
      {
        if !leases[i].active || now > leases[i].expiry {
          leases[i] := leases[i].(mac := mac, active := true, expiry := now + leaseDuration);
          return leases[i].ip;
        }
      }
      ip := 0;
    }

    method CommitLease(ip: Addr, now: int)
      requires Valid()
      modifies leases
      ensures Valid() && Model() == Commit(old(Model()), ip, now)
    {
      ghost var t := Model();
      for i := 0 to poolCount
        invariant Model() == t && FirstWith(t, ip, 0) == FirstWith(t, ip, i)
      {
        if leases[i].ip == ip {
          leases[i] := leases[i].(active := true, expiry := now + leaseDuration);
          return;
        }
      }
    }

    method OnDiscover(mac: Mac, now: int) returns (reply: Reply)
      requires Valid()
      modifies leases
      ensures Valid() && (Model(), reply) == Step(old(Model()), Discover(mac, now))
    {
      var ip := FindOrAssignLease(mac, now);
      reply := if ip != 0 then Offer(ip) else Silent;
    }

    method OnRequest(mac: Mac, requested: Addr, ciaddr: Addr, now: int, later: int) returns (reply: Reply)
      requires Valid()
      modifies leases
      ensures Valid() && (Model(), reply) == Step(old(Model()), Request(mac, requested, ciaddr, now, later))
    {
      var wanted := if requested == 0 then ciaddr else requested;
      var ip := FindOrAssignLease(mac, now);
      if ip == wanted {
        CommitLease(ip, later);
        reply := Ack(ip);
      } else {
        reply := Nak(wanted);
      }
    }

    /** handle_dhcp_request, for a frame in a buffer. */
    method HandleRequest(frame: array<Byte>, len: nat, beyond: Byte, now: int, later: int) returns (reply: Reply)
      requires Valid() && len <= frame.Length && frame as object != leases
      modifies leases
      ensures Valid()
      ensures forall past: Byte :: (Model(), reply) == Handle(old(Model()), frame[..len], past, now, later)
    {
      var f := frame[..len];
      if !IsRequest(f) {
        return Silent;
      }
      var dhcp := Frames.Parse(f).l4 + 8;
      var found := ScanOptions(frame, dhcp + HEADER_SIZE, len, beyond);
      assert frame[..][dhcp + HEADER_SIZE..len] == f[dhcp + HEADER_SIZE..];
      assert forall past: Byte :: found == OptionsOf(f, past);
      reply := Dispatch(f, found, now, later);
    }

    /** The message type decides. */
    method Dispatch(f: seq<Byte>, found: Found, now: int, later: int) returns (reply: Reply)
      requires Valid() && IsRequest(f)
      modifies leases
      ensures Valid()
      ensures (Model(), reply) == Respond(old(Model()), EventOf(f, found, now, later))
    {
      var dhcp := Frames.Parse(f).l4 + 8;
      var mac := f[dhcp + 28..dhcp + 34];
      if found.msgType == 1 {
        reply := OnDiscover(mac, now);
      } else if found.msgType == 3 {
        reply := OnRequest(mac, found.requested, Get32(f, dhcp + 12), now, later);
      } else {
        reply := Silent;
      }
    }
  }

  // ----- The IPv4 header of a reply -----

  const REPLY_LENGTH: Word := 306

  /** The header of every reply, with `check` in its checksum field. */
  function ReplyHeader(router: Addr, check: Word): (h: seq<Byte>)
    ensures |h| == 20
  {
    var blank: seq<Byte> := [0x45, 0, REPLY_LENGTH / 256, REPLY_LENGTH % 256, 0, 0, 0, 0, 64, 17,
                             0, 0, 0, 0, 0, 0, 255, 255, 255, 255];
    Put32(Put16(blank, 10, check), 12, router)
  }

  method HeaderSum(header: array<Byte>) returns (sum: nat)
    requires header.Length == 20
    ensures sum == SumWords(header[..], 0, 20)
  {
    sum := 0;
    for i := 0 to 10
      invariant sum + SumWords(header[..], 2 * i, 20) == SumWords(header[..], 0, 20)
    {
      sum := sum + header[2 * i] as nat * 256 + header[2 * i + 1];
    }
  }

  method FoldTwice(sum: nat) returns (check: Word)
    requires sum < 0x1_0000_0000
    ensures check == FieldFor(sum)
  {
    TwoStepIsFold(sum);
    var once := sum / 0x1_0000 + sum % 0x1_0000;
    var twice := once + once / 0x1_0000;
    check := 0xFFFF - twice % 0x1_0000;
  }

  /** The sum and the two-step fold that fill in the checksum. */
  method ReplyCheck(header: array<Byte>) returns (check: Word)
    requires header.Length == 20
    ensures check == FieldFor(SumWords(header[..], 0, 20))
  {
    var sum := HeaderSum(header);
    SumBound(header[..], 0, 20);
    check := FoldTwice(sum);
  }

  /** Whatever the router's address, a receiver accepts the header of the reply. */
  lemma ReplyHeaderVerifies(router: Addr)
    ensures var check := FieldFor(SumWords(ReplyHeader(router, 0), 0, 20));
            Fold(SumWords(ReplyHeader(router, check), 0, 20)) == 0xFFFF
  {
    var blank, sum := ReplyHeader(router, 0), SumWords(ReplyHeader(router, 0), 0, 20);
    var check := FieldFor(sum);
    SumAfterPut16(blank, 0, 20, 10, check);
    assert Put16(blank, 10, check) == ReplyHeader(router, check);
    FieldVerifies(sum);
  }

  /** Behind an Ethernet header it is the header of an unfragmented UDP packet from the router to everyone, of
      306 bytes: itself, the UDP header, the fixed part of the message and 38 bytes of options. */
  lemma ReplyHeaderParses(router: Addr, check: Word, ethernet: seq<Byte>, payload: seq<Byte>)
    requires |ethernet| == 14 && ethernet[12] == 8 && ethernet[13] == 0 && |payload| == 8 + 240 + 38
    ensures var f := ethernet + ReplyHeader(router, check) + payload;
            && Frames.Parse(f) == Frames.Parsed(true, 17, 34, true) && Get16(f, 16) == |f| - 14
            && f[14] == 0x45 && f[15] == 0 && Get16(f, 18) == 0 && Get16(f, 20) == 0 && f[22] == 64
            && Get16(f, 24) == check && Get32(f, 26) == router && Get32(f, 30) == 0xFFFF_FFFF
  {
    var h := ReplyHeader(router, check);
    ReplyHeaderFields(router, check);
    FramedHeader(ethernet + h + payload, h, router, check);
  }

  /** The fields of the header, by their offsets in it. */
  ghost predicate HeaderFields(h: seq<Byte>, router: Addr, check: Word) {
    && |h| == 20 && h[0] == 0x45 && h[1] == 0 && Get16(h, 2) == 306 && Get16(h, 4) == 0 && Get16(h, 6) == 0
    && h[8] == 64 && h[9] == 17 && Get16(h, 10) == check
    && Get16(h, 12) == High(router) && Get16(h, 14) == Low(router) && Get16(h, 16) == 0xFFFF && Get16(h, 18) == 0xFFFF
  }

  lemma ReplyHeaderFields(router: Addr, check: Word)
    ensures HeaderFields(ReplyHeader(router, check), router, check)
  {
  }

  lemma FramedHeader(f: seq<Byte>, h: seq<Byte>, router: Addr, check: Word)
    requires |f| == 320 && HeaderFields(h, router, check) && f[12] == 8 && f[13] == 0
    requires forall k | 0 <= k < 20 :: f[14 + k] == h[k]
    ensures Frames.Parse(f) == Frames.Parsed(true, 17, 34, true) && Get16(f, 16) == 306
    ensures f[14] == 0x45 && f[15] == 0 && Get16(f, 18) == 0 && Get16(f, 20) == 0 && f[22] == 64
    ensures Get16(f, 24) == check && Get32(f, 26) == router && Get32(f, 30) == 0xFFFF_FFFF
  {
    BigEndian(f, 12);
    assert f[14 + 0] == h[0] && f[14 + 1] == h[1] && f[14 + 8] == h[8] && f[14 + 9] == h[9];
    HeaderWord(f, h, 2);
    HeaderWord(f, h, 4);
    HeaderWord(f, h, 6);
    HeaderWord(f, h, 10);
    HeaderWord(f, h, 12);
    HeaderWord(f, h, 14);
    HeaderWord(f, h, 16);
    HeaderWord(f, h, 18);
  }

  lemma HeaderWord(f: seq<Byte>, h: seq<Byte>, k: nat)
    requires |f| >= 34 && |h| == 20 && k + 2 <= 20 && forall i | 0 <= i < 20 :: f[14 + i] == h[i]
    ensures Get16(f, 14 + k) == Get16(h, k)
  {
    assert f[14 + k] == h[k] && f[14 + (k + 1)] == h[k + 1];
  }
}
