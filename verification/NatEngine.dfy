/** The NAT engine as the program keeps it: tables in arrays, cursors and addresses in fields, and
    frames rewritten in place. Every method is proved to do what module Nat says. */
module NatEngine {
  import opened Bytes
  import opened Checksum
  import opened Frames
  import Flows = FlowTable
  import Echoes = EchoTable
  import Nat

  method Store16(a: array<Byte>, off: nat, w: Word)
    requires off + 2 <= a.Length
    modifies a
    ensures a[..] == Put16(old(a[..]), off, w)
  {
    a[off] := w / 256;
    a[off + 1] := w % 256;
  }

  method Store32(a: array<Byte>, off: nat, v: Addr)
    requires off + 4 <= a.Length
    modifies a
    ensures a[..] == Put32(old(a[..]), off, v)
  {
    Store16(a, off, High(v));
    Store16(a, off + 2, Low(v));
  }

  method RewritePortInPlace(a: array<Byte>, addrOff: nat, portOff: nat, check: nat, addr: Addr, port: Word)
    requires a.Length >= 34 && addrOff in {SADDR, DADDR} && portOff + 2 <= a.Length && check + 2 <= a.Length
    modifies a
    ensures a[..] == RewritePort(old(a[..]), addrOff, portOff, check, addr, port)
  {
    Store16(a, IP_CHECK, UpdateChecksum32(Get16(a[..], IP_CHECK), Get32(a[..], addrOff), addr));
    ghost var f1 := a[..];
    if Get16(a[..], check) != 0 {
      Store16(a, check, UpdateChecksum32(Get16(a[..], check), Get32(a[..], addrOff), addr));
      Store16(a, check, UpdateChecksum16(Get16(a[..], check), Get16(a[..], portOff), port));
    }
    assert a[..] == PortCheckAfter(f1, addrOff, portOff, check, addr, port);
    Store32(a, addrOff, addr);
    Store16(a, portOff, port);
  }

  method RewriteEchoInPlace(a: array<Byte>, addrOff: nat, l4: nat, addr: Addr, id: Word)
    requires a.Length >= 34 && addrOff in {SADDR, DADDR} && l4 + 8 <= a.Length
    modifies a
    ensures a[..] == RewriteEcho(old(a[..]), addrOff, l4, addr, id)
  {
    var oldId := Get16(a[..], l4 + 4);
    Store16(a, IP_CHECK, UpdateChecksum32(Get16(a[..], IP_CHECK), Get32(a[..], addrOff), addr));
    if Get16(a[..], l4 + 2) != 0 {
      Store16(a, l4 + 2, UpdateChecksum16(Get16(a[..], l4 + 2), oldId, id));
    }
    Store32(a, addrOff, addr);
    Store16(a, l4 + 4, id);
  }

  class NatEngine {
    const sessions: array<Flows.Session>
    const portToIndex: array<int>
    const icmpSessions: array<Echoes.Echo>
    const icmpIdToIndex: array<int>
    var portCursor: nat
    var icmpIdCursor: nat
    var wanIp: Addr
    var currentTick: Flows.Tick
    const hashes: Nat.Hashes

    ghost predicate Valid()
      reads this
    {
      && sessions.Length == Flows.MAX_SESSIONS && portToIndex.Length == 0x1_0000
      && icmpSessions.Length == Echoes.MAX_ICMP_SESSIONS && icmpIdToIndex.Length == 0x1_0000
      && portToIndex != icmpIdToIndex
      && sessions as object != portToIndex && sessions as object != icmpIdToIndex
      && icmpSessions as object != portToIndex && icmpSessions as object != icmpIdToIndex
      && sessions as object != icmpSessions
      && Flows.FIRST_PORT <= portCursor <= Flows.LAST_PORT
      && Flows.FIRST_PORT <= icmpIdCursor <= Flows.LAST_PORT
    }

    ghost predicate Apart(frame: array<Byte>) {
      && frame as object != sessions && frame as object != portToIndex
      && frame as object != icmpSessions && frame as object != icmpIdToIndex
    }

    ghost function FlowModel(): (t: Flows.Table)
      requires Valid()
      reads this, sessions, portToIndex
      ensures Flows.Shaped(t)
    {
      Flows.Table(sessions[..], portToIndex[..], portCursor)
    }

    ghost function EchoModel(): (t: Echoes.Table)
      requires Valid()
      reads this, icmpSessions, icmpIdToIndex
      ensures Echoes.Shaped(t)
    {
      Echoes.Table(icmpSessions[..], icmpIdToIndex[..], icmpIdCursor)
    }

    ghost function Model(): (e: Nat.Engine)
      requires Valid()
      reads this, sessions, portToIndex, icmpSessions, icmpIdToIndex
      ensures Nat.Shaped(e)
    {
      Nat.Engine(FlowModel(), EchoModel(), wanIp, currentTick)
    }

    constructor (hashes: Nat.Hashes)
      ensures Valid() && Model() == Nat.Initial() && this.hashes == hashes
      ensures fresh(sessions) && fresh(portToIndex) && fresh(icmpSessions) && fresh(icmpIdToIndex)
    {
      this.hashes := hashes;
      sessions := new Flows.Session[Flows.MAX_SESSIONS](_ => Flows.Session(Flows.FlowKey(0, 0, 0, 0), 0, 0, false));
      icmpSessions := new Echoes.Echo[Echoes.MAX_ICMP_SESSIONS](_ => Echoes.Echo(Echoes.EchoKey(0, 0, 0), 0, 0, false));
      portToIndex := new int[0x1_0000](_ => -1);
      icmpIdToIndex := new int[0x1_0000](_ => -1);
      portCursor, icmpIdCursor, wanIp, currentTick := Flows.FIRST_PORT, 25000, 0, 0;
      new;
      assert FlowModel() == Flows.Empty();
      assert EchoModel() == Echoes.Empty();
    }

    method SetWanIp(ip: Addr)
      requires Valid()
      modifies this`wanIp
      ensures Valid() && Model() == old(Model()).(wan := ip)
    {
      wanIp := ip;
    }

    method Tick()
      requires Valid()
      modifies this`currentTick
      ensures Valid() && Model() == Nat.Step(old(Model()), Nat.Tick, hashes)
    {
      currentTick := (currentTick + 1) % Flows.TICK_WRAP;
    }

    /** Slot i, unused or expired, is given to `key` and to the next port. */
    method InstallFlow(i: nat, key: Flows.FlowKey) returns (port: Word)
      requires Valid() && i < Flows.MAX_SESSIONS
      modifies this`portCursor, sessions, portToIndex
      ensures Valid() && port == old(portCursor)
      ensures FlowModel() == Flows.Install(old(FlowModel()), i, key, currentTick)
    {
      var s := sessions[i];
      ghost var t := FlowModel();
      if s.active && portToIndex[s.ext] == i {
        portToIndex[s.ext] := -1;
      }
      assert portToIndex[..] == Flows.Released(t, i);
      port := portCursor;
      portCursor := portCursor + 1;
      if portCursor > Flows.LAST_PORT {
        portCursor := Flows.FIRST_PORT;
      }
      sessions[i] := Flows.Session(key, port, currentTick, true);
      portToIndex[port] := i;
    }

    method TouchFlow(i: nat)
      requires Valid() && i < Flows.MAX_SESSIONS
      modifies sessions
      ensures FlowModel() == Flows.Touch(old(FlowModel()), i, currentTick)
    {
      sessions[i] := sessions[i].(last := currentTick);
    }

    /** The probe loop: where an outbound packet finds its session, or room for one. */
    method ProbeFlows(key: Flows.FlowKey) returns (found: Flows.Found)
      requires Valid()
      ensures found == Flows.Probe(FlowModel(), key, hashes.flow(key), currentTick, 0)
    {
      var h := hashes.flow(key);
      ghost var t := FlowModel();
      for n := 0 to Flows.PROBES
        invariant Flows.Probe(t, key, h, currentTick, 0) == Flows.Probe(t, key, h, currentTick, n)
      {
        var i := (h + n) % Flows.MAX_SESSIONS;
        if !sessions[i].active || Flows.Age(currentTick, sessions[i].last) > Flows.MAX_IDLE {
          return Flows.Take(i);
        }
        if sessions[i].key == key {
          return Flows.Hit(i);
        }
      }
      found := Flows.Full;
    }

    /** The TCP/UDP session lookup or install of an outbound packet. */
    method OutboundPort(key: Flows.FlowKey) returns (port: Word)
      requires Valid()
      modifies this`portCursor, sessions, portToIndex
      ensures Valid()
      ensures (FlowModel(), port) == Flows.Outbound(old(FlowModel()), key, hashes.flow(key), currentTick)
    {
      var found := ProbeFlows(key);
      match found
      case Take(i) => port := InstallFlow(i, key);
      case Hit(i) =>
        port := sessions[i].ext;
        TouchFlow(i);
      case Full => port := 0;
    }

    /** The identifier allocator: 512 attempts from the cursor. */
    method AllocExternalIcmpId() returns (id: Word)
      requires Valid()
      modifies this`icmpIdCursor, icmpIdToIndex
      ensures Valid()
      ensures (id, EchoModel()) == Echoes.Allocate(old(EchoModel()), 0)
    {
      ghost var t := EchoModel();
      for n := 0 to Echoes.ATTEMPTS
        invariant Valid() && EchoModel() == t.(cursor := icmpIdCursor)
        invariant Echoes.Allocate(t, 0) == Echoes.Allocate(EchoModel(), n)
      {
        var host := icmpIdCursor;
        icmpIdCursor := icmpIdCursor + 1;
        if icmpIdCursor > Flows.LAST_PORT {
          icmpIdCursor := Flows.FIRST_PORT;
        }
        var i := icmpIdToIndex[host];
        if i < 0 {
          return host;
        }
        if i < Echoes.MAX_ICMP_SESSIONS && !icmpSessions[i].active {
          icmpIdToIndex[host] := -1;
          return host;
        }
      }
      id := 0;
    }

    /** Slot i, unused or expired, is given to `key` if an identifier can be had. */
    method ReplaceEcho(i: nat, key: Echoes.EchoKey) returns (id: Word)
      requires Valid() && i < Echoes.MAX_ICMP_SESSIONS
      modifies this`icmpIdCursor, icmpSessions, icmpIdToIndex
      ensures Valid()
      ensures (EchoModel(), id) == Echoes.Replace(old(EchoModel()), i, key, currentTick)
    {
      var s := icmpSessions[i];
      ghost var t := EchoModel();
      if s.active {
        if icmpIdToIndex[s.ext] == i {
          icmpIdToIndex[s.ext] := -1;
        }
        icmpSessions[i] := s.(active := false);
      }
      assert EchoModel() == Echoes.Release(t, i);
      id := AllocExternalIcmpId();
      if id != 0 {
        icmpSessions[i] := Echoes.Echo(key, id, currentTick, true);
        icmpIdToIndex[id] := i;
      }
    }

    method TouchEcho(i: nat)
      requires Valid() && i < Echoes.MAX_ICMP_SESSIONS
      modifies icmpSessions
      ensures EchoModel() == Echoes.Touch(old(EchoModel()), i, currentTick)
    {
      icmpSessions[i] := icmpSessions[i].(last := currentTick);
    }

    /** The probe loop of the echo table. */
    method ProbeEchoes(key: Echoes.EchoKey) returns (found: Flows.Found)
      requires Valid()
      ensures found == Echoes.Probe(EchoModel(), key, hashes.echo(key), currentTick, 0)
    {
      var h := hashes.echo(key);
      ghost var t := EchoModel();
      for n := 0 to Echoes.PROBES
        invariant Echoes.Probe(t, key, h, currentTick, 0) == Echoes.Probe(t, key, h, currentTick, n)
      {
        var i := (h + n) % Echoes.MAX_ICMP_SESSIONS;
        if !icmpSessions[i].active || Flows.Age(currentTick, icmpSessions[i].last) > Flows.MAX_IDLE {
          return Flows.Take(i);
        }
        if icmpSessions[i].key == key {
          return Flows.Hit(i);
        }
      }
      found := Flows.Full;
    }

    /** The echo session lookup or install of an outbound request. */
    method OutboundId(key: Echoes.EchoKey) returns (id: Word)
      requires Valid()
      modifies this`icmpIdCursor, icmpSessions, icmpIdToIndex
      ensures Valid()
      ensures (EchoModel(), id) == Echoes.Outbound(old(EchoModel()), key, hashes.echo(key), currentTick)
    {
      var found := ProbeEchoes(key);
      match found
      case Take(i) => id := ReplaceEcho(i, key);
      case Hit(i) =>
        id := icmpSessions[i].ext;
        TouchEcho(i);
      case Full => id := 0;
    }

    method ProcessOutbound(frame: array<Byte>) returns (ok: bool)
      requires Valid() && Apart(frame)
      modifies this`portCursor, this`icmpIdCursor, sessions, portToIndex, icmpSessions, icmpIdToIndex, frame
      ensures Valid()
      ensures Nat.Result(Model(), frame[..], ok) == Nat.Outbound(old(Model()), old(frame[..]), hashes)
    {
      var f := frame[..];
      var p := Parse(f);
      if !p.ipv4 || wanIp == 0 {
        return false;
      }
      if f[PROTOCOL] == ICMP {
        ok := ProcessOutboundIcmp(frame);
        return;
      }
      if f[PROTOCOL] !in {TCP, UDP} || !p.hasL4 {
        return false;
      }
      var port := OutboundPort(Nat.FlowKeyOf(f));
      if port == 0 {
        return false;
      }
      RewritePortInPlace(frame, SADDR, p.l4, PortCheck(f), wanIp, port);
      ok := true;
    }

    method ProcessOutboundIcmp(frame: array<Byte>) returns (ok: bool)
      requires Valid() && Apart(frame)
      requires Parse(frame[..]).ipv4 && frame[PROTOCOL] == ICMP
      modifies this`icmpIdCursor, icmpSessions, icmpIdToIndex, frame
      ensures Valid()
      ensures Nat.Result(Model(), frame[..], ok) == Nat.Outbound(old(Model()), old(frame[..]), hashes)
    {
      var f := frame[..];
      var l4 := Parse(f).l4;
      if wanIp == 0 || !Parse(f).hasL4 || Get16(f, FRAG) % 0x4000 != 0 || f[l4] != 8 || f[l4 + 1] != 0 {
        return false;
      }
      var id := OutboundId(Nat.EchoKeyOf(f));
      if id == 0 {
        return false;
      }
      RewriteEchoInPlace(frame, SADDR, l4, wanIp, id);
      ok := true;
    }

    /** The session that admits a packet from src:sport to an external port, or -1. */
    method AdmitFlow(src: Addr, sport: Word, dport: Word) returns (i: int)
      requires Valid()
      ensures i == Flows.Admits(FlowModel(), src, sport, dport)
    {
      i := portToIndex[dport];
      if i < 0 || i >= Flows.MAX_SESSIONS {
        return -1;
      }
      var s := sessions[i];
      if !s.active || s.key.daddr != src || s.key.dport != sport || s.ext != dport {
        return -1;
      }
    }

    method ProcessInbound(frame: array<Byte>) returns (ok: bool)
      requires Valid() && Apart(frame)
      modifies sessions, icmpSessions, frame
      ensures Valid()
      ensures Nat.Result(Model(), frame[..], ok) == Nat.Inbound(old(Model()), old(frame[..]))
    {
      var f := frame[..];
      var p := Parse(f);
      if !p.ipv4 {
        return false;
      }
      if f[PROTOCOL] == ICMP {
        ok := ProcessInboundIcmp(frame);
        return;
      }
      if f[PROTOCOL] !in {TCP, UDP} || Get32(f, DADDR) != wanIp || !p.hasL4 {
        return false;
      }
      ok := ProcessInboundPorts(frame);
    }

    /** The rest of process_inbound: a TCP or UDP frame to the WAN address. */
    method ProcessInboundPorts(frame: array<Byte>) returns (ok: bool)
      requires Valid() && Apart(frame) && Nat.IsPortFrame(frame[..]) && Get32(frame[..], DADDR) == wanIp
      modifies sessions, frame
      ensures Valid()
      ensures Nat.Result(Model(), frame[..], ok) == Nat.Inbound(old(Model()), old(frame[..]))
    {
      var f := frame[..];
      var p := Parse(f);
      var i := AdmitFlow(Get32(f, SADDR), Get16(f, p.l4), Get16(f, p.l4 + 2));
      if i < 0 {
        return false;
      }
      var key := sessions[i].key;
      TouchFlow(i);
      RewritePortInPlace(frame, DADDR, p.l4 + 2, PortCheck(f), key.saddr, key.sport);
      ok := true;
    }

    method ProcessInboundIcmp(frame: array<Byte>) returns (ok: bool)
      requires Valid() && Apart(frame)
      requires Parse(frame[..]).ipv4 && frame[PROTOCOL] == ICMP
      modifies icmpSessions, frame
      ensures Valid()
      ensures Nat.Result(Model(), frame[..], ok) == Nat.Inbound(old(Model()), old(frame[..]))
    {
      var f := frame[..];
      var l4 := Parse(f).l4;
      if Get32(f, DADDR) != wanIp || !Parse(f).hasL4 || Get16(f, FRAG) % 0x4000 != 0 || f[l4] != 0 || f[l4 + 1] != 0 {
        return false;
      }
      var ext := Get16(f, l4 + 4);
      var i := icmpIdToIndex[ext];
      if i < 0 || i >= Echoes.MAX_ICMP_SESSIONS {
        return false;
      }
      var s := icmpSessions[i];
      if !s.active || s.key.daddr != Get32(f, SADDR) || s.ext != ext {
        return false;
      }
      RewriteEchoInPlace(frame, DADDR, l4, s.key.saddr, s.key.id);
      TouchEcho(i);
      ok := true;
    }
  }
}
