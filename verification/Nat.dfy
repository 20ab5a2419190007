/** The NAT engine one packet at a time: what each packet, tick and WAN address change does to the
    two session tables and to the frame. */
module Nat {
  import opened Bytes
  import opened Frames
  import Flows = FlowTable
  import Echoes = EchoTable

  /** The two flow hashes; nothing below depends on what they are. */
  datatype Hashes = Hashes(flow: Flows.FlowKey -> nat, echo: Echoes.EchoKey -> nat)

  datatype Engine = Engine(flows: Flows.Table, echoes: Echoes.Table, wan: Addr, tick: Flows.Tick)

  datatype Result = Result(engine: Engine, frame: seq<Byte>, ok: bool)

  predicate Shaped(e: Engine) { Flows.Shaped(e.flows) && Echoes.Shaped(e.echoes) }

  function Initial(): (e: Engine)
    ensures Shaped(e)
  {
    Engine(Flows.Empty(), Echoes.Empty(), 0, 0)
  }

  predicate IsPortFrame(f: seq<Byte>) { Parse(f).hasL4 && f[PROTOCOL] in {TCP, UDP} }

  /** An unfragmented ICMP message of the given type, with code 0. */
  predicate IsEchoFrame(f: seq<Byte>, kind: Byte) {
    && Parse(f).hasL4 && f[PROTOCOL] == ICMP && Get16(f, FRAG) % 0x4000 == 0
    && f[Parse(f).l4] == kind && f[Parse(f).l4 + 1] == 0
  }

  function FlowKeyOf(f: seq<Byte>): Flows.FlowKey
    requires IsPortFrame(f)
  {
    var l4 := Parse(f).l4;
    Flows.FlowKey(Get32(f, SADDR), Get32(f, DADDR), Get16(f, l4), Get16(f, l4 + 2))
  }

  function EchoKeyOf(f: seq<Byte>): Echoes.EchoKey
    requires IsEchoFrame(f, 8)
  {
    Echoes.EchoKey(Get32(f, SADDR), Get32(f, DADDR), Get16(f, Parse(f).l4 + 4))
  }

  /** The table side of an outbound frame: the engine after it, and the external port or identifier
      it is given, or 0. */
  function Assign(e: Engine, f: seq<Byte>, hs: Hashes): (r: (Engine, Word))
    requires Shaped(e)
    ensures Shaped(r.0)
    ensures r.1 != 0 ==> IsEchoFrame(f, 8) || IsPortFrame(f)
  {
    if e.wan == 0 then (e, 0)
    else if IsEchoFrame(f, 8) then
      var (t, id) := Echoes.Outbound(e.echoes, EchoKeyOf(f), hs.echo(EchoKeyOf(f)), e.tick);
      (e.(echoes := t), id)
    else if IsPortFrame(f) then
      var (t, port) := Flows.Outbound(e.flows, FlowKeyOf(f), hs.flow(FlowKeyOf(f)), e.tick);
      (e.(flows := t), port)
    else (e, 0)
  }

  /** A frame from the inside network. */
  function Outbound(e: Engine, f: seq<Byte>, hs: Hashes): (r: Result)
    requires Shaped(e)
    ensures Shaped(r.engine) && |r.frame| == |f|
  {
    var (e', ext) := Assign(e, f, hs);
    if ext == 0 then Result(e', f, false)
    else if IsEchoFrame(f, 8) then Result(e', RewriteEcho(f, SADDR, Parse(f).l4, e.wan, ext), true)
    else Result(e', RewritePort(f, SADDR, Parse(f).l4, PortCheck(f), e.wan, ext), true)
  }

  /** The table side of an inbound frame: the engine after it, and the slot that admits it, or -1. */
  function Admit(e: Engine, f: seq<Byte>): (r: (Engine, int))
    requires Shaped(e)
    ensures Shaped(r.0)
    ensures r.1 < 0 ==> r.0 == e
    ensures r.1 >= 0 ==> (IsEchoFrame(f, 0) && r.1 < Echoes.MAX_ICMP_SESSIONS)
                         || (IsPortFrame(f) && r.1 < Flows.MAX_SESSIONS)
  {
    var l4 := Parse(f).l4;
    if IsEchoFrame(f, 0) && Get32(f, DADDR) == e.wan then
      var (t, i) := Echoes.Inbound(e.echoes, Get32(f, SADDR), Get16(f, l4 + 4), e.tick);
      (e.(echoes := t), i)
    else if IsPortFrame(f) && Get32(f, DADDR) == e.wan then
      var (t, i) := Flows.Inbound(e.flows, Get32(f, SADDR), Get16(f, l4), Get16(f, l4 + 2), e.tick);
      (e.(flows := t), i)
    else (e, -1)
  }

  /** A frame that may be a reply. */
  function Inbound(e: Engine, f: seq<Byte>): (r: Result)
    requires Shaped(e)
    ensures Shaped(r.engine) && |r.frame| == |f|
  {
    var (e', i) := Admit(e, f);
    var l4 := Parse(f).l4;
    if i < 0 then Result(e, f, false)
    else if IsEchoFrame(f, 0) then
      var key := e.echoes.sessions[i].key;
      Result(e', RewriteEcho(f, DADDR, l4, key.saddr, key.id), true)
    else
      var key := e.flows.sessions[i].key;
      Result(e', RewritePort(f, DADDR, l4 + 2, PortCheck(f), key.saddr, key.sport), true)
  }

  datatype Event = Out(f: seq<Byte>) | In(f: seq<Byte>) | Tick | SetWan(a: Addr)

  function Step(e: Engine, ev: Event, hs: Hashes): (r: Engine)
    requires Shaped(e)
    ensures Shaped(r)
  {
    match ev
    case Out(f) => Assign(e, f, hs).0
    case In(f) => Admit(e, f).0
    case Tick => e.(tick := (e.tick + 1) % Flows.TICK_WRAP)
    case SetWan(a) => e.(wan := a)
  }

  function Run(e: Engine, evs: seq<Event>, hs: Hashes): (r: Engine)
    requires Shaped(e)
    ensures Shaped(r)
  {
    if evs == [] then e
    else Step(Run(e, evs[..|evs| - 1], hs), evs[|evs| - 1], hs)
  }
}
