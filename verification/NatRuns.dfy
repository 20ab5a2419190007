/** What the NAT engine promises over whole runs: replies come back to the host that asked, and
    nothing else is let in. */
module NatRuns {
  import opened Bytes
  import opened Frames
  import opened Nat
  import Flows = FlowTable
  import Echoes = EchoTable

  /** An engine with the history of its TCP/UDP installs. */
  datatype History = History(e: Engine, births: seq<nat>, installs: nat)

  function FlowHist(h: History): Flows.Hist { Flows.Hist(h.e.flows, h.births, h.installs) }

  predicate ReachesFlows(e: Engine, f: seq<Byte>) { e.wan != 0 && IsPortFrame(f) }

  predicate ReachesEchoes(e: Engine, f: seq<Byte>) { e.wan != 0 && IsEchoFrame(f, 8) }

  function HStep(h: History, ev: Event, hs: Hashes): (r: History)
    requires Shaped(h.e) && |h.births| == Flows.MAX_SESSIONS
    ensures r.e == Step(h.e, ev, hs) && |r.births| == Flows.MAX_SESSIONS
  {
    var e := Step(h.e, ev, hs);
    if ev.Out? && ReachesFlows(h.e, ev.f) then
      var fh := Flows.HistOutbound(FlowHist(h), FlowKeyOf(ev.f), hs.flow(FlowKeyOf(ev.f)), h.e.tick);
      History(e, fh.births, fh.installs)
    else History(e, h.births, h.installs)
  }

  function HRun(h: History, evs: seq<Event>, hs: Hashes): (r: History)
    requires Shaped(h.e) && |h.births| == Flows.MAX_SESSIONS
    ensures r.e == Run(h.e, evs, hs) && |r.births| == Flows.MAX_SESSIONS
  {
    if evs == [] then h
    else HStep(HRun(h, evs[..|evs| - 1], hs), evs[|evs| - 1], hs)
  }

  function Start(): (h: History)
    ensures h.e == Initial() && |h.births| == Flows.MAX_SESSIONS
  {
    History(Initial(), seq(Flows.MAX_SESSIONS, _ => 0), 0)
  }

  ghost predicate Inv(h: History) { Flows.Inv(FlowHist(h)) && Echoes.Exact(h.e.echoes) }

  // ----- The tables stay exact in every reachable state -----

  lemma StepKeepsInv(h: History, ev: Event, hs: Hashes)
    requires Inv(h)
    ensures Inv(HStep(h, ev, hs))
  {
    match ev
    case Out(f) =>
      if ReachesEchoes(h.e, f) {
        Echoes.OutboundKeepsExact(h.e.echoes, EchoKeyOf(f), hs.echo(EchoKeyOf(f)), h.e.tick);
      } else if ReachesFlows(h.e, f) {
        Flows.OutboundKeepsInv(FlowHist(h), FlowKeyOf(f), hs.flow(FlowKeyOf(f)), h.e.tick);
      }
    case In(f) =>
      InboundKeepsInv(h, f);
    case Tick =>
    case SetWan(a) =>
  }

  lemma InboundKeepsInv(h: History, f: seq<Byte>)
    requires Inv(h)
    ensures Inv(h.(e := Admit(h.e, f).0))
  {
    var l4 := Parse(f).l4;
    if IsEchoFrame(f, 0) {
      var i := Echoes.Admits(h.e.echoes, Get32(f, SADDR), Get16(f, l4 + 4));
      if i >= 0 {
        Echoes.TouchKeepsExact(h.e.echoes, i, h.e.tick);
      }
    } else if IsPortFrame(f) {
      var i := Flows.Admits(h.e.flows, Get32(f, SADDR), Get16(f, l4), Get16(f, l4 + 2));
      if i >= 0 {
        Flows.TouchKeepsInv(FlowHist(h), i, h.e.tick);
      }
    }
  }

  /** In every state of every run the reverse maps are exact. */
  lemma {:induction false} RunKeepsInv(h: History, evs: seq<Event>, hs: Hashes)
    requires Inv(h)
    ensures Inv(HRun(h, evs, hs))
  {
    if evs != [] {
      RunKeepsInv(h, evs[..|evs| - 1], hs);
      StepKeepsInv(HRun(h, evs[..|evs| - 1], hs), evs[|evs| - 1], hs);
    }
  }

  lemma StartInv()
    ensures Inv(Start())
  {
    Flows.InitialInv();
    Echoes.EmptyIsExact();
  }

  // ----- Round trip for TCP and UDP -----

  /** Slot i holds the session of `key` with external port `ext`, from install number n. */
  ghost predicate HoldsFlow(h: History, i: nat, key: Flows.FlowKey, ext: Word, n: nat)
    requires Shaped(h.e) && |h.births| == Flows.MAX_SESSIONS && i < Flows.MAX_SESSIONS
  {
    var s := h.e.flows.sessions[i];
    s.active && s.key == key && s.ext == ext && h.births[i] == n
  }

  function FlowAge(e: Engine, i: nat): Flows.Tick
    requires Shaped(e) && i < Flows.MAX_SESSIONS
  {
    Flows.Age(e.tick, e.flows.sessions[i].last)
  }

  /** At no event of the run had more than 300 ticks passed since the last use of slot i. */
  ghost predicate FlowInUse(h: History, evs: seq<Event>, hs: Hashes, i: nat)
    requires Shaped(h.e) && |h.births| == Flows.MAX_SESSIONS && i < Flows.MAX_SESSIONS
  {
    evs != [] ==>
      var before := evs[..|evs| - 1];
      FlowInUse(h, before, hs, i) && FlowAge(HRun(h, before, hs).e, i) <= 300
  }

  /** No event takes a session in use out of its slot. */
  lemma StepKeepsFlow(h: History, ev: Event, hs: Hashes, i: nat, key: Flows.FlowKey, ext: Word, n: nat)
    requires Inv(h) && i < Flows.MAX_SESSIONS && HoldsFlow(h, i, key, ext, n)
    requires FlowAge(h.e, i) <= 300
    ensures HoldsFlow(HStep(h, ev, hs), i, key, ext, n)
  {
    if ev.Out? && ReachesFlows(h.e, ev.f) {
      var found := Flows.Probe(h.e.flows, FlowKeyOf(ev.f), hs.flow(FlowKeyOf(ev.f)), h.e.tick, 0);
    }
  }

  lemma {:induction false} RunKeepsFlow(h: History, evs: seq<Event>, hs: Hashes,
                                        i: nat, key: Flows.FlowKey, ext: Word, n: nat)
    requires Inv(h) && i < Flows.MAX_SESSIONS && HoldsFlow(h, i, key, ext, n)
    requires FlowInUse(h, evs, hs, i)
    ensures HoldsFlow(HRun(h, evs, hs), i, key, ext, n)
  {
    if evs != [] {
      var before := evs[..|evs| - 1];
      RunKeepsFlow(h, before, hs, i, key, ext, n);
      RunKeepsInv(h, before, hs);
      StepKeepsFlow(HRun(h, before, hs), evs[|evs| - 1], hs, i, key, ext, n);
    }
  }

  /** An outbound TCP or UDP frame that was translated, and where its session is. */
  lemma OutboundHolds(h: History, f: seq<Byte>, hs: Hashes) returns (i: nat, ext: Word)
    requires Inv(h) && Outbound(h.e, f, hs).ok && IsPortFrame(f)
    ensures i < Flows.MAX_SESSIONS
    ensures HoldsFlow(HStep(h, Out(f), hs), i, FlowKeyOf(f), ext, HStep(h, Out(f), hs).births[i])
    ensures FlowAge(HStep(h, Out(f), hs).e, i) == 0
    ensures FlowSlot(h.e, f, hs) == i
    ensures Outbound(h.e, f, hs).frame == RewritePort(f, SADDR, Parse(f).l4, PortCheck(f), h.e.wan, ext)
  {
    var key := FlowKeyOf(f);
    var found := Flows.Probe(h.e.flows, key, hs.flow(key), h.e.tick, 0);
    i := found.i;
    ext := Flows.Outbound(h.e.flows, key, hs.flow(key), h.e.tick).1;
  }

  /** The slot an outbound frame uses. */
  function FlowSlot(e: Engine, f: seq<Byte>, hs: Hashes): (i: nat)
    requires Shaped(e) && IsPortFrame(f)
    ensures i < Flows.MAX_SESSIONS
  {
    var found := Flows.Probe(e.flows, FlowKeyOf(f), hs.flow(FlowKeyOf(f)), e.tick, 0);
    if found.Full? then 0 else found.i
  }

  /** r answers the translated frame g of f: it comes from f's destination, to g's source. */
  predicate PortReply(r: seq<Byte>, f: seq<Byte>, g: seq<Byte>)
    requires IsPortFrame(f) && |g| == |f|
  {
    && IsPortFrame(r)
    && Get32(r, SADDR) == Get32(f, DADDR) && Get16(r, Parse(r).l4) == Get16(f, Parse(f).l4 + 2)
    && Get32(r, DADDR) == Get32(g, SADDR) && Get16(r, Parse(r).l4 + 2) == Get16(g, Parse(f).l4)
  }

  /** The reply r is translated back to the address and port that f came from. */
  ghost predicate PortReturns(back: Result, f: seq<Byte>, r: seq<Byte>) {
    && back.ok && |back.frame| == |r| && IsPortFrame(f) && IsPortFrame(r)
    && Get32(back.frame, DADDR) == Get32(f, SADDR)
    && Get16(back.frame, Parse(r).l4 + 2) == Get16(f, Parse(f).l4)
  }

  predicate FullHeader(f: seq<Byte>) { Parse(f).l4 >= 34 }

  /** The reverse map of the session's port still names its slot exactly while fewer than 50001
      installs have followed its own. */
  lemma PortOwnedIff(h: History, i: nat, key: Flows.FlowKey, ext: Word, n: nat)
    requires Inv(h) && i < Flows.MAX_SESSIONS && HoldsFlow(h, i, key, ext, n)
    ensures Flows.Admits(h.e.flows, key.daddr, key.dport, ext) == i <==> h.installs - n - 1 < 50001
  {
    assert Flows.SlotInv(FlowHist(h), i);
  }

  /** A reply admitted by slot i is rewritten to the inside end of its session. */
  lemma PortReplyRewritten(e: Engine, r: seq<Byte>, i: nat)
    requires Shaped(e) && IsPortFrame(r) && FullHeader(r) && Get32(r, DADDR) == e.wan
    requires Flows.Admits(e.flows, Get32(r, SADDR), Get16(r, Parse(r).l4), Get16(r, Parse(r).l4 + 2)) == i
    ensures Inbound(e, r).ok
    ensures Get32(Inbound(e, r).frame, DADDR) == e.flows.sessions[i].key.saddr
    ensures Get16(Inbound(e, r).frame, Parse(r).l4 + 2) == e.flows.sessions[i].key.sport
  {
    var key := e.flows.sessions[i].key;
    PortRewriteFields(r, DADDR, Parse(r).l4 + 2, PortCheck(r), key.saddr, key.sport);
  }

  /** The translated frame carries the WAN address and the external port of its session. */
  lemma OutboundFields(h: History, f: seq<Byte>, hs: Hashes) returns (i: nat, ext: Word)
    requires Inv(h) && IsPortFrame(f) && FullHeader(f) && Outbound(h.e, f, hs).ok
    ensures i == FlowSlot(h.e, f, hs) < Flows.MAX_SESSIONS
    ensures HoldsFlow(HStep(h, Out(f), hs), i, FlowKeyOf(f), ext, HStep(h, Out(f), hs).births[i])
    ensures Get32(Outbound(h.e, f, hs).frame, SADDR) == h.e.wan
    ensures Get16(Outbound(h.e, f, hs).frame, Parse(f).l4) == ext
  {
    i, ext := OutboundHolds(h, f, hs);
    PortRewriteFields(f, SADDR, Parse(f).l4, PortCheck(f), h.e.wan, ext);
  }

  /** After an outbound frame from a:sp to b:dp became wan:e, every later reply from b:dp to wan:e is
      rewritten to a:sp, whatever ran in between, as long as the session stayed in use, fewer than
      50001 installs followed its own, and the WAN address is the same. */
  lemma FlowRoundTrip(h: History, f: seq<Byte>, evs: seq<Event>, r: seq<Byte>, hs: Hashes)
    requires Inv(h) && IsPortFrame(f) && FullHeader(f)
    requires Outbound(h.e, f, hs).ok
    requires var h1 := HStep(h, Out(f), hs); var h2 := HRun(h1, evs, hs); var i := FlowSlot(h.e, f, hs);
             FlowInUse(h1, evs, hs, i) && h2.installs - h1.births[i] - 1 < 50001 && h2.e.wan == h.e.wan
    requires PortReply(r, f, Outbound(h.e, f, hs).frame) && FullHeader(r)
    ensures var back := Inbound(HRun(HStep(h, Out(f), hs), evs, hs).e, r);
            PortReturns(back, f, r)
  {
    var h1 := HStep(h, Out(f), hs);
    var h2 := HRun(h1, evs, hs);
    var key := FlowKeyOf(f);
    var i, ext := OutboundFields(h, f, hs);
    StepKeepsInv(h, Out(f), hs);
    RunKeepsInv(h1, evs, hs);
    RunKeepsFlow(h1, evs, hs, i, key, ext, h1.births[i]);
    PortOwnedIff(h2, i, key, ext, h1.births[i]);
    PortReplyRewritten(h2.e, r, i);
  }

  // ----- The same conditions, counted in events -----

  function Ticks(evs: seq<Event>): nat {
    if evs == [] then 0 else Ticks(evs[..|evs| - 1]) + (if evs[|evs| - 1].Tick? then 1 else 0)
  }

  function Sends(evs: seq<Event>): nat {
    if evs == [] then 0 else Sends(evs[..|evs| - 1]) + (if evs[|evs| - 1].Out? then 1 else 0)
  }

  /** An event refreshes a session in use or leaves it alone. */
  lemma StepSparesFlow(e: Engine, ev: Event, hs: Hashes, i: nat)
    requires Shaped(e) && i < Flows.MAX_SESSIONS && !Flows.Reusable(e.flows.sessions[i], e.tick)
    ensures Step(e, ev, hs).flows.sessions[i] in {e.flows.sessions[i], e.flows.sessions[i].(last := e.tick)}
  {
    if ev.Out? && ReachesFlows(e, ev.f) {
      Flows.OutboundSparesUsed(e.flows, FlowKeyOf(ev.f), hs.flow(FlowKeyOf(ev.f)), e.tick, i);
    }
  }

  lemma StepAges(e: Engine, ev: Event, hs: Hashes, i: nat)
    requires Shaped(e) && i < Flows.MAX_SESSIONS && !Flows.Reusable(e.flows.sessions[i], e.tick)
    ensures FlowAge(Step(e, ev, hs), i) <= FlowAge(e, i) + (if ev.Tick? then 1 else 0)
  {
    Flows.OneTickOlder(e.tick, e.flows.sessions[i].last);
    if !ev.Tick? {
      StepSparesFlow(e, ev, hs, i);
      assert Step(e, ev, hs).tick == e.tick;
    }
  }

  lemma {:induction false} FewEvents(h: History, evs: seq<Event>, hs: Hashes,
                                     i: nat, key: Flows.FlowKey, ext: Word, n: nat)
    requires Inv(h) && i < Flows.MAX_SESSIONS && HoldsFlow(h, i, key, ext, n)
    requires FlowAge(h.e, i) + Ticks(evs) <= 300
    ensures FlowInUse(h, evs, hs, i)
    ensures FlowAge(HRun(h, evs, hs).e, i) <= FlowAge(h.e, i) + Ticks(evs)
    ensures HRun(h, evs, hs).installs <= h.installs + Sends(evs)
  {
    if evs != [] {
      var before := evs[..|evs| - 1];
      FewEvents(h, before, hs, i, key, ext, n);
      RunKeepsInv(h, before, hs);
      RunKeepsFlow(h, before, hs, i, key, ext, n);
      StepAges(HRun(h, before, hs).e, evs[|evs| - 1], hs, i);
    }
  }

  /** A session just installed answers for 300 ticks and 50000 further outbound frames. */
  lemma FreshFlowRoundTrip(h: History, f: seq<Byte>, evs: seq<Event>, r: seq<Byte>, hs: Hashes)
    requires Inv(h) && IsPortFrame(f) && FullHeader(f)
    requires Outbound(h.e, f, hs).ok && HStep(h, Out(f), hs).installs == h.installs + 1
    requires Ticks(evs) <= 300 && Sends(evs) < 50001
    requires Run(Step(h.e, Out(f), hs), evs, hs).wan == h.e.wan
    requires PortReply(r, f, Outbound(h.e, f, hs).frame) && FullHeader(r)
    ensures var back := Inbound(Run(Step(h.e, Out(f), hs), evs, hs), r);
            PortReturns(back, f, r)
  {
    var h1 := HStep(h, Out(f), hs);
    var i, ext := OutboundHolds(h, f, hs);
    StepKeepsInv(h, Out(f), hs);
    FewEvents(h1, evs, hs, i, FlowKeyOf(f), ext, h1.births[i]);
    FlowRoundTrip(h, f, evs, r, hs);
  }

  // ----- Round trip for ICMP echo -----

  ghost predicate HoldsEcho(e: Engine, i: nat, key: Echoes.EchoKey, ext: Word)
    requires Shaped(e) && i < Echoes.MAX_ICMP_SESSIONS
  {
    var s := e.echoes.sessions[i];
    s.active && s.key == key && s.ext == ext
  }

  function EchoAge(e: Engine, i: nat): Flows.Tick
    requires Shaped(e) && i < Echoes.MAX_ICMP_SESSIONS
  {
    Flows.Age(e.tick, e.echoes.sessions[i].last)
  }

  ghost predicate EchoInUse(e: Engine, evs: seq<Event>, hs: Hashes, i: nat)
    requires Shaped(e) && i < Echoes.MAX_ICMP_SESSIONS
  {
    evs != [] ==>
      var before := evs[..|evs| - 1];
      EchoInUse(e, before, hs, i) && EchoAge(Run(e, before, hs), i) <= 300
  }

  lemma StepKeepsEcho(e: Engine, ev: Event, hs: Hashes, i: nat, key: Echoes.EchoKey, ext: Word)
    requires Shaped(e) && i < Echoes.MAX_ICMP_SESSIONS && HoldsEcho(e, i, key, ext)
    requires EchoAge(e, i) <= 300
    ensures HoldsEcho(Step(e, ev, hs), i, key, ext)
  {
    if ev.Out? && ReachesEchoes(e, ev.f) {
      var found := Echoes.Probe(e.echoes, EchoKeyOf(ev.f), hs.echo(EchoKeyOf(ev.f)), e.tick, 0);
      if found.Take? {
        assert Echoes.Allocate(Echoes.Release(e.echoes, found.i), 0).1.sessions
            == Echoes.Release(e.echoes, found.i).sessions;
      }
    }
  }

  lemma {:induction false} RunKeepsEcho(e: Engine, evs: seq<Event>, hs: Hashes, i: nat, key: Echoes.EchoKey, ext: Word)
    requires Shaped(e) && i < Echoes.MAX_ICMP_SESSIONS && HoldsEcho(e, i, key, ext)
    requires EchoInUse(e, evs, hs, i)
    ensures HoldsEcho(Run(e, evs, hs), i, key, ext)
  {
    if evs != [] {
      var before := evs[..|evs| - 1];
      RunKeepsEcho(e, before, hs, i, key, ext);
      StepKeepsEcho(Run(e, before, hs), evs[|evs| - 1], hs, i, key, ext);
    }
  }

  function EchoSlot(e: Engine, f: seq<Byte>, hs: Hashes): (i: nat)
    requires Shaped(e) && IsEchoFrame(f, 8)
    ensures i < Echoes.MAX_ICMP_SESSIONS
  {
    var found := Echoes.Probe(e.echoes, EchoKeyOf(f), hs.echo(EchoKeyOf(f)), e.tick, 0);
    if found.Full? then 0 else found.i
  }

  lemma EchoFields(e: Engine, f: seq<Byte>, hs: Hashes) returns (ext: Word)
    requires Shaped(e) && IsEchoFrame(f, 8) && FullHeader(f) && Outbound(e, f, hs).ok
    ensures HoldsEcho(Step(e, Out(f), hs), EchoSlot(e, f, hs), EchoKeyOf(f), ext)
    ensures Get32(Outbound(e, f, hs).frame, SADDR) == e.wan
    ensures Get16(Outbound(e, f, hs).frame, Parse(f).l4 + 4) == ext
  {
    ext := Echoes.Outbound(e.echoes, EchoKeyOf(f), hs.echo(EchoKeyOf(f)), e.tick).1;
    EchoRewriteFields(f, SADDR, Parse(f).l4, e.wan, ext);
  }

  predicate EchoReply(r: seq<Byte>, f: seq<Byte>, g: seq<Byte>)
    requires IsEchoFrame(f, 8) && |g| == |f|
  {
    && IsEchoFrame(r, 0)
    && Get32(r, SADDR) == Get32(f, DADDR)
    && Get32(r, DADDR) == Get32(g, SADDR) && Get16(r, Parse(r).l4 + 4) == Get16(g, Parse(f).l4 + 4)
  }

  /** The reply r is translated back to the host that sent f, with the identifier of f. */
  ghost predicate EchoReturns(back: Result, f: seq<Byte>, r: seq<Byte>) {
    && back.ok && |back.frame| == |r| && IsEchoFrame(f, 8) && IsEchoFrame(r, 0)
    && Get32(back.frame, DADDR) == Get32(f, SADDR)
    && Get16(back.frame, Parse(r).l4 + 4) == Get16(f, Parse(f).l4 + 4)
  }

  lemma EchoReplyRewritten(e: Engine, r: seq<Byte>, i: nat)
    requires Shaped(e) && IsEchoFrame(r, 0) && FullHeader(r) && Get32(r, DADDR) == e.wan
    requires Echoes.Admits(e.echoes, Get32(r, SADDR), Get16(r, Parse(r).l4 + 4)) == i
    ensures Inbound(e, r).ok
    ensures Get32(Inbound(e, r).frame, DADDR) == e.echoes.sessions[i].key.saddr
    ensures Get16(Inbound(e, r).frame, Parse(r).l4 + 4) == e.echoes.sessions[i].key.id
  {
    var key := e.echoes.sessions[i].key;
    EchoRewriteFields(r, DADDR, Parse(r).l4, key.saddr, key.id);
  }

  /** An echo reply to the translated request reaches the host that asked, with its own identifier,
      for as long as the session stays in use: allocation never reassigns an identifier in use. */
  lemma EchoRoundTrip(h: History, f: seq<Byte>, evs: seq<Event>, r: seq<Byte>, hs: Hashes)
    requires Inv(h) && IsEchoFrame(f, 8) && FullHeader(f) && Outbound(h.e, f, hs).ok
    requires EchoInUse(Step(h.e, Out(f), hs), evs, hs, EchoSlot(h.e, f, hs))
    requires Run(Step(h.e, Out(f), hs), evs, hs).wan == h.e.wan
    requires EchoReply(r, f, Outbound(h.e, f, hs).frame) && FullHeader(r)
    ensures var back := Inbound(Run(Step(h.e, Out(f), hs), evs, hs), r);
            EchoReturns(back, f, r)
  {
    var h1 := HStep(h, Out(f), hs);
    var h2 := HRun(h1, evs, hs);
    var i, key := EchoSlot(h.e, f, hs), EchoKeyOf(f);
    var ext := EchoFields(h.e, f, hs);
    StepKeepsInv(h, Out(f), hs);
    RunKeepsInv(h1, evs, hs);
    RunKeepsEcho(h1.e, evs, hs, i, key, ext);
    assert Echoes.Carries(h2.e.echoes.sessions, i, ext);
    EchoReplyRewritten(h2.e, r, i);
  }

  /** An event refreshes an echo session in use or leaves it alone. */
  lemma StepSparesEcho(e: Engine, ev: Event, hs: Hashes, i: nat)
    requires Shaped(e) && i < Echoes.MAX_ICMP_SESSIONS && !Echoes.Reusable(e.echoes.sessions[i], e.tick)
    ensures Step(e, ev, hs).echoes.sessions[i] in {e.echoes.sessions[i], e.echoes.sessions[i].(last := e.tick)}
  {
    if ev.Out? && ReachesEchoes(e, ev.f) {
      var found := Echoes.Probe(e.echoes, EchoKeyOf(ev.f), hs.echo(EchoKeyOf(ev.f)), e.tick, 0);
      if found.Take? {
        assert Echoes.Allocate(Echoes.Release(e.echoes, found.i), 0).1.sessions
            == Echoes.Release(e.echoes, found.i).sessions;
      }
    }
  }

  lemma StepAgesEcho(e: Engine, ev: Event, hs: Hashes, i: nat)
    requires Shaped(e) && i < Echoes.MAX_ICMP_SESSIONS && !Echoes.Reusable(e.echoes.sessions[i], e.tick)
    ensures EchoAge(Step(e, ev, hs), i) <= EchoAge(e, i) + (if ev.Tick? then 1 else 0)
  {
    Flows.OneTickOlder(e.tick, e.echoes.sessions[i].last);
    if !ev.Tick? {
      StepSparesEcho(e, ev, hs, i);
      assert Step(e, ev, hs).tick == e.tick;
    }
  }

  lemma {:induction false} FewTicks(e: Engine, evs: seq<Event>, hs: Hashes, i: nat, key: Echoes.EchoKey, ext: Word)
    requires Shaped(e) && i < Echoes.MAX_ICMP_SESSIONS && HoldsEcho(e, i, key, ext)
    requires EchoAge(e, i) + Ticks(evs) <= 300
    ensures EchoInUse(e, evs, hs, i) && EchoAge(Run(e, evs, hs), i) <= EchoAge(e, i) + Ticks(evs)
  {
    if evs != [] {
      var before := evs[..|evs| - 1];
      FewTicks(e, before, hs, i, key, ext);
      RunKeepsEcho(e, before, hs, i, key, ext);
      StepAgesEcho(Run(e, before, hs), evs[|evs| - 1], hs, i);
    }
  }

  /** An echo session answers for 300 ticks after every request, whatever else is sent. */
  lemma FreshEchoRoundTrip(h: History, f: seq<Byte>, evs: seq<Event>, r: seq<Byte>, hs: Hashes)
    requires Inv(h) && IsEchoFrame(f, 8) && FullHeader(f) && Outbound(h.e, f, hs).ok
    requires Ticks(evs) <= 300 && Run(Step(h.e, Out(f), hs), evs, hs).wan == h.e.wan
    requires EchoReply(r, f, Outbound(h.e, f, hs).frame) && FullHeader(r)
    ensures var back := Inbound(Run(Step(h.e, Out(f), hs), evs, hs), r);
            EchoReturns(back, f, r)
  {
    var ext := EchoFields(h.e, f, hs);
    JustUsed(h.e, f, hs);
    FewTicks(Step(h.e, Out(f), hs), evs, hs, EchoSlot(h.e, f, hs), EchoKeyOf(f), ext);
    EchoRoundTrip(h, f, evs, r, hs);
  }

  lemma JustUsed(e: Engine, f: seq<Byte>, hs: Hashes)
    requires Shaped(e) && IsEchoFrame(f, 8) && Outbound(e, f, hs).ok
    ensures EchoAge(Step(e, Out(f), hs), EchoSlot(e, f, hs)) == 0
  {
    Flows.OneTickOlder(e.tick, e.tick);
  }

  // ----- Replies keep a session alive -----

  /** A frame that is let in is a use of its session: afterwards the session is zero ticks old. */
  lemma ReplyRefreshes(e: Engine, f: seq<Byte>, hs: Hashes)
    requires Shaped(e) && Inbound(e, f).ok
    ensures var i := Admit(e, f).1;
            && (IsPortFrame(f) ==> i < Flows.MAX_SESSIONS && FlowAge(Step(e, In(f), hs), i) == 0)
            && (IsEchoFrame(f, 0) ==> i < Echoes.MAX_ICMP_SESSIONS && EchoAge(Step(e, In(f), hs), i) == 0)
  {
    Flows.OneTickOlder(e.tick, e.tick);
  }

  // ----- Frames with one key share a session -----

  /** Once slot i holds `key` and was just used, a probe that found i, or room in i, finds the key there. */
  lemma {:induction false} ProbeAgain(t: Flows.Table, u: Flows.Table, key: Flows.FlowKey, hash: nat,
                                      now: Flows.Tick, n: nat)
    requires Flows.Shaped(t) && Flows.Shaped(u) && !Flows.Probe(t, key, hash, now, n).Full?
    requires var i := Flows.Probe(t, key, hash, now, n).i;
             u.sessions == t.sessions[i := u.sessions[i]] && u.sessions[i].active && u.sessions[i].key == key
             && u.sessions[i].last == now
    ensures Flows.Probe(u, key, hash, now, n) == Flows.Hit(Flows.Probe(t, key, hash, now, n).i)
    decreases Flows.PROBES - n
  {
    Flows.OneTickOlder(now, now);
    var j := (hash + n) % Flows.MAX_SESSIONS;
    if !Flows.Reusable(t.sessions[j], now) && t.sessions[j].key != key {
      ProbeAgain(t, u, key, hash, now, n + 1);
    }
  }

  lemma SentAgain(t: Flows.Table, key: Flows.FlowKey, hash: nat, now: Flows.Tick)
    requires Flows.Shaped(t) && !Flows.Probe(t, key, hash, now, 0).Full?
    ensures var r := Flows.Outbound(t, key, hash, now);
            && Flows.Probe(r.0, key, hash, now, 0) == Flows.Hit(Flows.Probe(t, key, hash, now, 0).i)
            && Flows.Outbound(r.0, key, hash, now).1 == r.1
  {
    ProbeAgain(t, Flows.Outbound(t, key, hash, now).0, key, hash, now, 0);
  }

  /** The protocol is not part of the key: frames with equal addresses and ports get the same slot and the
      same external port, one of TCP and one of UDP included. */
  lemma ProtocolsShareSessions(e: Engine, f: seq<Byte>, g: seq<Byte>, hs: Hashes)
    requires Shaped(e) && IsPortFrame(f) && IsPortFrame(g)
    requires FlowKeyOf(f) == FlowKeyOf(g) && Outbound(e, f, hs).ok
    ensures var e1 := Step(e, Out(f), hs);
            && Outbound(e1, g, hs).ok && FlowSlot(e1, g, hs) == FlowSlot(e, f, hs)
            && Assign(e1, g, hs).1 == Assign(e, f, hs).1
  {
    SentAgain(e.flows, FlowKeyOf(f), hs.flow(FlowKeyOf(f)), e.tick);
  }

  // ----- Nothing is let in that was not asked for -----

  /** Some earlier event of the run was an outbound frame with this key, translated to this port. */
  ghost predicate AskedFor(evs: seq<Event>, hs: Hashes, key: Flows.FlowKey, ext: Word) {
    exists k: nat | k < |evs| :: AskedAt(evs, hs, k, key, ext)
  }

  ghost predicate AskedAt(evs: seq<Event>, hs: Hashes, k: nat, key: Flows.FlowKey, ext: Word)
    requires k < |evs|
  {
    Asks(Run(Initial(), evs[..k], hs), evs[k], hs, key, ext)
  }

  /** The event is an outbound frame with this key that is translated to port `ext`. */
  ghost predicate Asks(e: Engine, ev: Event, hs: Hashes, key: Flows.FlowKey, ext: Word)
    requires Shaped(e)
  {
    && ev.Out? && ReachesFlows(e, ev.f) && FlowKeyOf(ev.f) == key
    && ext != 0 && Flows.Outbound(e.flows, key, hs.flow(key), e.tick).1 == ext
  }

  /** Event k left with the WAN address as its source and `ext` as its port. */
  ghost predicate SentAs(evs: seq<Event>, hs: Hashes, k: nat, ext: Word)
    requires k < |evs|
  {
    var e := Run(Initial(), evs[..k], hs);
    && evs[k].Out? && IsPortFrame(evs[k].f)
    && var g := Outbound(e, evs[k].f, hs);
    && g.ok
    && (FullHeader(evs[k].f) ==> Get32(g.frame, SADDR) == e.wan && Get16(g.frame, Parse(evs[k].f).l4) == ext)
  }

  ghost predicate AskedAndSent(evs: seq<Event>, hs: Hashes, key: Flows.FlowKey, ext: Word) {
    exists k: nat | k < |evs| :: AskedAt(evs, hs, k, key, ext) && SentAs(evs, hs, k, ext)
  }

  lemma AskedFrame(evs: seq<Event>, hs: Hashes, k: nat, key: Flows.FlowKey, ext: Word)
    requires k < |evs| && AskedAt(evs, hs, k, key, ext)
    ensures SentAs(evs, hs, k, ext)
  {
    var e, f := Run(Initial(), evs[..k], hs), evs[k].f;
    if FullHeader(f) {
      PortRewriteFields(f, SADDR, Parse(f).l4, PortCheck(f), e.wan, ext);
    }
  }

  lemma AskedForGrows(evs: seq<Event>, hs: Hashes, key: Flows.FlowKey, ext: Word)
    requires evs != [] && AskedFor(evs[..|evs| - 1], hs, key, ext)
    ensures AskedFor(evs, hs, key, ext)
  {
    var before := evs[..|evs| - 1];
    var k: nat :| k < |before| && AskedAt(before, hs, k, key, ext);
    assert before[..k] == evs[..k];
    assert AskedAt(evs, hs, k, key, ext);
  }

  /** Every session in the table was asked for by an earlier outbound frame of the run. */
  lemma {:induction false} SessionsWereAskedFor(evs: seq<Event>, hs: Hashes, i: nat)
    requires i < Flows.MAX_SESSIONS
    ensures var s := Run(Initial(), evs, hs).flows.sessions[i];
            s.active ==> AskedFor(evs, hs, s.key, s.ext)
  {
    if evs != [] {
      var before, ev := evs[..|evs| - 1], evs[|evs| - 1];
      var e := Run(Initial(), before, hs);
      SessionsWereAskedFor(before, hs, i);
      var s, s' := e.flows.sessions[i], Run(Initial(), evs, hs).flows.sessions[i];
      if s.active && s'.key == s.key && s'.ext == s.ext {
        AskedForGrows(evs, hs, s.key, s.ext);
      } else if s'.active {
        StartInv();
        RunKeepsInv(Start(), before, hs);
        NewSession(HRun(Start(), before, hs), ev, hs, i);
        assert AskedAt(evs, hs, |evs| - 1, s'.key, s'.ext);
      }
    }
  }

  /** A slot gains a session only by an outbound frame with that session's key. */
  lemma NewSession(h: History, ev: Event, hs: Hashes, i: nat)
    requires Inv(h) && i < Flows.MAX_SESSIONS
    requires var s, s' := h.e.flows.sessions[i], Step(h.e, ev, hs).flows.sessions[i];
             s'.active && !(s.active && s'.key == s.key && s'.ext == s.ext)
    ensures var s' := Step(h.e, ev, hs).flows.sessions[i]; Asks(h.e, ev, hs, s'.key, s'.ext)
  {
    if ev.Out? && ReachesFlows(h.e, ev.f) {
      var found := Flows.Probe(h.e.flows, FlowKeyOf(ev.f), hs.flow(FlowKeyOf(ev.f)), h.e.tick, 0);
    }
  }

  /** A frame is let in only through an active session that it matches. */
  lemma InboundSlot(e: Engine, r: seq<Byte>) returns (i: nat)
    requires Shaped(e) && IsPortFrame(r) && FullHeader(r) && Inbound(e, r).ok
    ensures i < Flows.MAX_SESSIONS && e.flows.sessions[i].active
    ensures e.flows.sessions[i].ext == Get16(r, Parse(r).l4 + 2)
    ensures e.flows.sessions[i].key == Flows.FlowKey(Get32(Inbound(e, r).frame, DADDR), Get32(r, SADDR),
                                                     Get16(Inbound(e, r).frame, Parse(r).l4 + 2), Get16(r, Parse(r).l4))
  {
    i := Flows.Admits(e.flows, Get32(r, SADDR), Get16(r, Parse(r).l4), Get16(r, Parse(r).l4 + 2));
    PortReplyRewritten(e, r, i);
  }

  /** Filtering by address and port: from the start, a TCP or UDP frame is translated inwards only if
      an earlier outbound frame went from the inside end it is rewritten to, to the very address and
      port it comes from, and left from the port it is sent to. */
  lemma InboundWasAskedFor(evs: seq<Event>, hs: Hashes, r: seq<Byte>)
    requires IsPortFrame(r) && FullHeader(r) && Inbound(Run(Initial(), evs, hs), r).ok
    ensures var back := Inbound(Run(Initial(), evs, hs), r).frame; var l4 := Parse(r).l4;
            var key := Flows.FlowKey(Get32(back, DADDR), Get32(r, SADDR), Get16(back, l4 + 2), Get16(r, l4));
            AskedAndSent(evs, hs, key, Get16(r, l4 + 2))
  {
    var e := Run(Initial(), evs, hs);
    var i := InboundSlot(e, r);
    SessionsWereAskedFor(evs, hs, i);
    var key, ext := e.flows.sessions[i].key, e.flows.sessions[i].ext;
    var k: nat :| k < |evs| && AskedAt(evs, hs, k, key, ext);
    AskedFrame(evs, hs, k, key, ext);
  }

  // ----- The same for echo replies -----

  /** The event is an echo request with this key that is translated to identifier `ext`. */
  ghost predicate EchoAsks(e: Engine, ev: Event, hs: Hashes, key: Echoes.EchoKey, ext: Word)
    requires Shaped(e)
  {
    && ev.Out? && ReachesEchoes(e, ev.f) && EchoKeyOf(ev.f) == key
    && ext != 0 && Echoes.Outbound(e.echoes, key, hs.echo(key), e.tick).1 == ext
  }

  ghost predicate EchoAskedAt(evs: seq<Event>, hs: Hashes, k: nat, key: Echoes.EchoKey, ext: Word)
    requires k < |evs|
  {
    EchoAsks(Run(Initial(), evs[..k], hs), evs[k], hs, key, ext)
  }

  ghost predicate EchoAskedFor(evs: seq<Event>, hs: Hashes, key: Echoes.EchoKey, ext: Word) {
    exists k: nat | k < |evs| :: EchoAskedAt(evs, hs, k, key, ext)
  }

  lemma EchoAskedForGrows(evs: seq<Event>, hs: Hashes, key: Echoes.EchoKey, ext: Word)
    requires evs != [] && EchoAskedFor(evs[..|evs| - 1], hs, key, ext)
    ensures EchoAskedFor(evs, hs, key, ext)
  {
    var before := evs[..|evs| - 1];
    var k: nat :| k < |before| && EchoAskedAt(before, hs, k, key, ext);
    assert before[..k] == evs[..k];
    assert EchoAskedAt(evs, hs, k, key, ext);
  }

  /** A slot gains an echo session only by a request with that session's key. */
  lemma NewEcho(e: Engine, ev: Event, hs: Hashes, i: nat)
    requires Shaped(e) && i < Echoes.MAX_ICMP_SESSIONS
    requires var s, s' := e.echoes.sessions[i], Step(e, ev, hs).echoes.sessions[i];
             s'.active && !(s.active && s'.key == s.key && s'.ext == s.ext)
    ensures var s' := Step(e, ev, hs).echoes.sessions[i]; EchoAsks(e, ev, hs, s'.key, s'.ext)
  {
    if ev.Out? && ReachesEchoes(e, ev.f) {
      var found := Echoes.Probe(e.echoes, EchoKeyOf(ev.f), hs.echo(EchoKeyOf(ev.f)), e.tick, 0);
      if found.Take? {
        assert Echoes.Allocate(Echoes.Release(e.echoes, found.i), 0).1.sessions
            == Echoes.Release(e.echoes, found.i).sessions;
      }
    }
  }

  /** Every echo session in the table was asked for by an earlier request of the run. */
  lemma {:induction false} EchoesWereAskedFor(evs: seq<Event>, hs: Hashes, i: nat)
    requires i < Echoes.MAX_ICMP_SESSIONS
    ensures var s := Run(Initial(), evs, hs).echoes.sessions[i];
            s.active ==> EchoAskedFor(evs, hs, s.key, s.ext)
  {
    if evs != [] {
      var before, ev := evs[..|evs| - 1], evs[|evs| - 1];
      var e := Run(Initial(), before, hs);
      EchoesWereAskedFor(before, hs, i);
      var s, s' := e.echoes.sessions[i], Run(Initial(), evs, hs).echoes.sessions[i];
      if s.active && s'.key == s.key && s'.ext == s.ext {
        EchoAskedForGrows(evs, hs, s.key, s.ext);
      } else if s'.active {
        NewEcho(e, ev, hs, i);
        assert EchoAskedAt(evs, hs, |evs| - 1, s'.key, s'.ext);
      }
    }
  }

  /** A reply is let in only through an active session that it matches. */
  lemma InboundEchoSlot(e: Engine, r: seq<Byte>) returns (i: nat)
    requires Shaped(e) && IsEchoFrame(r, 0) && FullHeader(r) && Inbound(e, r).ok
    ensures i < Echoes.MAX_ICMP_SESSIONS && e.echoes.sessions[i].active
    ensures e.echoes.sessions[i].ext == Get16(r, Parse(r).l4 + 4)
    ensures e.echoes.sessions[i].key == Echoes.EchoKey(Get32(Inbound(e, r).frame, DADDR), Get32(r, SADDR),
                                                       Get16(Inbound(e, r).frame, Parse(r).l4 + 4))
  {
    i := Echoes.Admits(e.echoes, Get32(r, SADDR), Get16(r, Parse(r).l4 + 4));
    EchoReplyRewritten(e, r, i);
  }

  /** From the start, an echo reply is translated inwards only if the host it is rewritten to sent an
      earlier request, with the identifier it is given, to the address it comes from, and that request was
      given the identifier it carries. */
  lemma InboundEchoWasAskedFor(evs: seq<Event>, hs: Hashes, r: seq<Byte>)
    requires IsEchoFrame(r, 0) && FullHeader(r) && Inbound(Run(Initial(), evs, hs), r).ok
    ensures var back := Inbound(Run(Initial(), evs, hs), r).frame; var l4 := Parse(r).l4;
            EchoAskedFor(evs, hs, Echoes.EchoKey(Get32(back, DADDR), Get32(r, SADDR), Get16(back, l4 + 4)),
                         Get16(r, l4 + 4))
  {
    var i := InboundEchoSlot(Run(Initial(), evs, hs), r);
    EchoesWereAskedFor(evs, hs, i);
  }
}
