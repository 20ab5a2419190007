/** How a session that is used all the time loses its external port: a second flow, idle for five minutes
    between its packets, is installed anew each time, and each install moves the port cursor on. */
module PortReuse {
  import opened Bytes
  import opened Frames
  import opened Nat
  import opened NatRuns
  import Flows = FlowTable

  // ----- Runs in parts -----

  /** From h the events lead to r, and slot i is in use all the way. */
  ghost predicate Leads(h: History, evs: seq<Event>, r: History, hs: Hashes, i: nat) {
    && Shaped(h.e) && |h.births| == Flows.MAX_SESSIONS && i < Flows.MAX_SESSIONS
    && HRun(h, evs, hs) == r && FlowInUse(h, evs, hs, i)
  }

  lemma {:induction false} LeadsOn(h: History, a: seq<Event>, m: History, b: seq<Event>, r: History, hs: Hashes, i: nat)
    requires Leads(h, a, m, hs, i) && Leads(m, b, r, hs, i)
    ensures Leads(h, a + b, r, hs, i)
    decreases |b|
  {
    if b == [] {
      assert a + b == a;
    } else {
      var n := |b| - 1;
      LeadsOn(h, a, m, b[..n], HRun(m, b[..n], hs), hs, i);
      assert (a + b)[..|a + b| - 1] == a + b[..n];
    }
  }

  lemma LeadsOnce(h: History, ev: Event, hs: Hashes, i: nat)
    requires Shaped(h.e) && |h.births| == Flows.MAX_SESSIONS && i < Flows.MAX_SESSIONS
    requires FlowAge(h.e, i) <= 300
    ensures Leads(h, [ev], HStep(h, ev, hs), hs, i)
  {
    assert [ev][..0] == [];
    assert HRun(h, [ev], hs) == HStep(HRun(h, [], hs), ev, hs);
  }

  // ----- Two flows -----

  /** The slot that the first packet of f gets. */
  function SlotF(f: seq<Byte>, hs: Hashes): nat
    requires IsPortFrame(f)
  {
    hs.flow(FlowKeyOf(f)) % Flows.MAX_SESSIONS
  }

  /** The slot that g gets while only that one is in use. */
  function SlotG(f: seq<Byte>, g: seq<Byte>, hs: Hashes): nat
    requires IsPortFrame(f) && IsPortFrame(g)
  {
    var h := hs.flow(FlowKeyOf(g));
    if h % Flows.MAX_SESSIONS != SlotF(f, hs) then h % Flows.MAX_SESSIONS else (h + 1) % Flows.MAX_SESSIONS
  }

  /** f's session was the first to be installed, and is a ticks old; g's, if there is one, is b ticks old;
      there is no other. */
  ghost predicate Two(h: History, f: seq<Byte>, g: seq<Byte>, hs: Hashes, a: nat, b: nat) {
    && IsPortFrame(f) && IsPortFrame(g) && FlowKeyOf(f) != FlowKeyOf(g)
    && Shaped(h.e) && |h.births| == Flows.MAX_SESSIONS && h.e.wan != 0
    && var i, j := SlotF(f, hs), SlotG(f, g, hs);
    && HoldsFlow(h, i, FlowKeyOf(f), 10000, 0) && FlowAge(h.e, i) == a
    && (h.e.flows.sessions[j].active ==> FlowAge(h.e, j) == b && h.e.flows.sessions[j].key == FlowKeyOf(g))
    && forall k | 0 <= k < Flows.MAX_SESSIONS && k != i && k != j :: !h.e.flows.sessions[k].active
  }

  lemma OneTick(now: Flows.Tick, last: Flows.Tick, age: nat)
    requires Flows.Age(now, last) == age < 1000
    ensures Flows.Age((now + 1) % Flows.TICK_WRAP, last) == age + 1
  {
  }

  lemma TickTwo(h: History, f: seq<Byte>, g: seq<Byte>, hs: Hashes, a: nat, b: nat)
    requires Two(h, f, g, hs, a, b) && a < 1000 && b < 1000
    ensures var r := HStep(h, Tick, hs);
            Two(r, f, g, hs, a + 1, b + 1) && r.installs == h.installs && r.e.wan == h.e.wan
  {
    OneTick(h.e.tick, h.e.flows.sessions[SlotF(f, hs)].last, a);
    if h.e.flows.sessions[SlotG(f, g, hs)].active {
      OneTick(h.e.tick, h.e.flows.sessions[SlotG(f, g, hs)].last, b);
    }
  }

  function TickTimes(n: nat): seq<Event> { if n == 0 then [] else TickTimes(n - 1) + [Tick] }

  lemma {:induction false} TicksTwo(h: History, f: seq<Byte>, g: seq<Byte>, hs: Hashes, a: nat, b: nat, n: nat)
      returns (r: History)
    requires Two(h, f, g, hs, a, b) && a + n <= 300 && b + n < 1000
    ensures Two(r, f, g, hs, a + n, b + n) && r.installs == h.installs && r.e.wan == h.e.wan
    ensures Leads(h, TickTimes(n), r, hs, SlotF(f, hs))
  {
    if n == 0 {
      r := h;
    } else {
      var m := TicksTwo(h, f, g, hs, a, b, n - 1);
      TickTwo(m, f, g, hs, a + n - 1, b + n - 1);
      LeadsOnce(m, Tick, hs, SlotF(f, hs));
      r := HStep(m, Tick, hs);
      LeadsOn(h, TickTimes(n - 1), m, [Tick], r, hs, SlotF(f, hs));
    }
  }

  /** A packet of f refreshes its session. */
  lemma SendF(h: History, f: seq<Byte>, g: seq<Byte>, hs: Hashes, a: nat, b: nat)
    requires Two(h, f, g, hs, a, b) && a <= 300
    ensures var r := HStep(h, Out(f), hs);
            Two(r, f, g, hs, 0, b) && r.installs == h.installs && r.e.wan == h.e.wan
  {
    var key, i := FlowKeyOf(f), SlotF(f, hs);
    assert Flows.Probe(h.e.flows, key, hs.flow(key), h.e.tick, 0) == Flows.Hit(i);
    Flows.OneTickOlder(h.e.tick, h.e.tick);
  }

  lemma ProbeG(h: History, f: seq<Byte>, g: seq<Byte>, hs: Hashes, a: nat, b: nat)
    requires Two(h, f, g, hs, a, b) && a <= 300 < b
    ensures Flows.Probe(h.e.flows, FlowKeyOf(g), hs.flow(FlowKeyOf(g)), h.e.tick, 0) == Flows.Take(SlotG(f, g, hs))
  {
    var key := FlowKeyOf(g);
    var hash := hs.flow(key);
    if hash % Flows.MAX_SESSIONS == SlotF(f, hs) {
      assert Flows.Probe(h.e.flows, key, hash, h.e.tick, 1) == Flows.Take(SlotG(f, g, hs));
    }
  }

  /** A packet of g, after its session expired, is installed anew. */
  lemma SendG(h: History, f: seq<Byte>, g: seq<Byte>, hs: Hashes, a: nat, b: nat)
    requires Two(h, f, g, hs, a, b) && a <= 300 < b
    ensures var r := HStep(h, Out(g), hs);
            Two(r, f, g, hs, a, 0) && r.installs == h.installs + 1 && r.e.wan == h.e.wan
  {
    ProbeG(h, f, g, hs, a, b);
    Flows.OneTickOlder(h.e.tick, h.e.tick);
  }

  /** In 301 ticks f sends twice and g once. */
  function Round(f: seq<Byte>, g: seq<Byte>): seq<Event> {
    TickTimes(150) + [Out(f)] + TickTimes(151) + [Out(f)] + [Out(g)]
  }

  lemma RoundTwo(h: History, f: seq<Byte>, g: seq<Byte>, hs: Hashes) returns (r: History)
    requires Two(h, f, g, hs, 0, 0)
    ensures Two(r, f, g, hs, 0, 0) && r.installs == h.installs + 1 && r.e.wan == h.e.wan
    ensures Leads(h, Round(f, g), r, hs, SlotF(f, hs))
  {
    var i := SlotF(f, hs);
    var h1 := TicksTwo(h, f, g, hs, 0, 0, 150);
    var h2 := SendOn(h, TickTimes(150), h1, f, g, hs, 150, 150);
    var h3 := TicksTwo(h2, f, g, hs, 0, 150, 151);
    LeadsOn(h, TickTimes(150) + [Out(f)], h2, TickTimes(151), h3, hs, i);
    var h4 := SendOn(h, TickTimes(150) + [Out(f)] + TickTimes(151), h3, f, g, hs, 151, 301);
    SendG(h4, f, g, hs, 0, 301);
    LeadsOnce(h4, Out(g), hs, i);
    r := HStep(h4, Out(g), hs);
    LeadsOn(h, TickTimes(150) + [Out(f)] + TickTimes(151) + [Out(f)], h4, [Out(g)], r, hs, i);
  }

  lemma SendOn(h: History, evs: seq<Event>, m: History, f: seq<Byte>, g: seq<Byte>, hs: Hashes, a: nat, b: nat)
      returns (r: History)
    requires Two(m, f, g, hs, a, b) && a <= 300 && Leads(h, evs, m, hs, SlotF(f, hs))
    ensures Two(r, f, g, hs, 0, b) && r.installs == m.installs && r.e.wan == m.e.wan
    ensures Leads(h, evs + [Out(f)], r, hs, SlotF(f, hs))
  {
    SendF(m, f, g, hs, a, b);
    LeadsOnce(m, Out(f), hs, SlotF(f, hs));
    r := HStep(m, Out(f), hs);
    LeadsOn(h, evs, m, [Out(f)], r, hs, SlotF(f, hs));
  }

  lemma RoundOn(h: History, evs: seq<Event>, m: History, f: seq<Byte>, g: seq<Byte>, hs: Hashes) returns (r: History)
    requires Two(m, f, g, hs, 0, 0) && Leads(h, evs, m, hs, SlotF(f, hs))
    ensures Two(r, f, g, hs, 0, 0) && r.installs == m.installs + 1 && r.e.wan == m.e.wan
    ensures Leads(h, evs + Round(f, g), r, hs, SlotF(f, hs))
  {
    r := RoundTwo(m, f, g, hs);
    LeadsOn(h, evs, m, Round(f, g), r, hs, SlotF(f, hs));
  }

  function Rounds(f: seq<Byte>, g: seq<Byte>, n: nat): seq<Event> {
    if n == 0 then [] else Rounds(f, g, n - 1) + Round(f, g)
  }

  lemma {:induction false} RoundsTwo(h: History, f: seq<Byte>, g: seq<Byte>, hs: Hashes, n: nat) returns (r: History)
    requires Two(h, f, g, hs, 0, 0)
    ensures Two(r, f, g, hs, 0, 0) && r.installs == h.installs + n && r.e.wan == h.e.wan
    ensures Leads(h, Rounds(f, g, n), r, hs, SlotF(f, hs))
  {
    if n == 0 {
      r := h;
    } else {
      var m := RoundsTwo(h, f, g, hs, n - 1);
      r := RoundOn(h, Rounds(f, g, n - 1), m, f, g, hs);
    }
  }

  // ----- The reply -----

  /** The engine after its WAN address was set and f was sent. */
  function Opened(f: seq<Byte>, wan: Addr, hs: Hashes): (h: History)
    ensures Shaped(h.e) && |h.births| == Flows.MAX_SESSIONS
  {
    HStep(HStep(Start(), SetWan(wan), hs), Out(f), hs)
  }

  lemma OpenedTwo(f: seq<Byte>, g: seq<Byte>, wan: Addr, hs: Hashes)
    requires IsPortFrame(f) && IsPortFrame(g) && FlowKeyOf(f) != FlowKeyOf(g) && wan != 0
    ensures var h := Opened(f, wan, hs); Two(h, f, g, hs, 0, 0) && h.installs == 1 && h.e.wan == wan && Inv(h)
  {
    var h0 := HStep(Start(), SetWan(wan), hs);
    var key := FlowKeyOf(f);
    assert Flows.Probe(h0.e.flows, key, hs.flow(key), 0, 0) == Flows.Take(SlotF(f, hs));
    Flows.OneTickOlder(0, 0);
    StartInv();
    StepKeepsInv(Start(), SetWan(wan), hs);
    StepKeepsInv(h0, Out(f), hs);
  }

  /** A reply to f, as it was translated: from f's destination to the WAN address and the first port. */
  predicate ReplyTo(r: seq<Byte>, f: seq<Byte>, wan: Addr)
    requires IsPortFrame(f)
  {
    && IsPortFrame(r) && FullHeader(r) && Get32(r, DADDR) == wan && Get16(r, Parse(r).l4 + 2) == 10000
    && Get32(r, SADDR) == FlowKeyOf(f).daddr && Get16(r, Parse(r).l4) == FlowKeyOf(f).dport
  }

  lemma ReturnsIff(h: History, f: seq<Byte>, g: seq<Byte>, hs: Hashes, r: seq<Byte>)
    requires Inv(h) && Two(h, f, g, hs, 0, 0) && ReplyTo(r, f, h.e.wan)
    ensures PortReturns(Inbound(h.e, r), f, r) <==> h.installs - 1 < 50001
  {
    var key, i := FlowKeyOf(f), SlotF(f, hs);
    var m := Flows.Admits(h.e.flows, key.daddr, key.dport, 10000);
    PortOwnedIff(h, i, key, 10000, 0);
    if m >= 0 {
      PortReplyRewritten(h.e, r, m);
    }
  }

  /** In use all the time, f's session keeps its slot; but a reply finds its way back to f if and only if
      fewer than 50001 installs followed. */
  lemma PortIsLostAfter(f: seq<Byte>, g: seq<Byte>, wan: Addr, r: seq<Byte>, n: nat, hs: Hashes)
    requires IsPortFrame(f) && IsPortFrame(g) && FlowKeyOf(f) != FlowKeyOf(g) && wan != 0 && ReplyTo(r, f, wan)
    ensures var h := Opened(f, wan, hs); var u := HRun(h, Rounds(f, g, n), hs); var i := SlotF(f, hs);
            && FlowInUse(h, Rounds(f, g, n), hs, i) && FlowAge(u.e, i) == 0
            && HoldsFlow(u, i, FlowKeyOf(f), 10000, 0) && u.e.wan == wan
            && (PortReturns(Inbound(u.e, r), f, r) <==> n < 50001)
  {
    OpenedTwo(f, g, wan, hs);
    var h := Opened(f, wan, hs);
    var u := RoundsTwo(h, f, g, hs, n);
    RunKeepsInv(h, Rounds(f, g, n), hs);
    ReturnsIff(u, f, g, hs, r);
  }
}
