/** The TCP/UDP session table: a probed table of sessions, the reverse map from external port to
    session, and the cyclic port cursor. Values of this module are the specification that the
    engine class is proved against. */
module FlowTable {
  import opened Bytes

  const MAX_SESSIONS: nat := 65536
  const PROBES: nat := 32
  const FIRST_PORT: nat := 10000
  const LAST_PORT: nat := 60000
  const PORTS: nat := 50001
  const TICK_WRAP: nat := 0x1_0000_0000
  const MAX_IDLE: nat := 300

  type Tick = t: nat | t < TICK_WRAP

  /** The key of a session. It carries no protocol: TCP and UDP flows share the table. */
  datatype FlowKey = FlowKey(saddr: Addr, daddr: Addr, sport: Word, dport: Word)

  datatype Session = Session(key: FlowKey, ext: Word, last: Tick, active: bool)

  datatype Table = Table(sessions: seq<Session>, index: seq<int>, cursor: nat)

  predicate Shaped(t: Table) {
    && |t.sessions| == MAX_SESSIONS && |t.index| == 0x1_0000
    && FIRST_PORT <= t.cursor <= LAST_PORT
  }

  /** 32-bit unsigned subtraction. */
  function Age(now: Tick, last: Tick): Tick { (now - last) % TICK_WRAP }

  lemma OneTickOlder(now: Tick, last: Tick)
    ensures Age((now + 1) % TICK_WRAP, last) <= Age(now, last) + 1
    ensures Age(now, now) == 0
  {
  }

  predicate Reusable(s: Session, now: Tick) { !s.active || Age(now, s.last) > MAX_IDLE }

  function NextPort(p: nat): nat { if p + 1 > LAST_PORT then FIRST_PORT else p + 1 }

  datatype Found = Take(i: nat) | Hit(i: nat) | Full

  /** The probe loop from its n-th step: an unused or expired slot is taken before the key is compared. */
  function Probe(t: Table, key: FlowKey, hash: nat, now: Tick, n: nat): (r: Found)
    requires Shaped(t)
    ensures !r.Full? ==> r.i < MAX_SESSIONS
    ensures r.Take? ==> Reusable(t.sessions[r.i], now)
    ensures r.Hit? ==> !Reusable(t.sessions[r.i], now) && t.sessions[r.i].key == key
    decreases PROBES - n
  {
    if n >= PROBES then Full
    else
      var i := (hash + n) % MAX_SESSIONS;
      if Reusable(t.sessions[i], now) then Take(i)
      else if t.sessions[i].key == key then Hit(i)
      else Probe(t, key, hash, now, n + 1)
  }

  /** The reverse map once slot i gives up its port: cleared only if it still points back at i. */
  function Released(t: Table, i: nat): (index: seq<int>)
    requires Shaped(t) && i < MAX_SESSIONS
    ensures |index| == 0x1_0000
  {
    var s := t.sessions[i];
    if s.active && t.index[s.ext] == i then t.index[s.ext := -1] else t.index
  }

  function Install(t: Table, i: nat, key: FlowKey, now: Tick): (r: Table)
    requires Shaped(t) && i < MAX_SESSIONS
    ensures Shaped(r)
  {
    Table(t.sessions[i := Session(key, t.cursor, now, true)],
          Released(t, i)[t.cursor := i],
          NextPort(t.cursor))
  }

  function Touch(t: Table, i: nat, now: Tick): (r: Table)
    requires Shaped(t) && i < MAX_SESSIONS
    ensures Shaped(r)
  {
    t.(sessions := t.sessions[i := t.sessions[i].(last := now)])
  }

  /** An outbound packet: the table after it, and the external port, or 0 when the probe run is full. */
  function Outbound(t: Table, key: FlowKey, hash: nat, now: Tick): (r: (Table, Word))
    requires Shaped(t)
    ensures Shaped(r.0)
  {
    match Probe(t, key, hash, now, 0)
    case Take(i) => (Install(t, i, key, now), t.cursor)
    case Hit(i) => (Touch(t, i, now), t.sessions[i].ext)
    case Full => (t, 0)
  }

  /** The slot that admits a packet from src:sport to external port dport, or -1. */
  function Admits(t: Table, src: Addr, sport: Word, dport: Word): (i: int)
    requires Shaped(t)
    ensures -1 <= i < MAX_SESSIONS
  {
    var i := t.index[dport];
    if i < 0 || i >= MAX_SESSIONS then -1
    else
      var s := t.sessions[i];
      if s.active && s.key.daddr == src && s.key.dport == sport && s.ext == dport then i else -1
  }

  function Inbound(t: Table, src: Addr, sport: Word, dport: Word, now: Tick): (r: (Table, int))
    requires Shaped(t)
    ensures Shaped(r.0) && -1 <= r.1 < MAX_SESSIONS
  {
    var i := Admits(t, src, sport, dport);
    (if i < 0 then t else Touch(t, i, now), i)
  }

  function Empty(): (t: Table)
    ensures Shaped(t)
  {
    Table(seq(MAX_SESSIONS, _ => Session(FlowKey(0, 0, 0, 0), 0, 0, false)), seq(0x1_0000, _ => -1), FIRST_PORT)
  }

  // ----- History: the installs so far, numbered -----

  /** A table with its history: how many installs there were, and the number of each slot's own. */
  datatype Hist = Hist(t: Table, births: seq<nat>, installs: nat)

  /** The port that install number n receives. */
  function PortOf(n: nat): Word { 10000 + n % 50001 }

  function HistOutbound(h: Hist, key: FlowKey, hash: nat, now: Tick): (r: Hist)
    requires Shaped(h.t) && |h.births| == MAX_SESSIONS
    ensures r.t == Outbound(h.t, key, hash, now).0 && |r.births| == MAX_SESSIONS
  {
    var t := Outbound(h.t, key, hash, now).0;
    match Probe(h.t, key, hash, now, 0)
    case Take(i) => Hist(t, h.births[i := h.installs], h.installs + 1)
    case _ => Hist(t, h.births, h.installs)
  }

  /** Every entry of the reverse map points at an active session that carries that port. */
  ghost predicate IndexSound(t: Table)
    requires Shaped(t)
  {
    forall p: nat | p < 0x1_0000 ::
      -1 <= t.index[p] < MAX_SESSIONS
      && (t.index[p] >= 0 ==> t.sessions[t.index[p]].active && t.sessions[t.index[p]].ext == p)
  }

  /** Slot i holds the session of install births[i], and owns its port in the reverse map exactly
      while fewer than 50001 installs came after that one. */
  ghost predicate SlotInv(h: Hist, i: nat)
    requires Shaped(h.t) && |h.births| == MAX_SESSIONS && i < MAX_SESSIONS
  {
    h.t.sessions[i].active ==>
      && h.births[i] < h.installs
      && h.t.sessions[i].ext == PortOf(h.births[i])
      && (h.t.index[h.t.sessions[i].ext] == i <==> h.installs - h.births[i] - 1 < 50001)
  }

  ghost predicate Inv(h: Hist) {
    && Shaped(h.t) && |h.births| == MAX_SESSIONS
    && h.t.cursor == PortOf(h.installs)
    && IndexSound(h.t)
    && (forall i: nat | i < MAX_SESSIONS :: SlotInv(h, i))
    && (forall i: nat, j: nat | i < j < MAX_SESSIONS ::
          h.t.sessions[i].active && h.t.sessions[j].active ==> h.births[i] != h.births[j])
  }

  lemma InitialInv()
    ensures Inv(Hist(Empty(), seq(MAX_SESSIONS, _ => 0), 0))
  {
  }

  lemma {:induction false} PortCycles(a: nat, b: nat)
    requires a <= b
    ensures PortOf(a) == PortOf(b) <==> (b - a) % 50001 == 0
    decreases b
  {
    if b >= 50001 && b - 50001 >= a {
      PortCycles(a, b - 50001);
    } else if b >= 50001 {
      assert b - a < 50001;
      if a >= 50001 {
        PortCycles(a - 50001, b - 50001);
      }
    }
  }

  lemma NextPortOf(n: nat)
    ensures NextPort(PortOf(n)) == PortOf(n + 1)
  {
  }

  /** The slots other than the one installed into keep or lose their ports by age alone. */
  lemma InstallKeepsSlot(h: Hist, i: nat, key: FlowKey, now: Tick, j: nat)
    requires Inv(h) && i < MAX_SESSIONS && j < MAX_SESSIONS
    ensures SlotInv(Hist(Install(h.t, i, key, now), h.births[i := h.installs], h.installs + 1), j)
  {
    var s := h.t.sessions[j];
    assert SlotInv(h, j);
    if j != i && s.active {
      PortCycles(h.births[j], h.installs);
      if h.installs - h.births[j] == PORTS {
        assert s.ext == h.t.cursor;
      } else if h.installs - h.births[j] < PORTS {
        assert s.ext != h.t.cursor;
      }
    }
  }

  lemma InstallKeepsIndex(h: Hist, i: nat, key: FlowKey, now: Tick)
    requires Inv(h) && i < MAX_SESSIONS
    ensures IndexSound(Install(h.t, i, key, now))
  {
    var t := Install(h.t, i, key, now);
    forall p: nat | p < 0x1_0000
      ensures -1 <= t.index[p] < MAX_SESSIONS
      ensures t.index[p] >= 0 ==> t.sessions[t.index[p]].active && t.sessions[t.index[p]].ext == p
    {
      assert -1 <= h.t.index[p] < MAX_SESSIONS;
    }
  }

  /** Every outbound packet keeps the reverse map exact. */
  lemma OutboundKeepsInv(h: Hist, key: FlowKey, hash: nat, now: Tick)
    requires Inv(h)
    ensures Inv(HistOutbound(h, key, hash, now))
  {
    var found := Probe(h.t, key, hash, now, 0);
    if found.Take? {
      var i := found.i;
      NextPortOf(h.installs);
      InstallKeepsIndex(h, i, key, now);
      forall j: nat | j < MAX_SESSIONS
        ensures SlotInv(HistOutbound(h, key, hash, now), j)
      {
        InstallKeepsSlot(h, i, key, now, j);
      }
      forall j: nat | j < MAX_SESSIONS && j != i && h.t.sessions[j].active
        ensures h.births[j] != h.installs
      {
        assert SlotInv(h, j);
      }
    } else if found.Hit? {
      TouchKeepsInv(h, found.i, now);
    }
  }

  /** So does refreshing a session. */
  lemma TouchKeepsInv(h: Hist, i: nat, now: Tick)
    requires Inv(h) && i < MAX_SESSIONS
    ensures Inv(h.(t := Touch(h.t, i, now)))
  {
    forall j: nat | j < MAX_SESSIONS
      ensures SlotInv(h.(t := Touch(h.t, i, now)), j)
    {
      assert SlotInv(h, j);
    }
  }

  /** A session in use is left alone, or refreshed, by every outbound packet. */
  lemma OutboundSparesUsed(t: Table, key: FlowKey, hash: nat, now: Tick, i: nat)
    requires Shaped(t) && i < MAX_SESSIONS && !Reusable(t.sessions[i], now)
    ensures Outbound(t, key, hash, now).0.sessions[i] in {t.sessions[i], t.sessions[i].(last := now)}
  {
  }

  // ----- When a packet finds no room, and what an admitted one refreshes -----

  /** The session is in use, by another flow: it is active and was used within the last 300 ticks. */
  predicate InUseByOther(s: Session, key: FlowKey, now: Tick) {
    s.active && (now - s.last) % 0x1_0000_0000 <= 300 && s.key != key
  }

  /** Step k of the probe from `hash` on finds a slot in use by another. */
  predicate Blocked(t: Table, key: FlowKey, hash: nat, now: Tick, k: nat)
    requires Shaped(t)
  {
    InUseByOther(t.sessions[(hash + k) % 65536], key, now)
  }

  lemma {:induction false} ProbeFullIff(t: Table, key: FlowKey, hash: nat, now: Tick, n: nat)
    requires Shaped(t) && n <= 32
    ensures Probe(t, key, hash, now, n).Full?
       <==> forall k: nat | n <= k < 32 :: Blocked(t, key, hash, now, k)
    decreases 32 - n
  {
    if n < 32 {
      if Blocked(t, key, hash, now, n) {
        ProbeFullIff(t, key, hash, now, n + 1);
      }
    }
  }

  /** In every reachable table a packet is refused if and only if the 32 slots from its hash on are in use by
      other flows; otherwise it gets a port from 10000 to 60000. */
  lemma RefusedIff(h: Hist, key: FlowKey, hash: nat, now: Tick)
    requires Inv(h)
    ensures var port := Outbound(h.t, key, hash, now).1;
            && (port == 0 <==> forall k: nat | k < 32 :: Blocked(h.t, key, hash, now, k))
            && (port != 0 ==> 10000 <= port <= 60000)
  {
    ProbeFullIff(h.t, key, hash, now, 0);
    var found := Probe(h.t, key, hash, now, 0);
    if found.Hit? {
      assert SlotInv(h, found.i);
    }
  }

  /** An admitted packet makes its session as good as new, and changes nothing else. */
  lemma InboundRefreshes(t: Table, src: Addr, sport: Word, dport: Word, now: Tick)
    requires Shaped(t)
    ensures var (u, i) := Inbound(t, src, sport, dport, now);
            && (i < 0 ==> u == t)
            && (i >= 0 ==> Age(now, u.sessions[i].last) == 0 && u == t.(sessions := u.sessions)
                           && u.sessions == t.sessions[i := t.sessions[i].(last := now)])
  {
  }
}
