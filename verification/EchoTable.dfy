/** The ICMP echo session table: like the flow table, but an external identifier is allocated only
    if no active session carries it. */
module EchoTable {
  import opened Bytes
  import FlowTable

  const MAX_ICMP_SESSIONS: nat := 4096
  const ATTEMPTS: nat := 512
  const PROBES: nat := 32

  type Tick = FlowTable.Tick

  datatype EchoKey = EchoKey(saddr: Addr, daddr: Addr, id: Word)

  datatype Echo = Echo(key: EchoKey, ext: Word, last: Tick, active: bool)

  datatype Table = Table(sessions: seq<Echo>, index: seq<int>, cursor: nat)

  predicate Shaped(t: Table) {
    && |t.sessions| == MAX_ICMP_SESSIONS && |t.index| == 0x1_0000
    && FlowTable.FIRST_PORT <= t.cursor <= FlowTable.LAST_PORT
  }

  predicate Reusable(s: Echo, now: Tick) { !s.active || FlowTable.Age(now, s.last) > FlowTable.MAX_IDLE }

  /** Is external identifier p free? An entry that names an inactive session counts as free. */
  predicate Free(t: Table, p: nat)
    requires Shaped(t) && p < 0x1_0000
  {
    t.index[p] < 0 || (t.index[p] < MAX_ICMP_SESSIONS && !t.sessions[t.index[p]].active)
  }

  /** The allocator from its n-th attempt: the identifier found, or 0, and the table after it. */
  function Allocate(t: Table, n: nat): (r: (Word, Table))
    requires Shaped(t)
    ensures Shaped(r.1) && r.1.sessions == t.sessions
    decreases ATTEMPTS - n
  {
    if n >= ATTEMPTS then (0, t)
    else
      var next := t.(cursor := FlowTable.NextPort(t.cursor));
      if Free(t, t.cursor) then
        (t.cursor, if t.index[t.cursor] < 0 then next else next.(index := t.index[t.cursor := -1]))
      else Allocate(next, n + 1)
  }

  function Probe(t: Table, key: EchoKey, hash: nat, now: Tick, n: nat): (r: FlowTable.Found)
    requires Shaped(t)
    ensures !r.Full? ==> r.i < MAX_ICMP_SESSIONS
    ensures r.Take? ==> Reusable(t.sessions[r.i], now)
    ensures r.Hit? ==> !Reusable(t.sessions[r.i], now) && t.sessions[r.i].key == key
    decreases PROBES - n
  {
    if n >= PROBES then FlowTable.Full
    else
      var i := (hash + n) % MAX_ICMP_SESSIONS;
      if Reusable(t.sessions[i], now) then FlowTable.Take(i)
      else if t.sessions[i].key == key then FlowTable.Hit(i)
      else Probe(t, key, hash, now, n + 1)
  }

  /** Slot i gives up its identifier and becomes inactive. */
  function Release(t: Table, i: nat): (r: Table)
    requires Shaped(t) && i < MAX_ICMP_SESSIONS
    ensures Shaped(r)
  {
    var s := t.sessions[i];
    if !s.active then t
    else t.(sessions := t.sessions[i := s.(active := false)],
            index := if t.index[s.ext] == i then t.index[s.ext := -1] else t.index)
  }

  function Touch(t: Table, i: nat, now: Tick): (r: Table)
    requires Shaped(t) && i < MAX_ICMP_SESSIONS
    ensures Shaped(r)
  {
    t.(sessions := t.sessions[i := t.sessions[i].(last := now)])
  }

  /** Slot i is taken over by `key`; when no identifier can be had it is left inactive. */
  function Replace(t: Table, i: nat, key: EchoKey, now: Tick): (r: (Table, Word))
    requires Shaped(t) && i < MAX_ICMP_SESSIONS
    ensures Shaped(r.0)
  {
    var (id, u) := Allocate(Release(t, i), 0);
    if id == 0 then (u, 0)
    else (u.(sessions := u.sessions[i := Echo(key, id, now, true)], index := u.index[id := i]), id)
  }

  /** An outbound echo request: the table after it, and the external identifier or 0. */
  function Outbound(t: Table, key: EchoKey, hash: nat, now: Tick): (r: (Table, Word))
    requires Shaped(t)
    ensures Shaped(r.0)
  {
    match Probe(t, key, hash, now, 0)
    case Take(i) => Replace(t, i, key, now)
    case Hit(i) => (Touch(t, i, now), t.sessions[i].ext)
    case Full => (t, 0)
  }

  function Admits(t: Table, src: Addr, id: Word): (i: int)
    requires Shaped(t)
    ensures -1 <= i < MAX_ICMP_SESSIONS
  {
    var i := t.index[id];
    if i < 0 || i >= MAX_ICMP_SESSIONS then -1
    else
      var s := t.sessions[i];
      if s.active && s.key.daddr == src && s.ext == id then i else -1
  }

  function Inbound(t: Table, src: Addr, id: Word, now: Tick): (r: (Table, int))
    requires Shaped(t)
    ensures Shaped(r.0) && -1 <= r.1 < MAX_ICMP_SESSIONS
  {
    var i := Admits(t, src, id);
    (if i < 0 then t else Touch(t, i, now), i)
  }

  function Empty(): (t: Table)
    ensures Shaped(t)
  {
    Table(seq(MAX_ICMP_SESSIONS, _ => Echo(EchoKey(0, 0, 0), 0, 0, false)), seq(0x1_0000, _ => -1), 25000)
  }

  // ----- The identifier index is exact -----

  ghost predicate Carries(sessions: seq<Echo>, i: nat, p: nat)
    requires i < |sessions|
  {
    sessions[i].active && sessions[i].ext == p
  }

  /** Slot i is active with identifier p if and only if the index maps p to i. */
  ghost predicate ExactIndex(sessions: seq<Echo>, index: seq<int>)
    requires |sessions| == MAX_ICMP_SESSIONS && |index| == 0x1_0000
  {
    && (forall p: nat | p < 0x1_0000 :: -1 <= index[p] < MAX_ICMP_SESSIONS)
    && (forall i: nat, p: nat | i < MAX_ICMP_SESSIONS && p < 0x1_0000 :: index[p] == i <==> Carries(sessions, i, p))
    && (forall i: nat | i < MAX_ICMP_SESSIONS && sessions[i].active ::
          10000 <= sessions[i].ext <= 60000)
  }

  ghost predicate Exact(t: Table) {
    Shaped(t) && ExactIndex(t.sessions, t.index)
  }

  lemma EmptyIsExact()
    ensures Exact(Empty())
  {
  }

  /** In particular two active sessions never share an identifier. */
  lemma IdsAreDistinct(t: Table, i: nat, j: nat)
    requires Exact(t) && i < MAX_ICMP_SESSIONS && j < MAX_ICMP_SESSIONS && i != j
    ensures t.sessions[i].active && t.sessions[j].active ==> t.sessions[i].ext != t.sessions[j].ext
  {
    assert t.index[t.sessions[i].ext] == i <==> Carries(t.sessions, i, t.sessions[i].ext);
    assert t.index[t.sessions[i].ext] == j <==> Carries(t.sessions, j, t.sessions[i].ext);
  }

  lemma ReleaseKeepsExact(t: Table, i: nat)
    requires Exact(t) && i < MAX_ICMP_SESSIONS
    ensures Exact(Release(t, i)) && !Release(t, i).sessions[i].active
  {
    var r := Release(t, i);
    forall j: nat, p: nat | j < MAX_ICMP_SESSIONS && p < 0x1_0000
      ensures r.index[p] == j <==> Carries(r.sessions, j, p)
    {
      assert t.index[p] == j <==> Carries(t.sessions, j, p);
      assert t.index[p] == i <==> Carries(t.sessions, i, p);
    }
  }

  /** The allocator moves only its cursor, and what it returns is in range and in no one's use. */
  lemma {:induction false} AllocateKeepsExact(t: Table, n: nat)
    requires Exact(t)
    ensures var (id, u) := Allocate(t, n);
            && u == t.(cursor := u.cursor) && Exact(u)
            && (id != 0 ==> 10000 <= id <= 60000 && t.index[id] == -1)
    decreases ATTEMPTS - n
  {
    if n < ATTEMPTS {
      if t.index[t.cursor] >= 0 {
        assert Carries(t.sessions, t.index[t.cursor], t.cursor);
        AllocateKeepsExact(t.(cursor := FlowTable.NextPort(t.cursor)), n + 1);
      }
    }
  }

  /** Every echo request keeps the index exact: through expiry, reclaim and failed allocation. */
  lemma OutboundKeepsExact(t: Table, key: EchoKey, hash: nat, now: Tick)
    requires Exact(t)
    ensures Exact(Outbound(t, key, hash, now).0)
  {
    var found := Probe(t, key, hash, now, 0);
    if found.Take? {
      ReplaceKeepsExact(t, found.i, key, now);
    } else if found.Hit? {
      TouchKeepsExact(t, found.i, now);
    }
  }

  lemma ReplaceKeepsExact(t: Table, i: nat, key: EchoKey, now: Tick)
    requires Exact(t) && i < MAX_ICMP_SESSIONS
    ensures Exact(Replace(t, i, key, now).0)
  {
    ReleaseKeepsExact(t, i);
    AllocateKeepsExact(Release(t, i), 0);
    var (id, u) := Allocate(Release(t, i), 0);
    if id != 0 {
      var r := Replace(t, i, key, now).0;
      forall j: nat, p: nat | j < MAX_ICMP_SESSIONS && p < 0x1_0000
        ensures r.index[p] == j <==> Carries(r.sessions, j, p)
      {
        assert u.index[p] == j <==> Carries(u.sessions, j, p);
        assert u.index[p] == i <==> Carries(u.sessions, i, p);
      }
    }
  }

  lemma TouchKeepsExact(t: Table, i: nat, now: Tick)
    requires Exact(t) && i < MAX_ICMP_SESSIONS
    ensures Exact(Touch(t, i, now))
  {
    forall j: nat, p: nat | j < MAX_ICMP_SESSIONS && p < 0x1_0000
      ensures Touch(t, i, now).index[p] == j <==> Carries(Touch(t, i, now).sessions, j, p)
    {
      assert t.index[p] == j <==> Carries(t.sessions, j, p);
    }
  }

  // ----- Allocation succeeds by pigeonhole -----

  ghost function ActiveSlots(t: Table): set<nat>
    requires Shaped(t)
  {
    set i: nat | i < MAX_ICMP_SESSIONS && t.sessions[i].active
  }

  /** The identifier that attempt k of an allocation from cursor c looks at. */
  function Candidate(c: nat, k: nat): nat
    requires 10000 <= c <= 60000
  {
    10000 + (c - 10000 + k) % 50001
  }

  lemma NextCandidate(c: nat, k: nat)
    requires 10000 <= c <= 60000
    ensures Candidate(FlowTable.NextPort(c), k) == Candidate(c, k + 1)
  {
  }

  /** Allocation fails exactly when all the candidates left are in use. */
  lemma {:induction false} AllocateFailsIff(t: Table, n: nat)
    requires Exact(t) && n <= 512
    ensures Allocate(t, n).0 == 0
       <==> forall k: nat :: k < 512 - n ==> t.index[Candidate(t.cursor, k)] >= 0
    decreases 512 - n
  {
    if n < 512 {
      var c := t.cursor;
      var next := t.(cursor := FlowTable.NextPort(c));
      assert Candidate(c, 0) == c;
      if t.index[c] >= 0 {
        assert Carries(t.sessions, t.index[c], c);
        AllocateFailsIff(next, n + 1);
        forall k: nat
          ensures Candidate(next.cursor, k) == Candidate(c, k + 1)
        {
          NextCandidate(c, k);
        }
        assert forall k: nat :: 0 < k < 512 - n ==> Candidate(c, k) == Candidate(next.cursor, k - 1);
      }
    }
  }

  lemma CandidatesDiffer(c: nat, j: nat, k: nat)
    requires 10000 <= c <= 60000 && j < k < 50001
    ensures Candidate(c, j) != Candidate(c, k)
  {
  }

  /** Busy candidates name different active sessions, because they are different identifiers. */
  lemma {:induction false} BusyCandidates(t: Table, m: nat) returns (slots: set<nat>)
    requires Exact(t) && m <= 512
    requires forall k: nat :: k < m ==> t.index[Candidate(t.cursor, k)] >= 0
    ensures |slots| == m && slots <= ActiveSlots(t)
    ensures forall i :: i in slots ==> exists k: nat :: k < m && t.index[Candidate(t.cursor, k)] == i
  {
    if m == 0 {
      slots := {};
    } else {
      var rest := BusyCandidates(t, m - 1);
      var p := Candidate(t.cursor, m - 1);
      var i := t.index[p];
      assert Carries(t.sessions, i, p);
      forall k: nat | k < m - 1
        ensures t.index[Candidate(t.cursor, k)] != i
      {
        CandidatesDiffer(t.cursor, k, m - 1);
        assert t.index[Candidate(t.cursor, k)] == i <==> Carries(t.sessions, i, Candidate(t.cursor, k));
      }
      slots := rest + {i};
    }
  }

  /** With fewer than 512 active sessions the allocator always finds an identifier. */
  lemma AllocateSucceeds(t: Table)
    requires Exact(t) && |ActiveSlots(t)| < 512
    ensures 10000 <= Allocate(t, 0).0 <= 60000
    ensures t.index[Allocate(t, 0).0] == -1
  {
    AllocateKeepsExact(t, 0);
    if Allocate(t, 0).0 == 0 {
      AllocateFailsIff(t, 0);
      var slots := BusyCandidates(t, 512);
      SubsetSize(slots, ActiveSlots(t));
      assert false;
    }
  }

  lemma {:induction false} SubsetSize(a: set<nat>, b: set<nat>)
    requires a <= b
    ensures |a| <= |b|
    decreases a
  {
    if a != {} {
      var x :| x in a;
      SubsetSize(a - {x}, b - {x});
    }
  }

  // ----- When a request finds no room, and what an admitted reply refreshes -----

  predicate InUseByOther(s: Echo, key: EchoKey, now: Tick) {
    s.active && (now - s.last) % 0x1_0000_0000 <= 300 && s.key != key
  }

  /** Step k of the probe from `hash` on finds a slot in use by another. */
  predicate Blocked(t: Table, key: EchoKey, hash: nat, now: Tick, k: nat)
    requires Shaped(t)
  {
    InUseByOther(t.sessions[(hash + k) % 4096], key, now)
  }

  lemma {:induction false} ProbeFullIff(t: Table, key: EchoKey, hash: nat, now: Tick, n: nat)
    requires Shaped(t) && n <= 32
    ensures Probe(t, key, hash, now, n).Full?
       <==> forall k: nat | n <= k < 32 :: Blocked(t, key, hash, now, k)
    decreases 32 - n
  {
    if n < 32 {
      if Blocked(t, key, hash, now, n) {
        ProbeFullIff(t, key, hash, now, n + 1);
      }
    }
  }

  /** Every one of the 512 identifiers from the cursor on is in use by some slot other than i. */
  ghost predicate NoneFree(t: Table, i: nat)
    requires Exact(t)
  {
    forall k: nat | k < 512 :: t.index[Candidate(t.cursor, k)] >= 0 && t.index[Candidate(t.cursor, k)] != i
  }

  /** In every reachable table a request is refused if and only if the 32 slots from its hash on are in use
      by others, or it finds a slot and no identifier; otherwise it gets one from 10000 to 60000. Without an
      identifier the slot it found is left inactive, and no other session changes. */
  lemma RefusedIff(t: Table, key: EchoKey, hash: nat, now: Tick)
    requires Exact(t)
    ensures var id, found := Outbound(t, key, hash, now).1, Probe(t, key, hash, now, 0);
            && (id == 0 <==> || (forall k: nat | k < 32 :: Blocked(t, key, hash, now, k))
                             || (found.Take? && NoneFree(t, found.i)))
            && (id != 0 ==> 10000 <= id <= 60000)
            && (id == 0 ==> Outbound(t, key, hash, now).0.sessions
                            == if found.Take? then Deactivated(t, found.i) else t.sessions)
  {
    ProbeFullIff(t, key, hash, now, 0);
    var found := Probe(t, key, hash, now, 0);
    if found.Take? {
      ReplaceFailsIff(t, found.i, key, now);
    }
  }

  function Deactivated(t: Table, i: nat): seq<Echo>
    requires Shaped(t) && i < MAX_ICMP_SESSIONS
  {
    t.sessions[i := t.sessions[i].(active := false)]
  }

  lemma ReplaceFailsIff(t: Table, i: nat, key: EchoKey, now: Tick)
    requires Exact(t) && i < MAX_ICMP_SESSIONS
    ensures var id := Replace(t, i, key, now).1;
            && (id == 0 <==> NoneFree(t, i)) && (id != 0 ==> 10000 <= id <= 60000)
            && (id == 0 ==> Replace(t, i, key, now).0.sessions == Deactivated(t, i))
  {
    var r := Release(t, i);
    ReleaseKeepsExact(t, i);
    AllocateKeepsExact(r, 0);
    AllocateFailsIff(r, 0);
    forall k: nat | k < 512
      ensures r.index[Candidate(t.cursor, k)] >= 0
         <==> t.index[Candidate(t.cursor, k)] >= 0 && t.index[Candidate(t.cursor, k)] != i
    {
      ReleasedIndex(t, i, Candidate(t.cursor, k));
    }
  }

  lemma ReleasedIndex(t: Table, i: nat, p: nat)
    requires Exact(t) && i < MAX_ICMP_SESSIONS && p < 0x1_0000
    ensures Release(t, i).index[p] >= 0 <==> t.index[p] >= 0 && t.index[p] != i
  {
    assert t.index[p] == i <==> Carries(t.sessions, i, p);
    assert t.index[t.sessions[i].ext] == i <==> Carries(t.sessions, i, t.sessions[i].ext);
  }

  /** An admitted reply makes its session as good as new, and changes nothing else. */
  lemma InboundRefreshes(t: Table, src: Addr, id: Word, now: Tick)
    requires Shaped(t)
    ensures var (u, i) := Inbound(t, src, id, now);
            && (i < 0 ==> u == t)
            && (i >= 0 ==> FlowTable.Age(now, u.sessions[i].last) == 0
                           && u == t.(sessions := t.sessions[i := t.sessions[i].(last := now)]))
  {
    FlowTable.OneTickOlder(now, now);
  }
}
