/** The DHCP lease table: a pool of consecutive addresses, each leased to one hardware address. */
module DhcpLeases {
  import opened Bytes

  const MAX_POOL_SIZE: nat := 253

  type Mac = m: seq<Byte> | |m| == 6 witness [0, 0, 0, 0, 0, 0]

  datatype Lease = Lease(mac: Mac, ip: Addr, active: bool, expiry: int)

  /** The table; only the first `count` slots are in the pool. Times are clock ticks. */
  datatype Table = Table(leases: seq<Lease>, count: nat, duration: int)

  predicate Shaped(t: Table) { |t.leases| == MAX_POOL_SIZE && t.count <= MAX_POOL_SIZE }

  /** The first pool slot from i on that is active for `mac`, or count. */
  function FirstOf(t: Table, mac: Mac, i: nat): (r: nat)
    requires Shaped(t) && i <= t.count
    ensures i <= r <= t.count
    ensures r < t.count ==> t.leases[r].active && t.leases[r].mac == mac
    ensures forall k :: i <= k < r ==> !(t.leases[k].active && t.leases[k].mac == mac)
    decreases t.count - i
  {
    if i == t.count || (t.leases[i].active && t.leases[i].mac == mac) then i else FirstOf(t, mac, i + 1)
  }

  predicate Vacant(l: Lease, now: int) { !l.active || now > l.expiry }

  /** The first pool slot from i on that is unused or expired, or count. */
  function FirstVacant(t: Table, now: int, i: nat): (r: nat)
    requires Shaped(t) && i <= t.count
    ensures i <= r <= t.count
    ensures r < t.count ==> Vacant(t.leases[r], now)
    ensures forall k :: i <= k < r ==> !Vacant(t.leases[k], now)
    decreases t.count - i
  {
    if i == t.count || Vacant(t.leases[i], now) then i else FirstVacant(t, now, i + 1)
  }

  /** The first pool slot from i on with address `ip`, or count. */
  function FirstWith(t: Table, ip: Addr, i: nat): (r: nat)
    requires Shaped(t) && i <= t.count
    ensures i <= r <= t.count
    ensures r < t.count ==> t.leases[r].ip == ip
    ensures forall k :: i <= k < r ==> t.leases[k].ip != ip
    decreases t.count - i
  {
    if i == t.count || t.leases[i].ip == ip then i else FirstWith(t, ip, i + 1)
  }

  function InitPool(t: Table, start: Addr, end: Addr): (r: (Table, bool))
    requires Shaped(t)
    ensures Shaped(r.0)
  {
    if end < start then (t, false)
    else
      var n := if end - start + 1 < MAX_POOL_SIZE then end - start + 1 else MAX_POOL_SIZE;
      (Table(seq(MAX_POOL_SIZE, i requires 0 <= i < MAX_POOL_SIZE =>
                   if i < n then t.leases[i].(ip := start + i, active := false) else t.leases[i]),
             n, t.duration), true)
  }

  function Reconfigure(t: Table, start: Addr, end: Addr, duration: int): (r: (Table, bool))
    requires Shaped(t)
    ensures Shaped(r.0)
  {
    InitPool(t.(duration := duration), start, end)
  }

  /** The address `mac` holds or is given, or 0. */
  function FindOrAssign(t: Table, mac: Mac, now: int): (r: (Table, Addr))
    requires Shaped(t)
    ensures Shaped(r.0) && r.0.count == t.count && r.0.duration == t.duration
  {
    var i := FirstOf(t, mac, 0);
    if i < t.count then (t, t.leases[i].ip)
    else
      var j := FirstVacant(t, now, 0);
      if j < t.count then
        var l := t.leases[j].(mac := mac, active := true, expiry := now + t.duration);
        (t.(leases := t.leases[j := l]), l.ip)
      else (t, 0)
  }

  function Commit(t: Table, ip: Addr, now: int): (r: Table)
    requires Shaped(t)
    ensures Shaped(r) && r.count == t.count && r.duration == t.duration
  {
    var i := FirstWith(t, ip, 0);
    if i < t.count then t.(leases := t.leases[i := t.leases[i].(active := true, expiry := now + t.duration)]) else t
  }

  datatype Reply = Silent | Offer(ip: Addr) | Ack(ip: Addr) | Nak(ip: Addr)

  datatype Event =
    | Discover(mac: Mac, now: int)
    | Request(mac: Mac, wanted: Addr, ciaddr: Addr, now: int, later: int)
    | Configure(start: Addr, end: Addr, duration: int)

  function Asked(ev: Event): Addr
    requires ev.Request?
  {
    if ev.wanted == 0 then ev.ciaddr else ev.wanted
  }

  function Step(t: Table, ev: Event): (r: (Table, Reply))
    requires Shaped(t)
    ensures Shaped(r.0)
  {
    match ev
    case Discover(mac, now) =>
      var (u, ip) := FindOrAssign(t, mac, now);
      (u, if ip != 0 then Offer(ip) else Silent)
    case Request(mac, wanted, ciaddr, now, later) =>
      var (u, ip) := FindOrAssign(t, mac, now);
      if ip == Asked(ev) then (Commit(u, ip, later), Ack(ip)) else (u, Nak(Asked(ev)))
    case Configure(start, end, duration) => (Reconfigure(t, start, end, duration).0, Silent)
  }

  function Run(t: Table, evs: seq<Event>): (r: Table)
    requires Shaped(t)
    ensures Shaped(r)
  {
    if evs == [] then t else Step(Run(t, evs[..|evs| - 1]), evs[|evs| - 1]).0
  }

  // ----- What every state keeps -----

  /** The pool slots have distinct addresses: consecutive ones from some start. */
  ghost predicate Consecutive(t: Table, start: nat)
    requires Shaped(t)
  {
    forall i | 0 <= i < t.count :: t.leases[i].ip == start + i
  }

  /** No hardware address holds two pool slots. */
  ghost predicate DistinctMacs(t: Table)
    requires Shaped(t)
  {
    forall i, j | 0 <= i < j < t.count && t.leases[i].active && t.leases[j].active ::
      t.leases[i].mac != t.leases[j].mac
  }

  ghost predicate Inv(t: Table) {
    Shaped(t) && DistinctMacs(t) && exists start: nat :: Consecutive(t, start)
  }

  /** Successful configuration: the pool is start, start + 1, ... within end, and empty. */
  lemma PoolWithinRange(t: Table, start: Addr, end: Addr, duration: int)
    requires Shaped(t)
    ensures Reconfigure(t, start, end, duration).1 <==> start <= end
    ensures start <= end ==>
              var u := Reconfigure(t, start, end, duration).0;
              && Inv(u) && Consecutive(u, start) && u.count >= 1
              && (u.count == 253 || start + u.count - 1 == end) && u.count <= 253
              && forall i | 0 <= i < u.count :: start <= u.leases[i].ip <= end && !u.leases[i].active
  {
    if start <= end {
      assert Consecutive(Reconfigure(t, start, end, duration).0, start);
    }
  }

  lemma DistinctAddresses(t: Table, i: nat, j: nat)
    requires Inv(t) && i < t.count && j < t.count && t.leases[i].ip == t.leases[j].ip
    ensures i == j
  {
    var start: nat :| Consecutive(t, start);
  }

  lemma FindKeepsInv(t: Table, mac: Mac, now: int)
    requires Inv(t)
    ensures Inv(FindOrAssign(t, mac, now).0)
  {
    var start: nat :| Consecutive(t, start);
    assert Consecutive(FindOrAssign(t, mac, now).0, start);
  }

  /** A slot with the address that was found is active already. */
  lemma FoundIsActive(t: Table, mac: Mac, now: int, i: nat)
    requires Inv(t) && i < t.count
    requires t.leases[i].ip == FindOrAssign(t, mac, now).1
    ensures FindOrAssign(t, mac, now).0.leases[i].active
  {
    var k := FirstOf(t, mac, 0);
    var j := FirstVacant(t, now, 0);
    if k < t.count {
      DistinctAddresses(t, i, k);
    } else if j < t.count {
      DistinctAddresses(t, i, j);
    }
  }

  lemma CommitKeepsInv(t: Table, ip: Addr, now: int)
    requires Inv(t) && forall i | 0 <= i < t.count && t.leases[i].ip == ip :: t.leases[i].active
    ensures Inv(Commit(t, ip, now))
  {
    var start: nat :| Consecutive(t, start);
    assert Consecutive(Commit(t, ip, now), start);
  }

  lemma StepKeepsInv(t: Table, ev: Event)
    requires Inv(t)
    ensures Inv(Step(t, ev).0)
  {
    if ev.Configure? {
      if ev.start <= ev.end {
        PoolWithinRange(t, ev.start, ev.end, ev.duration);
      } else {
        var start: nat :| Consecutive(t, start);
        assert Consecutive(t.(duration := ev.duration), start);
      }
    } else {
      FindKeepsInv(t, ev.mac, ev.now);
      if ev.Request? {
        var (u, ip) := FindOrAssign(t, ev.mac, ev.now);
        forall i | 0 <= i < u.count && u.leases[i].ip == ip
          ensures u.leases[i].active
        {
          FoundIsActive(t, ev.mac, ev.now, i);
        }
        CommitKeepsInv(u, ip, ev.later);
      }
    }
  }

  lemma {:induction false} RunKeepsInv(t: Table, evs: seq<Event>)
    requires Inv(t)
    ensures Inv(Run(t, evs))
  {
    if evs != [] {
      RunKeepsInv(t, evs[..|evs| - 1]);
      StepKeepsInv(Run(t, evs[..|evs| - 1]), evs[|evs| - 1]);
    }
  }

  // ----- Exclusivity -----

  /** `ip` is leased to `mac`, in time or not: its slot is active with that hardware address. */
  ghost predicate Owns(t: Table, ip: Addr, mac: Mac)
    requires Shaped(t)
  {
    exists i :: 0 <= i < t.count && OwnsAt(t, i, ip, mac)
  }

  predicate OwnsAt(t: Table, i: nat, ip: Addr, mac: Mac)
    requires Shaped(t) && i < t.count
  {
    t.leases[i].active && t.leases[i].ip == ip && t.leases[i].mac == mac
  }

  /** The pool slot of an address, and the expiry that the table records for it. */
  function SlotOf(t: Table, ip: Addr): nat
    requires Shaped(t)
  {
    FirstWith(t, ip, 0)
  }

  function ExpiryOf(t: Table, ip: Addr): int
    requires Shaped(t)
  {
    if SlotOf(t, ip) < t.count then t.leases[SlotOf(t, ip)].expiry else 0
  }

  lemma OwnedSlot(t: Table, i: nat, ip: Addr, mac: Mac)
    requires Inv(t) && i < t.count && OwnsAt(t, i, ip, mac)
    ensures SlotOf(t, ip) == i == FirstOf(t, mac, 0)
  {
    DistinctAddresses(t, i, SlotOf(t, ip));
  }

  /** Does the reply give `ip` to someone? */
  predicate Gives(r: Reply, ip: Addr) { (r.Offer? || r.Ack?) && r.ip == ip }

  /** The server finds, or assigns, `ip` for the sender, whatever it then replies. */
  predicate Assigns(t: Table, ev: Event, ip: Addr)
    requires Shaped(t)
  {
    !ev.Configure? && FindOrAssign(t, ev.mac, ev.now).1 == ip
  }

  /** The event asks to renew `ip` for its owner `mac`; such a request is always acknowledged. */
  predicate Renews(ev: Event, ip: Addr, mac: Mac) { ev.Request? && ev.mac == mac && Asked(ev) == ip }

  /** An acknowledged address belongs to that client, for a whole lease time. */
  lemma AckHolds(t: Table, ev: Event, u: Table, ip: Addr)
    requires Inv(t) && ev.Request? && Step(t, ev) == (u, Ack(ip)) && ip != 0
    ensures Inv(u) && Owns(u, ip, ev.mac) && ExpiryOf(u, ip) == ev.later + t.duration
  {
    var v := FindOrAssign(t, ev.mac, ev.now).0;
    var k, j := FirstOf(t, ev.mac, 0), FirstVacant(t, ev.now, 0);
    var i := if k < t.count then k else j;
    FindKeepsInv(t, ev.mac, ev.now);
    assert i < v.count && v.leases[i].ip == ip;
    DistinctAddresses(v, i, FirstWith(v, ip, 0));
    StepKeepsInv(t, ev);
    assert OwnsAt(u, i, ip, ev.mac);
    OwnedSlot(u, i, ip, ev.mac);
  }

  /** In every reachable table a commit renews the one slot with the address. */
  lemma CommitRenews(t: Table, i: nat, now: int)
    requires Inv(t) && i < t.count
    ensures Commit(t, t.leases[i].ip, now)
         == t.(leases := t.leases[i := t.leases[i].(active := true, expiry := now + t.duration)])
  {
    DistinctAddresses(t, i, FirstWith(t, t.leases[i].ip, 0));
  }

  /** An offered address belongs to that client; a new lease runs for a whole lease time, and an offer
      repeated to the owner does not renew it. */
  lemma OfferHolds(t: Table, ev: Event, u: Table, ip: Addr)
    requires Inv(t) && ev.Discover? && Step(t, ev) == (u, Offer(ip))
    ensures Inv(u) && ip != 0 && Owns(u, ip, ev.mac)
    ensures if FirstOf(t, ev.mac, 0) == t.count then ExpiryOf(u, ip) == ev.now + t.duration else u == t
  {
    var k, j := FirstOf(t, ev.mac, 0), FirstVacant(t, ev.now, 0);
    var i := if k < t.count then k else j;
    StepKeepsInv(t, ev);
    assert OwnsAt(u, i, ip, ev.mac);
    OwnedSlot(u, i, ip, ev.mac);
  }

  /** An owned address is assigned to another client if and only if its lease has expired, that client
      has no lease, and every earlier slot is in use. */
  lemma AssignedIff(t: Table, ev: Event, ip: Addr, mac: Mac)
    requires Inv(t) && Owns(t, ip, mac) && ip != 0 && !ev.Configure? && ev.mac != mac
    ensures Assigns(t, ev, ip)
       <==> && ev.now > ExpiryOf(t, ip) && FirstOf(t, ev.mac, 0) == t.count
            && forall k | 0 <= k < SlotOf(t, ip) :: !Vacant(t.leases[k], ev.now)
    ensures Gives(Step(t, ev).1, ip) <==> Assigns(t, ev, ip) && (ev.Request? ==> Asked(ev) == ip)
  {
    var i :| 0 <= i < t.count && OwnsAt(t, i, ip, mac);
    OwnedSlot(t, i, ip, mac);
    var k, j := FirstOf(t, ev.mac, 0), FirstVacant(t, ev.now, 0);
    forall m: nat | m < t.count && t.leases[m].ip == ip
      ensures m == i
    {
      DistinctAddresses(t, i, m);
    }
  }

  /** Through everything but a successful configuration and an assignment to another client, the owner
      keeps the address, and only its own acknowledged renewal moves the expiry. */
  lemma StepTracksExpiry(t: Table, ev: Event, ip: Addr, mac: Mac)
    requires Inv(t) && Owns(t, ip, mac) && ip != 0
    requires ev.Configure? ==> ev.end < ev.start
    requires !ev.Configure? && ev.mac != mac ==> !Assigns(t, ev, ip)
    ensures var u := Step(t, ev).0;
            Inv(u) && Owns(u, ip, mac)
            && ExpiryOf(u, ip) == if Renews(ev, ip, mac) then ev.later + t.duration else ExpiryOf(t, ip)
    ensures ev.Request? && ev.mac == mac ==> (Step(t, ev).1 == Ack(ip) <==> Renews(ev, ip, mac))
  {
    var i :| 0 <= i < t.count && OwnsAt(t, i, ip, mac);
    OwnedSlot(t, i, ip, mac);
    StepKeepsInv(t, ev);
    var u := Step(t, ev).0;
    if !ev.Configure? {
      FindKeepsInv(t, ev.mac, ev.now);
      OtherSlotUntouched(t, ev, i, mac);
    }
    assert OwnsAt(u, i, ip, mac);
    OwnedSlot(u, i, ip, mac);
  }

  lemma OtherSlotUntouched(t: Table, ev: Event, i: nat, mac: Mac)
    requires Inv(t) && i < t.count && OwnsAt(t, i, t.leases[i].ip, mac) && !ev.Configure? && t.leases[i].ip != 0
    requires ev.mac != mac ==> !Assigns(t, ev, t.leases[i].ip)
    ensures var l, u := t.leases[i], Step(t, ev).0;
            u.count == t.count
            && u.leases[i] == if Renews(ev, l.ip, mac) then l.(expiry := ev.later + t.duration) else l
  {
    var ip := t.leases[i].ip;
    OwnedSlot(t, i, ip, mac);
    var v := FindOrAssign(t, ev.mac, ev.now).0;
    assert v.leases[i] == t.leases[i];
    if ev.Request? {
      FindKeepsInv(t, ev.mac, ev.now);
      OwnedSlot(v, i, ip, mac);
    }
  }

  /** The expiry of the last acknowledged renewal of the run, or the one at its start. */
  function LastExpiry(t: Table, evs: seq<Event>, ip: Addr, mac: Mac): int
    requires Shaped(t)
  {
    if evs == [] then ExpiryOf(t, ip)
    else
      var before, ev := evs[..|evs| - 1], evs[|evs| - 1];
      if Renews(ev, ip, mac) then ev.later + Run(t, before).duration else LastExpiry(t, before, ip, mac)
  }

  /** Event k of the run assigns `ip` to someone other than `mac`. */
  ghost predicate Loses(t: Table, evs: seq<Event>, k: nat, ip: Addr, mac: Mac)
    requires Shaped(t) && k < |evs|
  {
    !evs[k].Configure? && evs[k].mac != mac && Assigns(Run(t, evs[..k]), evs[k], ip)
  }

  /** No configuration of the run succeeds. */
  predicate SamePool(evs: seq<Event>) { forall k | 0 <= k < |evs| :: evs[k].Configure? ==> evs[k].end < evs[k].start }

  /** In every run without a successful configuration, until the address is assigned to another client,
      its owner keeps it, and at any time it is vacant if and only if the expiry of the last acknowledged
      renewal has passed. */
  lemma {:induction false} OwnerKeepsAddress(t: Table, evs: seq<Event>, ip: Addr, mac: Mac)
    requires Inv(t) && Owns(t, ip, mac) && ip != 0 && SamePool(evs)
    requires forall k | 0 <= k < |evs| :: !Loses(t, evs, k, ip, mac)
    ensures var u := Run(t, evs);
            && Inv(u) && Owns(u, ip, mac) && ExpiryOf(u, ip) == LastExpiry(t, evs, ip, mac)
            && SlotOf(u, ip) < u.count
            && forall now :: Vacant(u.leases[SlotOf(u, ip)], now) <==> now > LastExpiry(t, evs, ip, mac)
  {
    if evs != [] {
      var n := |evs| - 1;
      forall k | 0 <= k < n
        ensures !Loses(t, evs[..n], k, ip, mac)
      {
        assert evs[..n][..k] == evs[..k];
        assert !Loses(t, evs, k, ip, mac);
      }
      OwnerKeepsAddress(t, evs[..n], ip, mac);
      assert !Loses(t, evs, n, ip, mac);
      StepTracksExpiry(Run(t, evs[..n]), evs[n], ip, mac);
    }
    var i :| 0 <= i < Run(t, evs).count && OwnsAt(Run(t, evs), i, ip, mac);
    OwnedSlot(Run(t, evs), i, ip, mac);
  }

  /** Exactly when the owner loses it: the first event that assigns the address to another client is one
      after the expiry of the last acknowledged renewal, by a client without a lease, with every earlier
      slot in use; and every such event does. */
  lemma LosesIff(t: Table, evs: seq<Event>, k: nat, ip: Addr, mac: Mac)
    requires Inv(t) && Owns(t, ip, mac) && ip != 0 && SamePool(evs) && k < |evs|
    requires forall j | 0 <= j < k :: !Loses(t, evs, j, ip, mac)
    ensures var u := Run(t, evs[..k]);
            Loses(t, evs, k, ip, mac)
            <==> && !evs[k].Configure? && evs[k].mac != mac
                 && evs[k].now > LastExpiry(t, evs[..k], ip, mac) && FirstOf(u, evs[k].mac, 0) == u.count
                 && forall j | 0 <= j < SlotOf(u, ip) :: !Vacant(u.leases[j], evs[k].now)
  {
    forall j | 0 <= j < k
      ensures !Loses(t, evs[..k], j, ip, mac)
    {
      assert evs[..k][..j] == evs[..j];
      assert !Loses(t, evs, j, ip, mac);
    }
    OwnerKeepsAddress(t, evs[..k], ip, mac);
    if !evs[k].Configure? && evs[k].mac != mac {
      AssignedIff(Run(t, evs[..k]), evs[k], ip, mac);
    }
  }

  /** The last event of the run gives `ip` to someone other than `mac`. */
  ghost predicate GivenToAnother(t: Table, evs: seq<Event>, ip: Addr, mac: Mac)
    requires Shaped(t)
  {
    && evs != [] && !evs[|evs| - 1].Configure? && evs[|evs| - 1].mac != mac
    && Gives(Step(Run(t, evs[..|evs| - 1]), evs[|evs| - 1]).1, ip)
  }

  /** Event k is the first to assign the address to another client, and comes after its expiry. */
  ghost predicate LostAfterExpiry(t: Table, evs: seq<Event>, k: nat, ip: Addr, mac: Mac)
    requires Shaped(t) && k < |evs|
  {
    && Loses(t, evs, k, ip, mac) && evs[k].now > LastExpiry(t, evs[..k], ip, mac)
    && forall j | 0 <= j < k :: !Loses(t, evs, j, ip, mac)
  }

  lemma {:induction false} FirstLoss(t: Table, evs: seq<Event>, n: nat, ip: Addr, mac: Mac) returns (k: nat)
    requires Shaped(t) && n < |evs| && Loses(t, evs, n, ip, mac)
    ensures k < |evs| && Loses(t, evs, k, ip, mac) && forall j | 0 <= j < k :: !Loses(t, evs, j, ip, mac)
  {
    if j :| 0 <= j < n && Loses(t, evs, j, ip, mac) {
      k := FirstLoss(t, evs, j, ip, mac);
    } else {
      k := n;
    }
  }

  /** Every run without a successful configuration that ends by giving an owned address to another client
      first saw its last acknowledged expiry pass. */
  ghost predicate Exclusive(t: Table, ip: Addr, mac: Mac)
    requires Shaped(t)
  {
    forall evs: seq<Event> | SamePool(evs) && GivenToAnother(t, evs, ip, mac) ::
      exists k | 0 <= k < |evs| :: LostAfterExpiry(t, evs, k, ip, mac)
  }

  lemma OwnedIsExclusive(t: Table, ip: Addr, mac: Mac)
    requires Inv(t) && Owns(t, ip, mac) && ip != 0
    ensures Exclusive(t, ip, mac)
  {
    forall evs: seq<Event> | SamePool(evs) && GivenToAnother(t, evs, ip, mac)
      ensures exists k | 0 <= k < |evs| :: LostAfterExpiry(t, evs, k, ip, mac)
    {
      GivenIsAssigned(Run(t, evs[..|evs| - 1]), evs[|evs| - 1], ip);
      var k := FirstLoss(t, evs, |evs| - 1, ip, mac);
      LosesIff(t, evs, k, ip, mac);
      assert LostAfterExpiry(t, evs, k, ip, mac);
    }
  }

  lemma GivenIsAssigned(t: Table, ev: Event, ip: Addr)
    requires Shaped(t) && Gives(Step(t, ev).1, ip)
    ensures Assigns(t, ev, ip)
  {
  }

  /** After an ACK of a non-zero address: it is the client's for a lease time, and no other client is
      offered or acknowledged it before the last acknowledged expiry has passed. */
  lemma AckIsExclusive(t: Table, ack: Event, u: Table, ip: Addr)
    requires Inv(t) && ack.Request? && Step(t, ack) == (u, Ack(ip)) && ip != 0
    ensures ExpiryOf(u, ip) == ack.later + t.duration && Exclusive(u, ip, ack.mac)
  {
    AckHolds(t, ack, u, ip);
    OwnedIsExclusive(u, ip, ack.mac);
  }

  /** The same from an offer, from the expiry the table records for it. */
  lemma OfferIsExclusive(t: Table, offer: Event, u: Table, ip: Addr)
    requires Inv(t) && offer.Discover? && Step(t, offer) == (u, Offer(ip))
    ensures FirstOf(t, offer.mac, 0) == t.count ==> ExpiryOf(u, ip) == offer.now + t.duration
    ensures Exclusive(u, ip, offer.mac)
  {
    OfferHolds(t, offer, u, ip);
    OwnedIsExclusive(u, ip, offer.mac);
  }

  /** A request for an address is acknowledged if the address is the client's after it, and refused with the
      address it named if not. */
  lemma AnswerToRequest(t: Table, ev: Event)
    requires Inv(t) && ev.Request? && Asked(ev) != 0
    ensures Step(t, ev).1 == if Owns(Step(t, ev).0, Asked(ev), ev.mac) then Ack(Asked(ev)) else Nak(Asked(ev))
  {
    var u := Step(t, ev).0;
    StepKeepsInv(t, ev);
    if Step(t, ev).1.Ack? {
      AckHolds(t, ev, u, Asked(ev));
    } else if i :| 0 <= i < u.count && OwnsAt(u, i, Asked(ev), ev.mac) {
      OwnedSlot(u, i, Asked(ev), ev.mac);
    }
  }

  // ----- With the lease time left alone -----

  /** The clock never goes back. */
  function Clock(t0: int, evs: seq<Event>): int {
    if evs == [] then t0
    else
      match evs[|evs| - 1]
      case Discover(_, now) => now
      case Request(_, _, _, _, later) => later
      case Configure(_, _, _) => Clock(t0, evs[..|evs| - 1])
  }

  ghost predicate Timed(t0: int, evs: seq<Event>) {
    evs != [] ==>
      var before, ev := evs[..|evs| - 1], evs[|evs| - 1];
      && Timed(t0, before)
      && (!ev.Configure? ==> Clock(t0, before) <= ev.now)
      && (ev.Request? ==> ev.now <= ev.later)
  }

  predicate SameDuration(t: Table, evs: seq<Event>) {
    forall k | 0 <= k < |evs| :: evs[k].Configure? ==> evs[k].duration == t.duration
  }

  lemma {:induction false} ExpiryNeverShrinks(t: Table, t0: int, evs: seq<Event>, ip: Addr, mac: Mac)
    requires Shaped(t) && Timed(t0, evs) && SameDuration(t, evs) && ExpiryOf(t, ip) <= t0 + t.duration
    ensures ExpiryOf(t, ip) <= LastExpiry(t, evs, ip, mac) && Run(t, evs).duration == t.duration
    ensures t0 <= Clock(t0, evs)
  {
    if evs != [] {
      ExpiryNeverShrinks(t, t0, evs[..|evs| - 1], ip, mac);
    }
  }

  lemma {:induction false} LaterEvents(t0: int, evs: seq<Event>, k: nat)
    requires Timed(t0, evs) && k < |evs| && !evs[k].Configure?
    ensures Timed(t0, evs[..k]) && evs[k].now <= Clock(t0, evs)
    ensures !evs[|evs| - 1].Configure? ==> evs[k].now <= evs[|evs| - 1].now
  {
    var n := |evs| - 1;
    if k < n {
      LaterEvents(t0, evs[..n], k);
      assert evs[..n][..k] == evs[..k];
    }
  }

  /** If the clock does not go back and no configuration succeeds or changes the lease time, then an
      address acknowledged at t0 goes to no one else before the whole lease time has passed. */
  lemma ExclusiveForLeaseTime(t: Table, t0: int, evs: seq<Event>, ip: Addr, mac: Mac)
    requires Inv(t) && Owns(t, ip, mac) && ip != 0 && ExpiryOf(t, ip) <= t0 + t.duration
    requires Timed(t0, evs) && SamePool(evs) && SameDuration(t, evs) && GivenToAnother(t, evs, ip, mac)
    ensures evs[|evs| - 1].now > ExpiryOf(t, ip)
  {
    OwnedIsExclusive(t, ip, mac);
    var k :| 0 <= k < |evs| && LostAfterExpiry(t, evs, k, ip, mac);
    LaterEvents(t0, evs, k);
    ExpiryNeverShrinks(t, t0, evs[..k], ip, mac);
  }

  // ----- A shortened lease -----

  /** A pool of the one address `ip`, leased to `mac`. */
  predicate OneLease(t: Table, ip: Addr, mac: Mac, until: int) {
    Shaped(t) && t.count == 1 && t.leases[0] == Lease(mac, ip, true, until)
  }

  /** The first lease of a pool of one address. */
  lemma FirstLease(t: Table, ip: Addr, mac: Mac, long: int, now: int)
    requires Shaped(t)
    ensures var t1 := Step(t, Configure(ip, ip, long)).0;
            && Step(t1, Request(mac, ip, 0, now, now)).1 == Ack(ip)
            && OneLease(Step(t1, Request(mac, ip, 0, now, now)).0, ip, mac, now + long)
  {
    var t1 := Step(t, Configure(ip, ip, long)).0;
    assert t1.count == 1 && t1.leases[0].ip == ip && !t1.leases[0].active;
    assert FirstOf(t1, mac, 0) == 1 && FirstVacant(t1, now, 0) == 0;
    var u := FindOrAssign(t1, mac, now).0;
    assert FirstWith(u, ip, 0) == 0;
  }

  lemma ShorterRenewal(t: Table, ip: Addr, a: Mac, b: Mac, until: int, now: int, shorter: int)
    requires OneLease(t, ip, a, until) && ip != 0 && a != b && 0 <= shorter
    ensures var t1 := Step(t, Configure(1, 0, shorter)).0;
            var t2 := Step(t1, Request(a, ip, 0, now, now)).0;
            && Step(t1, Request(a, ip, 0, now, now)).1 == Ack(ip)
            && Step(t2, Discover(b, now + shorter + 1)).1 == Offer(ip)
  {
    var t1 := Step(t, Configure(1, 0, shorter)).0;
    var t2 := Step(t1, Request(a, ip, 0, now, now)).0;
    assert FirstOf(t1, a, 0) == 0 && FirstWith(t1, ip, 0) == 0;
    assert OneLease(t2, ip, a, now + shorter);
    assert FirstOf(t2, b, 0) == 1 && FirstVacant(t2, now + shorter + 1, 0) == 0;
  }

  /** A configuration that fails still sets the lease time, so a renewal after it can cut a lease short.
      From any table: the pool is set to one address, which a client is acknowledged at `first` for the
      time `long`; a configuration with a shorter lease time fails; the client renews; and another client is
      offered the address before the time acknowledged first is over. */
  lemma ShortenedRenewalFrees(t: Table, ip: Addr, a: Mac, b: Mac, long: int, shorter: int, first: int, now: int)
    requires Shaped(t) && ip != 0 && a != b && 0 <= shorter && first <= now && now + shorter + 1 < first + long
    ensures var t1 := Step(t, Configure(ip, ip, long)).0;
            var ack := Step(t1, Request(a, ip, 0, first, first));
            var t3 := Step(ack.0, Configure(1, 0, shorter)).0;
            var again := Step(t3, Request(a, ip, 0, now, now));
            && ack.1 == Ack(ip) && ExpiryOf(ack.0, ip) == first + long && again.1 == Ack(ip)
            && Step(again.0, Discover(b, now + shorter + 1)).1 == Offer(ip)
  {
    FirstLease(t, ip, a, long, first);
    var ack := Step(Step(t, Configure(ip, ip, long)).0, Request(a, ip, 0, first, first));
    assert FirstWith(ack.0, ip, 0) == 0;
    ShorterRenewal(ack.0, ip, a, b, first + long, now, shorter);
  }

  ghost predicate Servable(t: Table, mac: Mac, now: int)
    requires Shaped(t)
  {
    exists i :: 0 <= i < t.count && ((t.leases[i].active && t.leases[i].mac == mac) || Vacant(t.leases[i], now))
  }

  /** In a pool without address zero, a client that has a lease or for whom a slot is vacant is offered
      an address; the others get no offer, and are acknowledged address zero exactly when their request
      names no address. */
  lemma WhenServed(t: Table, ev: Event)
    requires Inv(t) && !ev.Configure? && forall i | 0 <= i < t.count :: t.leases[i].ip != 0
    ensures ev.Discover? ==> (Step(t, ev).1.Offer? <==> Servable(t, ev.mac, ev.now))
    ensures ev.Request? ==>
              (Step(t, ev).1 == Ack(0) <==> !Servable(t, ev.mac, ev.now) && ev.wanted == 0 && ev.ciaddr == 0)
  {
    var k, j := FirstOf(t, ev.mac, 0), FirstVacant(t, ev.now, 0);
  }
}
