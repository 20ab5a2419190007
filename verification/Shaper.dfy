/** The traffic shaper: a queue drained at the pace of a token bucket, towards a link that sends,
    is busy, or fails, as the environment decides. */
module Shaper {
  import opened TokenBucket
  import opened PacketQueue

  datatype TxResult = Success | Congested | Fatal

  datatype State = State(queue: seq<Packet>, bucket: Bucket, complete: nat, oversized: nat, overflow: nat)

  /** What happens to a shaper. `Attempt` is one round of the drain loop: its clock readings, and what
      the link answers if the packet gets that far. `Request` stores a new rate for the next refill. */
  datatype Event =
    | Enqueue(pkt: Packet)
    | Request(mbps: real)
    | Attempt(at: real, now: real, res: TxResult)

  function Enqueued(s: State, pkt: Packet): State {
    if |s.queue| < CAPACITY && |pkt| <= SLOT then s.(queue := s.queue + [pkt])
    else if |pkt| > SLOT then s.(oversized := s.oversized + 1)
    else s.(overflow := s.overflow + 1)
  }

  /** Does the head packet go to the link? */
  predicate Goes(s: State, at: real, now: real) {
    s.queue != [] && Refill(s.bucket, at, now).tokens >= |s.queue[0]| as real
  }

  function Attempted(s: State, at: real, now: real, res: TxResult): State {
    if s.queue == [] then s
    else
      var b := Refill(s.bucket, at, now);
      var n := |s.queue[0]|;
      if b.tokens < n as real then s.(bucket := b)
      else
        match res
        case Success => s.(queue := s.queue[1..], bucket := Consume(b, n), complete := s.complete + 1)
        case Congested => s.(bucket := Refund(Consume(b, n), n))
        case Fatal => s.(queue := s.queue[1..], bucket := Refund(Consume(b, n), n))
  }

  function Step(s: State, ev: Event): State {
    match ev
    case Enqueue(pkt) => Enqueued(s, pkt)
    case Request(mbps) => s.(bucket := s.bucket.(requested := mbps))
    case Attempt(at, now, res) => Attempted(s, at, now, res)
  }

  function Run(s: State, evs: seq<Event>): State {
    if evs == [] then s else Step(Run(s, evs[..|evs| - 1]), evs[|evs| - 1])
  }

  // ----- Conservation -----

  /** The packets a run accepts. */
  function Accepted(s: State, evs: seq<Event>): seq<Packet> {
    if evs == [] then []
    else
      var before, ev := evs[..|evs| - 1], evs[|evs| - 1];
      Accepted(s, before)
      + (if ev.Enqueue? && |Run(s, before).queue| < CAPACITY && |ev.pkt| <= SLOT then [ev.pkt] else [])
  }

  /** The packets a run takes out of the queue, each with whether it was sent. */
  function Finished(s: State, evs: seq<Event>): seq<(Packet, bool)> {
    if evs == [] then []
    else
      var before, ev := evs[..|evs| - 1], evs[|evs| - 1];
      var t := Run(s, before);
      Finished(s, before)
      + (if ev.Attempt? && Goes(t, ev.at, ev.now) && !ev.res.Congested? then [(t.queue[0], ev.res.Success?)] else [])
  }

  function Offered(evs: seq<Event>): nat {
    if evs == [] then 0 else Offered(evs[..|evs| - 1]) + (if evs[|evs| - 1].Enqueue? then 1 else 0)
  }

  function Packets(done: seq<(Packet, bool)>): (r: seq<Packet>)
    ensures |r| == |done|
  {
    if done == [] then [] else Packets(done[..|done| - 1]) + [done[|done| - 1].0]
  }

  function Sent(done: seq<(Packet, bool)>): nat {
    if done == [] then 0 else Sent(done[..|done| - 1]) + (if done[|done| - 1].1 then 1 else 0)
  }

  lemma PacketsSnoc(done: seq<(Packet, bool)>, d: (Packet, bool))
    ensures Packets(done + [d]) == Packets(done) + [d.0]
    ensures Sent(done + [d]) == Sent(done) + (if d.1 then 1 else 0)
  {
    assert (done + [d])[..|done + [d]| - 1] == done;
  }

  lemma MoveHead<T>(done: seq<T>, queue: seq<T>)
    requires queue != []
    ensures done + queue == (done + [queue[0]]) + queue[1..]
  {
  }

  lemma AppendBoth<T>(queue: seq<T>, accepted: seq<T>, done: seq<T>, queued: seq<T>, more: seq<T>)
    requires queue + accepted == done + queued
    ensures queue + (accepted + more) == done + (queued + more)
  {
    assert queue + (accepted + more) == (queue + accepted) + more;
    assert done + (queued + more) == (done + queued) + more;
  }

  /** In every run: what was in the queue and what was accepted is what left it, in that order and
      unchanged, followed by what is still queued. */
  lemma {:induction false} FirstInFirstOut(s: State, evs: seq<Event>)
    ensures s.queue + Accepted(s, evs) == Packets(Finished(s, evs)) + Run(s, evs).queue
  {
    if evs != [] {
      var before, ev := evs[..|evs| - 1], evs[|evs| - 1];
      var t := Run(s, before);
      FirstInFirstOut(s, before);
      var accepted, done := Accepted(s, before), Packets(Finished(s, before));
      if ev.Attempt? && Goes(t, ev.at, ev.now) && !ev.res.Congested? {
        PacketsSnoc(Finished(s, before), (t.queue[0], ev.res.Success?));
        assert Accepted(s, evs) == accepted;
        MoveHead(done, t.queue);
      } else {
        assert Finished(s, evs) == Finished(s, before);
        var more := if ev.Enqueue? && |t.queue| < CAPACITY && |ev.pkt| <= SLOT then [ev.pkt] else [];
        AppendBoth(s.queue, accepted, done, t.queue, more);
        assert Run(s, evs).queue == t.queue + more;
      }
    }
  }

  /** In every run: every packet offered is accepted or counted in exactly one drop counter, and the
      completion counter counts the packets sent. */
  lemma {:induction false} EveryPacketCounted(s: State, evs: seq<Event>)
    ensures var t := Run(s, evs);
            && Offered(evs) == |Accepted(s, evs)| + (t.oversized - s.oversized) + (t.overflow - s.overflow)
            && t.complete == s.complete + Sent(Finished(s, evs))
  {
    if evs != [] {
      var before, ev := evs[..|evs| - 1], evs[|evs| - 1];
      var t := Run(s, before);
      EveryPacketCounted(s, before);
      if ev.Attempt? && Goes(t, ev.at, ev.now) && !ev.res.Congested? {
        PacketsSnoc(Finished(s, before), (t.queue[0], ev.res.Success?));
      } else {
        assert Finished(s, evs) == Finished(s, before);
      }
    }
  }

  // ----- The rate bound -----

  /** The bytes a run sends. */
  function SentBytes(s: State, evs: seq<Event>): nat {
    if evs == [] then 0
    else
      var before, ev := evs[..|evs| - 1], evs[|evs| - 1];
      var t := Run(s, before);
      SentBytes(s, before) + (if ev.Attempt? then BytesOf(t, ev.at, ev.now, ev.res) else 0)
  }

  /** The clock after the run: the last reading, or t0. */
  function Clock(t0: real, evs: seq<Event>): real {
    if evs == [] then t0
    else if evs[|evs| - 1].Attempt? then evs[|evs| - 1].now
    else Clock(t0, evs[..|evs| - 1])
  }

  /** The clock never goes back. */
  ghost predicate Timed(t0: real, evs: seq<Event>) {
    evs != [] ==>
      var before, ev := evs[..|evs| - 1], evs[|evs| - 1];
      Timed(t0, before) && (ev.Attempt? ==> Clock(t0, before) <= ev.at <= ev.now)
  }

  /** The bytes the run is entitled to: one full bucket at the start, what every rate earns while it is
      in force, and one full bucket for every change of rate. */
  function Allowance(s: State, t0: real, evs: seq<Event>): real {
    if evs == [] then s.bucket.capacity
    else
      var before, ev := evs[..|evs| - 1], evs[|evs| - 1];
      var t, clock := Run(s, before), Clock(t0, before);
      Allowance(s, t0, before)
      + (if ev.Attempt? then GrantOf(t, clock, ev.at, ev.now) else 0.0)
  }

  /** What the bucket could have earned since the later of its last refill and the window's start. */
  function Idle(b: Bucket, t0: real, clock: real): real { Earned(b.rate, Max(b.last, t0), clock) }

  /** Bytes sent, tokens in hand and tokens not yet collected fit the budget. A bucket not refilled in
      the window has its first capacity and, unless it earns nothing, has sent nothing in it. */
  ghost predicate Within(b: Bucket, sent: real, budget: real, cap0: real, t0: real, clock: real) {
    && Valid(b) && t0 <= clock && b.last <= clock && 0.0 <= sent && cap0 <= budget
    && sent + b.tokens + Idle(b, t0, clock) <= budget
    && (b.last < t0 ==> b.capacity == cap0)
    && (b.last < t0 && b.rate > 0.0 ==> sent == 0.0)
  }

  /** Time passes without a refill; `extra` is what it would have earned. */
  lemma WaitWithin(b: Bucket, sent: real, budget: real, cap0: real, t0: real, clock: real, now: real, extra: real)
    requires Within(b, sent, budget, cap0, t0, clock) && clock <= now && extra == Earned(b.rate, clock, now)
    ensures Within(b, sent, budget + extra, cap0, t0, now)
  {
    EarnedIsPositive(b.rate, clock, now);
    EarnedAddsUp(b.rate, Max(b.last, t0), clock, now);
  }

  /** Collecting turns idle time into tokens, or loses it at a full bucket. */
  lemma EarnWithin(b: Bucket, gain: real, sent: real, budget: real, cap0: real, t0: real, now: real)
    requires Within(b, sent, budget, cap0, t0, now) && gain > 0.0
    requires b.last >= t0 ==> gain == Idle(b, t0, now)
    requires b.last < t0 ==> sent == 0.0
    ensures Within(Earn(b, gain, now), sent, budget, cap0, t0, now)
  {
    EarnedAddsUp(b.rate, now, now, now);
  }

  lemma CollectWithin(b: Bucket, sent: real, budget: real, cap0: real, t0: real, clock: real, now: real, extra: real)
    requires Within(b, sent, budget, cap0, t0, clock) && clock <= now && extra == Earned(b.rate, clock, now)
    ensures Within(Collect(b, now), sent, budget + extra, cap0, t0, now)
    ensures Collect(b, now).last >= t0 || Collect(b, now).rate == 0.0
  {
    var gain := Earned(b.rate, b.last, now);
    WaitWithin(b, sent, budget, cap0, t0, clock, now, extra);
    EarnedAddsUp(b.rate, b.last, now, now);
    EarnedIsPositive(b.rate, b.last, now);
    if b.rate == 0.0 || now == b.last {
      assert Collect(b, now) == b;
    } else {
      EarnWithin(b, gain, sent, budget + extra, cap0, t0, now);
    }
  }

  /** A pending rate starts with a full bucket, which the budget grants. */
  lemma RequestWithin(b: Bucket, sent: real, budget: real, cap0: real, t0: real, clock: real, at: real,
                      extra: real, capacity: real)
    requires Within(b, sent, budget, cap0, t0, clock) && clock <= at && b.requested >= 0.0
    requires extra == Earned(b.rate, clock, at) && capacity == CapacityOf(b.requested)
    ensures Within(TakeRequest(b, at), sent, budget + extra + capacity, cap0, t0, at)
  {
    WaitWithin(b, sent, budget, cap0, t0, clock, at, extra);
    EarnedIsPositive(b.rate, Max(b.last, t0), at);
    EarnedAddsUp(RateOf(b.requested), at, at, at);
  }

  /** What an attempt on a non-empty queue adds to the budget. */
  function Grant(b: Bucket, clock: real, at: real, now: real): real {
    if b.requested >= 0.0
    then Earned(b.rate, clock, at) + CapacityOf(b.requested) + Earned(RateOf(b.requested), at, now)
    else Earned(b.rate, clock, now)
  }

  lemma RefillWithin(b: Bucket, sent: real, budget: real, cap0: real, t0: real, clock: real,
                     at: real, now: real, grant: real)
    requires Within(b, sent, budget, cap0, t0, clock) && clock <= at <= now && grant == Grant(b, clock, at, now)
    ensures Within(Refill(b, at, now), sent, budget + grant, cap0, t0, now)
    ensures Refill(b, at, now).last >= t0 || Refill(b, at, now).rate == 0.0
  {
    var c := TakeRequest(b, at);
    if b.requested >= 0.0 {
      var extra, capacity, more := Earned(b.rate, clock, at), CapacityOf(b.requested), Earned(c.rate, at, now);
      RequestWithin(b, sent, budget, cap0, t0, clock, at, extra, capacity);
      CollectWithin(c, sent, budget + extra + capacity, cap0, t0, at, now, more);
      assert budget + extra + capacity + more == budget + grant;
    } else {
      assert Within(c, sent, budget, cap0, t0, clock);
      CollectWithin(c, sent, budget, cap0, t0, clock, now, grant);
    }
  }

  lemma SendWithin(b: Bucket, n: nat, sent: real, budget: real, cap0: real, t0: real, clock: real)
    requires Within(b, sent, budget, cap0, t0, clock) && b.tokens >= n as real
    requires b.last >= t0 || b.rate == 0.0
    ensures Within(Consume(b, n), sent + n as real, budget, cap0, t0, clock)
  {
  }

  ghost predicate RateInv(s: State, t0: real, evs: seq<Event>) {
    Within(Run(s, evs).bucket, SentBytes(s, evs) as real, Allowance(s, t0, evs), s.bucket.capacity, t0, Clock(t0, evs))
  }

  /** The bytes an attempt sends, and what it adds to the budget. */
  function BytesOf(t: State, at: real, now: real, res: TxResult): nat {
    if Goes(t, at, now) && res.Success? then |t.queue[0]| else 0
  }

  function GrantOf(t: State, clock: real, at: real, now: real): real {
    if t.queue == [] then Earned(t.bucket.rate, clock, now) else Grant(t.bucket, clock, at, now)
  }

  lemma AttemptWithin(t: State, sent: real, budget: real, cap0: real, t0: real, clock: real,
                      at: real, now: real, res: TxResult, bytes: nat, grant: real)
    requires Within(t.bucket, sent, budget, cap0, t0, clock) && clock <= at <= now
    requires bytes == BytesOf(t, at, now, res) && grant == GrantOf(t, clock, at, now)
    ensures Within(Attempted(t, at, now, res).bucket, sent + bytes as real, budget + grant, cap0, t0, now)
  {
    if t.queue == [] {
      WaitWithin(t.bucket, sent, budget, cap0, t0, clock, now, grant);
    } else {
      RefillWithin(t.bucket, sent, budget, cap0, t0, clock, at, now, grant);
      if Goes(t, at, now) {
        var b, n := Refill(t.bucket, at, now), |t.queue[0]|;
        RefundRestores(b, n);
        SendWithin(b, n, sent, budget + grant, cap0, t0, now);
      }
    }
  }

  lemma {:induction false} RunKeepsRate(s: State, t0: real, evs: seq<Event>)
    requires Valid(s.bucket) && s.bucket.last <= t0 && Timed(t0, evs)
    ensures RateInv(s, t0, evs)
  {
    if evs == [] {
      EarnedAddsUp(s.bucket.rate, t0, t0, t0);
    } else {
      var before, ev := evs[..|evs| - 1], evs[|evs| - 1];
      RunKeepsRate(s, t0, before);
      if ev.Attempt? {
        var t, clock := Run(s, before), Clock(t0, before);
        var sent, budget := SentBytes(s, before) as real, Allowance(s, t0, before);
        var bytes, grant := BytesOf(t, ev.at, ev.now, ev.res), GrantOf(t, clock, ev.at, ev.now);
        AttemptWithin(t, sent, budget, s.bucket.capacity, t0, clock, ev.at, ev.now, ev.res, bytes, grant);
        assert Allowance(s, t0, evs) == budget + grant;
        assert SentBytes(s, evs) as real == sent + bytes as real;
      }
    }
  }

  lemma WithinBudget(b: Bucket, sent: real, budget: real, cap0: real, t0: real, clock: real)
    requires Within(b, sent, budget, cap0, t0, clock)
    ensures sent <= budget
  {
    EarnedIsPositive(b.rate, Max(b.last, t0), clock);
  }

  /** In any window of any run, the bytes sent stay within the allowance. */
  lemma RateBound(s: State, t0: real, evs: seq<Event>)
    requires Valid(s.bucket) && s.bucket.last <= t0 && Timed(t0, evs)
    ensures SentBytes(s, evs) as real <= Allowance(s, t0, evs)
  {
    RunKeepsRate(s, t0, evs);
    WithinBudget(Run(s, evs).bucket, SentBytes(s, evs) as real, Allowance(s, t0, evs), s.bucket.capacity,
                 t0, Clock(t0, evs));
  }

  ghost predicate NoNewRate(evs: seq<Event>) {
    forall i | 0 <= i < |evs| :: evs[i].Request? ==> evs[i].mbps < 0.0
  }

  ghost predicate SamePace(b: Bucket, c: Bucket) {
    b.requested < 0.0 && c.requested < 0.0 && b.rate == c.rate && b.capacity == c.capacity
  }

  lemma StepKeepsPace(s: State, ev: Event)
    requires s.bucket.requested < 0.0 && (ev.Request? ==> ev.mbps < 0.0)
    ensures SamePace(s.bucket, Step(s, ev).bucket)
  {
  }

  lemma {:induction false} PlainAllowance(s: State, t0: real, evs: seq<Event>)
    requires s.bucket.requested < 0.0 && NoNewRate(evs)
    ensures SamePace(s.bucket, Run(s, evs).bucket)
    ensures Allowance(s, t0, evs) == s.bucket.capacity + Earned(s.bucket.rate, t0, Clock(t0, evs))
  {
    if evs != [] {
      var before := evs[..|evs| - 1];
      PlainAllowance(s, t0, before);
      StepKeepsPace(Run(s, before), evs[|evs| - 1]);
      EarnedAddsUp(s.bucket.rate, t0, Clock(t0, before), Clock(t0, evs));
    }
  }

  /** Without a change of rate, at most capacity + rate * (t1 - t0) bytes leave in any window [t0, t1]. */
  lemma RateBoundInWindow(s: State, t0: real, evs: seq<Event>, t1: real)
    requires Valid(s.bucket) && s.bucket.last <= t0 && s.bucket.requested < 0.0
    requires Timed(t0, evs) && NoNewRate(evs) && Clock(t0, evs) <= t1
    ensures SentBytes(s, evs) as real <= s.bucket.capacity + Earned(s.bucket.rate, t0, t1)
  {
    RateBound(s, t0, evs);
    PlainAllowance(s, t0, evs);
    EarnedIsPositive(s.bucket.rate, Clock(t0, evs), t1);
    EarnedAddsUp(s.bucket.rate, t0, Clock(t0, evs), t1);
  }

  /** And such a window can begin anywhere in any run of a shaper from its construction. */
  lemma RateBoundFromStart(mbps: real, at: real, before: seq<Event>, t0: real, evs: seq<Event>)
    requires mbps >= 0.0 && Timed(at, before) && Clock(at, before) <= t0 && Timed(t0, evs)
    ensures var s := Run(New(mbps, at), before);
            && SentBytes(s, evs) as real <= Allowance(s, t0, evs)
            && (s.bucket.requested < 0.0 && NoNewRate(evs) ==>
                  SentBytes(s, evs) as real <= s.bucket.capacity + Earned(s.bucket.rate, t0, Clock(t0, evs)))
  {
    RunKeepsRate(New(mbps, at), at, before);
    var s := Run(New(mbps, at), before);
    RateBound(s, t0, evs);
    if s.bucket.requested < 0.0 && NoNewRate(evs) {
      RateBoundInWindow(s, t0, evs, Clock(t0, evs));
    }
  }

  /** A new shaper. */
  function New(mbps: real, at: real): State {
    State([], Bucket(CapacityOf(mbps), CapacityOf(mbps), RateOf(mbps), at, NONE), 0, 0, 0)
  }

  predicate AllFit(queue: seq<Packet>) { forall i | 0 <= i < |queue| :: |queue[i]| <= SLOT }

  lemma {:induction false} RunKeepsFit(s: State, evs: seq<Event>)
    requires AllFit(s.queue)
    ensures AllFit(Run(s, evs).queue)
  {
    if evs != [] {
      RunKeepsFit(s, evs[..|evs| - 1]);
    }
  }

  /** The head of the queue goes to the link if and only if the tokens in hand and those earned since the
      last refill cover it: a full bucket always does. */
  lemma HeadGoesIff(s: State, at: real, now: real)
    requires Valid(s.bucket) && s.bucket.requested < 0.0 && AllFit(s.queue) && s.queue != []
    ensures Goes(s, at, now)
       <==> s.bucket.tokens + Max(0.0, Earned(s.bucket.rate, s.bucket.last, now)) >= |s.queue[0]| as real
  {
  }

  lemma EnoughTime(rate: real, from: real, now: real, bytes: real)
    requires rate > 0.0 && now - from >= bytes / rate
    ensures Earned(rate, from, now) >= bytes
  {
    ProductIsPositive(now - from - bytes / rate, rate, (now - from - bytes / rate) * rate);
    assert bytes / rate * rate == bytes;
    assert (now - from - bytes / rate) * rate == (now - from) * rate - bytes / rate * rate;
  }

  /** No attempt of the run gets the head of the queue to the link. */
  ghost predicate NoneGoes(s: State, evs: seq<Event>) {
    evs != [] ==>
      var before, ev := evs[..|evs| - 1], evs[|evs| - 1];
      NoneGoes(s, before) && (ev.Attempt? ==> !Goes(Run(s, before), ev.at, ev.now))
  }

  /** An attempt that fails for want of tokens collects all that was earned. */
  lemma FailureCollects(t: State, at: real, now: real, res: TxResult)
    requires Valid(t.bucket) && t.bucket.requested < 0.0 && AllFit(t.queue) && t.queue != []
    requires t.bucket.last <= now && !Goes(t, at, now)
    ensures var b := Attempted(t, at, now, res).bucket;
            t.bucket.last <= b.last <= now
            && b.tokens == t.bucket.tokens + Earned(t.bucket.rate, t.bucket.last, b.last)
  {
    EarnedAddsUp(t.bucket.rate, t.bucket.last, t.bucket.last, t.bucket.last);
    EarnedIsPositive(t.bucket.rate, t.bucket.last, now);
  }

  /** While the head waits for tokens, however often the loop tries, none of what is earned is lost. */
  lemma {:induction false} WaitingEarns(s: State, t0: real, evs: seq<Event>)
    requires Valid(s.bucket) && s.bucket.requested < 0.0 && s.bucket.last <= t0 && AllFit(s.queue) && s.queue != []
    requires Timed(t0, evs) && NoNewRate(evs) && NoneGoes(s, evs)
    ensures var t := Run(s, evs);
            && t.queue != [] && t.queue[0] == s.queue[0] && AllFit(t.queue)
            && Valid(t.bucket) && SamePace(s.bucket, t.bucket) && t.bucket.last <= Clock(t0, evs)
            && t.bucket.tokens == s.bucket.tokens + Earned(s.bucket.rate, s.bucket.last, t.bucket.last)
  {
    RunKeepsRate(s, t0, evs);
    RunKeepsFit(s, evs);
    PlainAllowance(s, t0, evs);
    if evs == [] {
      EarnedAddsUp(s.bucket.rate, s.bucket.last, s.bucket.last, s.bucket.last);
    } else {
      var before, ev := evs[..|evs| - 1], evs[|evs| - 1];
      var t := Run(s, before);
      WaitingEarns(s, t0, before);
      if ev.Attempt? {
        FailureCollects(t, ev.at, ev.now, ev.res);
        EarnedAddsUp(s.bucket.rate, s.bucket.last, t.bucket.last, Run(s, evs).bucket.last);
      }
    }
  }

  /** So with a positive rate that does not change, no packet waits at the head of the queue for tokens
      longer than its bytes take at that rate: after that time it goes at the next attempt, whatever was
      tried or enqueued in the meantime. */
  lemma HeadGoesEventually(mbps: real, start: real, before: seq<Event>, t0: real, evs: seq<Event>, at: real, now: real)
    requires mbps >= 0.0 && Timed(start, before) && Clock(start, before) <= t0
    requires var s := Run(New(mbps, start), before);
             && s.bucket.requested < 0.0 && s.queue != [] && s.bucket.rate > 0.0
             && Timed(t0, evs) && NoNewRate(evs) && NoneGoes(s, evs)
             && Clock(t0, evs) <= now && now - s.bucket.last >= |s.queue[0]| as real / s.bucket.rate
    ensures Goes(Run(Run(New(mbps, start), before), evs), at, now)
  {
    var s := Run(New(mbps, start), before);
    RunKeepsRate(New(mbps, start), start, before);
    RunKeepsFit(New(mbps, start), before);
    WaitingEarns(s, t0, evs);
    var t := Run(s, evs);
    HeadGoesIff(t, at, now);
    EarnedAddsUp(s.bucket.rate, s.bucket.last, t.bucket.last, now);
    EnoughTime(s.bucket.rate, s.bucket.last, now, |s.queue[0]| as real);
  }

  // ----- A cap in megabits per second -----

  /** The bucket runs at a cap of so many megabits per second: an eighth of that in bytes, with room for a
      tenth of a second but at least 15000 bytes, and no other rate pending. */
  ghost predicate RunsAt(b: Bucket, mbps: real) {
    b.rate == mbps * 125000.0 && b.capacity == Max(15000.0, mbps * 12500.0) && b.requested < 0.0
  }

  /** A new shaper runs at its cap, with a full bucket. */
  lemma NewRunsAt(mbps: real, at: real)
    ensures RunsAt(New(mbps, at).bucket, mbps) && New(mbps, at).bucket.tokens == Max(15000.0, mbps * 12500.0)
  {
  }

  /** A requested rate is in force after the next attempt with a packet in the queue, and it comes with a full
      bucket: that attempt reaches the link. */
  lemma RequestTaken(s: State, mbps: real, at: real, now: real, res: TxResult)
    requires mbps >= 0.0 && s.queue != []
    ensures RunsAt(Step(Step(s, Request(mbps)), Attempt(at, now, res)).bucket, mbps)
    ensures AllFit(s.queue) ==> Goes(Step(s, Request(mbps)), at, now)
    ensures Step(Step(s, Request(mbps)), Attempt(at, now, Congested)).bucket.tokens == Max(15000.0, mbps * 12500.0)
  {
  }

  lemma PaceKeeps(b: Bucket, c: Bucket, mbps: real)
    requires RunsAt(b, mbps) && SamePace(b, c)
    ensures RunsAt(c, mbps)
  {
  }

  /** Bits sent, bytes earned: the bound of a window in bits. */
  lemma BitsInWindow(sent: real, mbps: real, t0: real, t1: real)
    requires sent <= Max(15000.0, mbps * 12500.0) + Earned(mbps * 125000.0, t0, t1)
    ensures 8.0 * sent <= 8.0 * Max(15000.0, 12500.0 * mbps) + 1000000.0 * mbps * (t1 - t0)
  {
    assert 8.0 * ((t1 - t0) * (mbps * 125000.0)) == 1000000.0 * mbps * (t1 - t0);
  }

  /** While a cap is in force, in every window of every run no more bits leave than one bucket and the cap
      times the length of the window. */
  lemma CapHolds(s: State, mbps: real, t0: real, evs: seq<Event>, t1: real)
    requires Valid(s.bucket) && s.bucket.last <= t0 && RunsAt(s.bucket, mbps)
    requires Timed(t0, evs) && NoNewRate(evs) && Clock(t0, evs) <= t1
    ensures 8.0 * SentBytes(s, evs) as real <= 8.0 * Max(15000.0, 12500.0 * mbps) + 1000000.0 * mbps * (t1 - t0)
  {
    RateBoundInWindow(s, t0, evs, t1);
    BitsInWindow(SentBytes(s, evs) as real, mbps, t0, t1);
  }

  /** From the construction of a shaper on, for the cap it was built with. */
  lemma CapHoldsFromStart(mbps: real, at: real, before: seq<Event>, t0: real, evs: seq<Event>, t1: real)
    requires mbps >= 0.0 && Timed(at, before) && NoNewRate(before) && Clock(at, before) <= t0
    requires Timed(t0, evs) && NoNewRate(evs) && Clock(t0, evs) <= t1
    ensures 8.0 * SentBytes(Run(New(mbps, at), before), evs) as real
         <= 8.0 * Max(15000.0, 12500.0 * mbps) + 1000000.0 * mbps * (t1 - t0)
  {
    var s := New(mbps, at);
    RunKeepsRate(s, at, before);
    PlainAllowance(s, at, before);
    NewRunsAt(mbps, at);
    PaceKeeps(s.bucket, Run(s, before).bucket, mbps);
    CapHolds(Run(s, before), mbps, t0, evs, t1);
  }

  /** And from every change of the cap on, once an attempt with a packet in the queue has taken it: then for
      the new cap. */
  lemma CapHoldsAfterChange(mbps: real, at: real, before: seq<Event>, cap: real, ev: Event,
                            t0: real, evs: seq<Event>, t1: real)
    requires mbps >= 0.0 && cap >= 0.0 && Timed(at, before + [Request(cap)] + [ev]) && ev.Attempt?
    requires Run(New(mbps, at), before).queue != [] && ev.now <= t0
    requires Timed(t0, evs) && NoNewRate(evs) && Clock(t0, evs) <= t1
    ensures 8.0 * SentBytes(Run(New(mbps, at), before + [Request(cap)] + [ev]), evs) as real
         <= 8.0 * Max(15000.0, 12500.0 * cap) + 1000000.0 * cap * (t1 - t0)
  {
    var s, steps := New(mbps, at), before + [Request(cap)] + [ev];
    RunTwoMore(s, before, Request(cap), ev);
    RunKeepsRate(s, at, steps);
    RequestTaken(Run(s, before), cap, ev.at, ev.now, ev.res);
    CapHolds(Run(s, steps), cap, t0, evs, t1);
  }

  lemma RunTwoMore(s: State, evs: seq<Event>, a: Event, b: Event)
    ensures Run(s, evs + [a] + [b]) == Step(Step(Run(s, evs), a), b)
  {
    assert (evs + [a])[..|evs|] == evs && (evs + [a] + [b])[..|evs| + 1] == evs + [a];
  }

  /** The other side: with a cap in force, a packet of n bytes at the head goes at the first attempt after n * 8
      bits' worth of time. */
  lemma CapIsGranted(s: State, mbps: real, t0: real, evs: seq<Event>, at: real, now: real)
    requires Valid(s.bucket) && s.bucket.last <= t0 && RunsAt(s.bucket, mbps) && mbps > 0.0
    requires AllFit(s.queue) && s.queue != [] && Timed(t0, evs) && NoNewRate(evs) && NoneGoes(s, evs)
    requires Clock(t0, evs) <= now && now - t0 >= |s.queue[0]| as real * 8.0 / (1000000.0 * mbps)
    ensures Goes(Run(s, evs), at, now)
  {
    WaitingEarns(s, t0, evs);
    var t, n := Run(s, evs), |s.queue[0]| as real;
    HeadGoesIff(t, at, now);
    EarnedAddsUp(s.bucket.rate, s.bucket.last, t0, now);
    EarnedAddsUp(s.bucket.rate, s.bucket.last, t.bucket.last, now);
    EarnedIsPositive(s.bucket.rate, s.bucket.last, t0);
    MegabitTime(n, mbps);
    EnoughTime(s.bucket.rate, t0, now, n);
  }

  lemma MegabitTime(n: real, mbps: real)
    requires mbps > 0.0
    ensures n * 8.0 / (1000000.0 * mbps) == n / (mbps * 125000.0)
  {
    var x := n / (mbps * 125000.0);
    assert x * (mbps * 125000.0) == n;
    assert x * (1000000.0 * mbps) == n * 8.0;
  }

  // ----- What a send costs, and what a drop is counted as -----

  /** A send that succeeds costs its bytes and a packet; one that fails for good costs the packet and no
      tokens; a busy link costs nothing. */
  lemma AttemptCosts(s: State, at: real, now: real, res: TxResult)
    requires Valid(s.bucket) && Goes(s, at, now)
    ensures var t, b := Step(s, Attempt(at, now, res)), Refill(s.bucket, at, now);
            && t.bucket == (if res.Success? then b.(tokens := b.tokens - |s.queue[0]| as real) else b)
            && t.queue == (if res.Congested? then s.queue else s.queue[1..])
            && t.complete == s.complete + if res.Success? then 1 else 0
  {
    RefilledWithin(s.bucket, at, now);
    RefundRestores(Refill(s.bucket, at, now), |s.queue[0]|);
  }

  lemma RefilledWithin(b: Bucket, at: real, now: real)
    requires Valid(b)
    ensures Refill(b, at, now).tokens <= Refill(b, at, now).capacity
  {
  }

  /** The packets of a run that are too long for a slot, and those that found the queue full. */
  function TooLong(evs: seq<Event>): nat {
    if evs == [] then 0
    else TooLong(evs[..|evs| - 1]) + if evs[|evs| - 1].Enqueue? && |evs[|evs| - 1].pkt| > 2048 then 1 else 0
  }

  function FoundFull(s: State, evs: seq<Event>): nat {
    if evs == [] then 0
    else
      var before, ev := evs[..|evs| - 1], evs[|evs| - 1];
      FoundFull(s, before) + if ev.Enqueue? && |ev.pkt| <= 2048 && |Run(s, before).queue| == 8192 then 1 else 0
  }

  /** In every run a packet longer than 2048 bytes counts as oversized, a shorter one that finds 8192 packets
      in the queue as overflow, and nothing else is counted. */
  lemma {:induction false} DropsByReason(s: State, evs: seq<Event>)
    requires |s.queue| <= 8192
    ensures var t := Run(s, evs);
            && |t.queue| <= 8192 && t.oversized == s.oversized + TooLong(evs)
            && t.overflow == s.overflow + FoundFull(s, evs)
  {
    if evs != [] {
      DropsByReason(s, evs[..|evs| - 1]);
    }
  }

  // ----- The shaper object -----

  class Shaper {
    const normalQueue: Queue
    const bucket: Limiter
    var txComplete: nat
    var oversizedDrops: nat
    var queueOverflowDrops: nat

    ghost predicate Valid()
      reads this, normalQueue, normalQueue.pool
    {
      normalQueue.Valid()
    }

    ghost function Model(): State
      requires Valid()
      reads this, normalQueue, normalQueue.pool, bucket
    {
      State(normalQueue.Contents(), bucket.Model(), txComplete, oversizedDrops, queueOverflowDrops)
    }

    constructor (mbps: real, at: real)
      ensures Valid() && fresh(normalQueue) && fresh(normalQueue.pool) && fresh(bucket)
      ensures Model() == New(mbps, at)
    {
      normalQueue := new Queue();
      bucket := new Limiter(mbps, at);
      txComplete, oversizedDrops, queueOverflowDrops := 0, 0, 0;
    }

    method SetRateLimit(mbps: real)
      requires Valid()
      modifies bucket`requestedLimit
      ensures Valid() && Model() == Step(old(Model()), Request(mbps))
    {
      bucket.SetRate(mbps);
    }

    method EnqueueNormal(pkt: Packet)
      requires Valid()
      modifies this`oversizedDrops, this`queueOverflowDrops, normalQueue, normalQueue.pool
      ensures Valid() && Model() == Step(old(Model()), Enqueue(pkt))
    {
      var ok := normalQueue.Push(pkt);
      if !ok {
        if |pkt| > SLOT {
          oversizedDrops := oversizedDrops + 1;
        } else {
          queueOverflowDrops := queueOverflowDrops + 1;
        }
      }
    }

    /** The handler of the result of a send. */
    method OnResult(res: TxResult, bytes: nat)
      requires Valid() && normalQueue.Contents() != []
      modifies this`txComplete, normalQueue, bucket`tokens
      ensures Valid()
      ensures var was := old(Model());
              Model() == match res
                         case Success => was.(queue := was.queue[1..], complete := was.complete + 1)
                         case Congested => was.(bucket := Refund(was.bucket, bytes))
                         case Fatal => was.(queue := was.queue[1..], bucket := Refund(was.bucket, bytes))
    {
      match res
      case Success =>
        normalQueue.Pop();
        txComplete := txComplete + 1;
      case Congested =>
        bucket.DoRefund(bytes);
      case Fatal =>
        bucket.DoRefund(bytes);
        normalQueue.Pop();
    }

    /** One round of the drain loop; `more` says whether the loop goes on. */
    method DrainOnce(at: real, now: real, send: Packet -> TxResult) returns (more: bool, ghost res: TxResult)
      requires Valid()
      modifies this`txComplete, normalQueue, bucket
      ensures Valid()
      ensures Model() == Step(old(Model()), Attempt(at, now, res))
      ensures more == (Goes(old(Model()), at, now) && !res.Congested?)
      ensures Goes(old(Model()), at, now) ==> res == send(old(Model()).queue[0])
      ensures normalQueue.count + (if more then 1 else 0) <= old(normalQueue.count)
    {
      if normalQueue.count == 0 {
        return false, Success;
      }
      var pkt := normalQueue.Front();
      var ok := bucket.TryConsume(|pkt|, at, now);
      if !ok {
        return false, Success;
      }
      var r := send(pkt);
      res := r;
      OnResult(r, |pkt|);
      more := r != Congested;
    }

    /** A rate that another thread may request (a negative one for none), and one round; they extend the
        run so far. */
    method Round(ghost s: State, ghost sofar: seq<Event>, at: real, now: real, send: Packet -> TxResult, request: real)
        returns (more: bool, ghost run: seq<Event>)
      requires Valid() && Model() == Run(s, sofar)
      modifies this`txComplete, normalQueue, bucket
      ensures Valid() && Model() == Run(s, run) && |run| <= |sofar| + 2
      ensures normalQueue.count + (if more then 1 else 0) <= old(normalQueue.count)
      ensures !more ==> Drained(s, run)
    {
      run := sofar;
      if request >= 0.0 {
        SetRateLimit(request);
        run := Extend(s, run, Request(request));
      }
      ghost var res;
      more, res := DrainOnce(at, now, send);
      if !more {
        LastRound(s, run, Attempt(at, now, res));
      }
      run := Extend(s, run, Attempt(at, now, res));
    }

    /** process_queue. The environment decides the clock readings of round k, what the link answers in
        it, and the rate that another thread requests before it. The rounds make up a run; the loop ends
        with an empty queue, a busy link, or too few tokens for the head. */
    method ProcessQueue(at: nat -> real, now: nat -> real, send: (nat, Packet) -> TxResult, requests: nat -> real)
        returns (ghost run: seq<Event>)
      requires Valid()
      modifies this`txComplete, normalQueue, bucket
      ensures Valid() && Model() == Run(old(Model()), run)
      ensures |run| <= 2 * |old(Model()).queue| + 2
      ensures Drained(old(Model()), run)
    {
      run := [];
      var k := 0;
      var more := true;
      while more
        invariant Valid() && Model() == Run(old(Model()), run)
        invariant |run| + 2 * normalQueue.count + (if more then 2 else 0) <= 2 * old(normalQueue.count) + 2
        invariant !more ==> Drained(old(Model()), run)
        decreases more, normalQueue.count
      {
        more, run := Round(old(Model()), run, at(k), now(k), p => send(k, p), requests(k));
        k := k + 1;
      }
    }
  }

  /** Why the drain loop stopped: the queue is empty, the tokens do not cover its head, or the head
      went to the link in the last round and the link was busy. */
  ghost predicate Drained(s: State, run: seq<Event>) {
    && run != [] && run[|run| - 1].Attempt?
    && var t, last := Run(s, run), run[|run| - 1];
    || t.queue == []
    || t.bucket.tokens < |t.queue[0]| as real
    || (last.res.Congested? && Goes(Run(s, run[..|run| - 1]), last.at, last.now))
  }

  lemma LastRound(s: State, run: seq<Event>, ev: Event)
    requires ev.Attempt? && (Goes(Run(s, run), ev.at, ev.now) ==> ev.res.Congested?)
    ensures Drained(s, run + [ev])
  {
    assert (run + [ev])[..|run + [ev]| - 1] == run;
  }

  ghost function Extend(s: State, run: seq<Event>, ev: Event): (r: seq<Event>)
    ensures r == run + [ev] && Run(s, r) == Step(Run(s, run), ev)
  {
    assert (run + [ev])[..|run + [ev]| - 1] == run;
    run + [ev]
  }
}
