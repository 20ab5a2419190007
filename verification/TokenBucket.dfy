/** The token bucket, over the reals. The clock readings are parameters. */
module TokenBucket {

  datatype Bucket = Bucket(tokens: real, capacity: real, rate: real, last: real, requested: real)

  const NONE: real := -1.0

  function Min(a: real, b: real): real { if a < b then a else b }

  function Max(a: real, b: real): real { if a < b then b else a }

  function RateOf(mbps: real): real { mbps * 1000000.0 / 8.0 }

  function CapacityOf(mbps: real): real { Max(15000.0, RateOf(mbps) * 0.1) }

  function Apply(b: Bucket, mbps: real, at: real): Bucket {
    Bucket(CapacityOf(mbps), CapacityOf(mbps), RateOf(mbps), at, b.requested)
  }

  /** A pending rate, if there is one, is taken out of its slot and applied at `at`. */
  function TakeRequest(b: Bucket, at: real): Bucket {
    var b1 := b.(requested := NONE);
    if b.requested >= 0.0 then Apply(b1, b.requested, at) else b1
  }

  function Earn(b: Bucket, gain: real, now: real): Bucket {
    if gain > 0.0 then b.(tokens := Min(b.capacity, b.tokens + gain), last := now) else b
  }

  /** What a rate earns between two clock readings. */
  function Earned(rate: real, from: real, to: real): real { (to - from) * rate }

  function Collect(b: Bucket, now: real): Bucket { Earn(b, Earned(b.rate, b.last, now), now) }

  /** The refill before every attempt to send. */
  function Refill(b: Bucket, at: real, now: real): Bucket { Collect(TakeRequest(b, at), now) }

  function Consume(b: Bucket, bytes: nat): Bucket { b.(tokens := b.tokens - bytes as real) }

  function Refund(b: Bucket, bytes: nat): Bucket { b.(tokens := Min(b.capacity, b.tokens + bytes as real)) }

  ghost predicate Valid(b: Bucket) { 0.0 <= b.tokens <= b.capacity && 15000.0 <= b.capacity && 0.0 <= b.rate }

  /** A refund after a failed send restores the level from before the send exactly. */
  lemma RefundRestores(b: Bucket, bytes: nat)
    requires b.tokens <= b.capacity
    ensures Refund(Consume(b, bytes), bytes) == b
  {
  }

  lemma EarnedAddsUp(rate: real, a: real, b: real, c: real)
    ensures Earned(rate, a, c) == Earned(rate, a, b) + Earned(rate, b, c)
    ensures Earned(rate, a, a) == 0.0 && Earned(0.0, a, b) == 0.0
  {
  }

  lemma EarnedIsPositive(rate: real, a: real, b: real)
    requires rate >= 0.0 && a <= b
    ensures Earned(rate, a, b) >= 0.0
    ensures rate > 0.0 && a < b ==> Earned(rate, a, b) > 0.0
  {
    ProductIsPositive(b - a, rate, Earned(rate, a, b));
  }

  lemma ProductIsPositive(x: real, y: real, product: real)
    requires x >= 0.0 && y >= 0.0 && product == x * y
    ensures product >= 0.0
    ensures x > 0.0 && y > 0.0 ==> product > 0.0
  {
  }

  /** Consecutive refills add up: the level does not depend on how often elapsed time is collected, even
      if the bucket is full in between. */
  lemma RefillsAddUp(b: Bucket, t: real, u: real)
    requires Valid(b) && b.requested < 0.0 && b.last <= t <= u
    ensures Refill(Refill(b, t, t), u, u) == Refill(b, u, u)
  {
    EarnedAddsUp(b.rate, b.last, t, u);
    EarnedIsPositive(b.rate, b.last, t);
    EarnedIsPositive(b.rate, t, u);
  }

  /** The bucket object. */
  class Limiter {
    var tokens: real
    var capacity: real
    var rate: real
    var lastRefill: real
    var requestedLimit: real

    ghost function Model(): Bucket
      reads this
    {
      Bucket(tokens, capacity, rate, lastRefill, requestedLimit)
    }

    constructor (mbps: real, at: real)
      ensures Model() == Bucket(CapacityOf(mbps), CapacityOf(mbps), RateOf(mbps), at, NONE)
      ensures mbps >= 0.0 ==> Valid(Model())
    {
      requestedLimit := NONE;
      rate := mbps * 1000000.0 / 8.0;
      capacity := Max(15000.0, mbps * 1000000.0 / 8.0 * 0.1);
      tokens := Max(15000.0, mbps * 1000000.0 / 8.0 * 0.1);
      lastRefill := at;
    }

    method SetRate(mbps: real)
      modifies this`requestedLimit
      ensures Model() == old(Model()).(requested := mbps)
    {
      requestedLimit := mbps;
    }

    method ApplyNewRate(mbps: real, at: real)
      modifies this
      ensures Model() == Apply(old(Model()), mbps, at)
    {
      rate := RateOf(mbps);
      capacity := Max(15000.0, rate * 0.1);
      tokens := capacity;
      lastRefill := at;
    }

    method DoRefill(at: real, now: real)
      modifies this
      ensures Model() == Refill(old(Model()), at, now)
    {
      var req := requestedLimit;
      requestedLimit := NONE;
      if req >= 0.0 {
        ApplyNewRate(req, at);
      }
      assert Model() == TakeRequest(old(Model()), at);
      var gain := (now - lastRefill) * rate;
      if gain > 0.0 {
        tokens := Min(capacity, tokens + gain);
        lastRefill := now;
      }
    }

    method TryConsume(bytes: nat, at: real, now: real) returns (ok: bool)
      modifies this
      ensures var b := Refill(old(Model()), at, now);
              ok == (b.tokens >= bytes as real) && Model() == if ok then Consume(b, bytes) else b
    {
      DoRefill(at, now);
      ok := tokens >= bytes as real;
      if ok {
        tokens := tokens - bytes as real;
      }
    }

    method DoRefund(bytes: nat)
      modifies this`tokens
      ensures Model() == Refund(old(Model()), bytes)
    {
      tokens := Min(capacity, tokens + bytes as real);
    }
  }
}
