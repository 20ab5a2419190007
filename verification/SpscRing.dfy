/** The lock-free ring between one producer and one consumer. Each step is one atomic load or store, or
    the beginning or end of copying an item, so that a half-written slot can be seen. */
module SpscRing {

  /** Where the producer is in push. */
  datatype Producer<T> =
    | PIdle
    | PTail(item: T)      // tail loaded
    | PSpace(item: T)     // head loaded: not full
    | PWriting(item: T)   // slot half written
    | PWritten(item: T)   // slot written, tail still to be stored

  /** Where the consumer is in pop. */
  datatype Consumer<T> =
    | CIdle
    | CHead               // head loaded
    | CFilled             // tail loaded: not empty
    | CReading            // slot half read
    | CCopied(item: T)    // slot read, head still to be stored

  /** The ring, where its two users are, and what has gone in and come out. The positions each user
      loads from its own index are its own stores, so they are not kept apart. */
  datatype Ring<T> = Ring(buffer: seq<T>, head: nat, tail: nat, prod: Producer<T>, cons: Consumer<T>,
                          pushed: seq<T>, popped: seq<T>)

  datatype Step<T> =
    | LoadTail(item: T)
    | CheckHead
    | BeginWrite(noise: T)
    | EndWrite
    | StoreTail
    | LoadHead
    | CheckTail
    | BeginRead
    | EndRead
    | StoreHead

  function Cap<T>(r: Ring<T>): nat { |r.buffer| }

  predicate Full<T>(r: Ring<T>)
    requires Cap(r) > 0
  {
    (r.tail + 1) % Cap(r) == r.head
  }

  predicate Enabled<T>(r: Ring<T>, step: Step<T>) {
    && r.head < Cap(r) && r.tail < Cap(r)
    && match step
       case LoadTail(_) => r.prod.PIdle?
       case CheckHead => r.prod.PTail?
       case BeginWrite(_) => r.prod.PSpace?
       case EndWrite => r.prod.PWriting?
       case StoreTail => r.prod.PWritten?
       case LoadHead => r.cons.CIdle?
       case CheckTail => r.cons.CHead?
       case BeginRead => r.cons.CFilled?
       case EndRead => r.cons.CReading?
       case StoreHead => r.cons.CCopied?
  }

  function Next<T>(r: Ring<T>, step: Step<T>): Ring<T> {
    if !Enabled(r, step) then r
    else
      match step
      case LoadTail(item) => r.(prod := PTail(item))
      case CheckHead => if Full(r) then r.(prod := PIdle) else r.(prod := PSpace(r.prod.item))
      case BeginWrite(noise) => r.(buffer := r.buffer[r.tail := noise], prod := PWriting(r.prod.item))
      case EndWrite => r.(buffer := r.buffer[r.tail := r.prod.item], prod := PWritten(r.prod.item))
      case StoreTail => r.(tail := (r.tail + 1) % Cap(r), prod := PIdle, pushed := r.pushed + [r.prod.item])
      case LoadHead => r.(cons := CHead)
      case CheckTail => if r.head == r.tail then r.(cons := CIdle) else r.(cons := CFilled)
      case BeginRead => r.(cons := CReading)
      case EndRead => r.(cons := CCopied(r.buffer[r.head]))
      case StoreHead => r.(head := (r.head + 1) % Cap(r), cons := CIdle, popped := r.popped + [r.cons.item])
  }

  function Run<T>(r: Ring<T>, steps: seq<Step<T>>): Ring<T> {
    if steps == [] then r else Next(Run(r, steps[..|steps| - 1]), steps[|steps| - 1])
  }

  predicate Initial<T>(r: Ring<T>) {
    Cap(r) >= 2 && r.head == 0 && r.tail == 0 && r.prod.PIdle? && r.cons.CIdle? && r.pushed == [] && r.popped == []
  }

  /** The items in the ring. */
  function Count<T>(r: Ring<T>): int { |r.pushed| - |r.popped| }

  // ----- The invariant -----

  ghost predicate Inv<T>(r: Ring<T>) {
    && Cap(r) >= 2
    && r.popped <= r.pushed && Count(r) < Cap(r)
    && r.head == |r.popped| % Cap(r) && r.tail == |r.pushed| % Cap(r)
    && (forall k | |r.popped| <= k < |r.pushed| :: r.buffer[k % Cap(r)] == r.pushed[k])
    && (r.prod.PSpace? || r.prod.PWriting? || r.prod.PWritten? ==> Count(r) + 1 < Cap(r))
    && (r.prod.PWritten? ==> r.buffer[r.tail] == r.prod.item)
    && (r.cons.CFilled? || r.cons.CReading? || r.cons.CCopied? ==> Count(r) > 0)
    && (r.cons.CCopied? ==> r.cons.item == r.pushed[|r.popped|])
  }

  lemma MultipleGap(c: nat, d: int)
    ensures d > 0 ==> c * d >= c
    ensures d < 0 ==> c * d + c <= 0
  {
  }

  lemma Remainder(a: nat, c: nat, q: nat, m: nat)
    requires m < c && a == c * q + m
    ensures a % c == m
  {
    assert c * (a / c - q) == m - a % c;
    MultipleGap(c, a / c - q);
  }

  /** Positions less than a whole ring apart are different slots. */
  lemma SlotsDiffer(a: nat, b: nat, c: nat)
    requires a < b < a + c
    ensures a % c != b % c
  {
    assert c * (b / c - a / c) == (b - b % c) - (a - a % c);
    MultipleGap(c, b / c - a / c);
  }

  lemma NextSlot(a: nat, c: nat)
    requires c >= 2
    ensures (a % c + 1) % c == (a + 1) % c
  {
    var q, m := a / c, a % c;
    if m + 1 < c {
      Remainder(a + 1, c, q, m + 1);
      Remainder(m + 1, c, 0, m + 1);
    } else {
      assert c * (q + 1) == c * q + c;
      Remainder(a + 1, c, q + 1, 0);
      Remainder(c, c, 1, 0);
    }
  }

  /** push finds the ring full exactly when Capacity - 1 items are in it at its load of head. */
  lemma FullIff<T>(r: Ring<T>)
    requires Inv(r)
    ensures Full(r) <==> Count(r) == Cap(r) - 1
  {
    NextSlot(|r.pushed|, Cap(r));
    if Count(r) < Cap(r) - 1 {
      SlotsDiffer(|r.popped|, |r.pushed| + 1, Cap(r));
    } else {
      Remainder(|r.popped| + Cap(r), Cap(r), |r.popped| / Cap(r) + 1, |r.popped| % Cap(r));
    }
  }

  /** pop finds the ring empty exactly when no items are in it at its load of tail. */
  lemma EmptyIff<T>(r: Ring<T>)
    requires Inv(r)
    ensures r.head == r.tail <==> Count(r) == 0
  {
    if Count(r) > 0 {
      SlotsDiffer(|r.popped|, |r.pushed|, Cap(r));
    }
  }

  /** While the consumer has an item to read, the slot the producer writes is another one. */
  lemma WriteAvoidsItems<T>(r: Ring<T>, k: nat)
    requires Inv(r) && Count(r) + 1 < Cap(r) && |r.popped| <= k < |r.pushed|
    ensures k % Cap(r) != r.tail
  {
    SlotsDiffer(k, |r.pushed|, Cap(r));
  }

  /** The slot being read is never the slot being written. */
  lemma NoTornRead<T>(r: Ring<T>)
    requires Inv(r) && r.prod.PWriting? && r.cons.CReading?
    ensures r.head != r.tail
  {
    WriteAvoidsItems(r, |r.popped|);
  }

  lemma ProducerKeepsInv<T>(r: Ring<T>, step: Step<T>)
    requires Inv(r) && (step.LoadTail? || step.CheckHead? || step.BeginWrite? || step.EndWrite? || step.StoreTail?)
    ensures Inv(Next(r, step))
  {
    if Enabled(r, step) {
      match step
      case CheckHead => FullIff(r);
      case BeginWrite(_) | EndWrite =>
        forall k | |r.popped| <= k < |r.pushed|
          ensures k % Cap(r) != r.tail
        {
          WriteAvoidsItems(r, k);
        }
      case StoreTail => NextSlot(|r.pushed|, Cap(r));
      case _ =>
    }
  }

  lemma ConsumerKeepsInv<T>(r: Ring<T>, step: Step<T>)
    requires Inv(r) && (step.LoadHead? || step.CheckTail? || step.BeginRead? || step.EndRead? || step.StoreHead?)
    ensures Inv(Next(r, step))
  {
    if Enabled(r, step) {
      match step
      case CheckTail => EmptyIff(r);
      case StoreHead => NextSlot(|r.popped|, Cap(r));
      case _ =>
    }
  }

  lemma NextKeepsInv<T>(r: Ring<T>, step: Step<T>)
    requires Inv(r)
    ensures Inv(Next(r, step))
  {
    if step.LoadTail? || step.CheckHead? || step.BeginWrite? || step.EndWrite? || step.StoreTail? {
      ProducerKeepsInv(r, step);
    } else {
      ConsumerKeepsInv(r, step);
    }
  }

  lemma {:induction false} RunKeepsInv<T>(r: Ring<T>, steps: seq<Step<T>>)
    requires Inv(r)
    ensures Inv(Run(r, steps))
  {
    if steps != [] {
      RunKeepsInv(r, steps[..|steps| - 1]);
      NextKeepsInv(Run(r, steps[..|steps| - 1]), steps[|steps| - 1]);
    }
  }

  /** A queue: for every capacity and every interleaving, what came out is a prefix of what went in, in
      order, no read is torn, and push and pop fail only when the ring is full or empty. */
  lemma RingIsAQueue<T>(r: Ring<T>, steps: seq<Step<T>>)
    requires Initial(r)
    ensures var t := Run(r, steps);
            && t.popped <= t.pushed && 0 <= Count(t) < Cap(t)
            && !(t.prod.PWriting? && t.cons.CReading? && t.head == t.tail)
            && (t.prod.PTail? ==> (Next(t, CheckHead).prod.PIdle? <==> Count(t) == Cap(t) - 1))
            && (t.cons.CHead? ==> (Next(t, CheckTail).cons.CIdle? <==> Count(t) == 0))
            && (t.cons.CCopied? ==> Count(t) > 0 && t.cons.item == t.pushed[|t.popped|])
  {
    var t := Run(r, steps);
    RunKeepsInv(r, steps);
    FullIff(t);
    EmptyIff(t);
    if t.prod.PWriting? && t.cons.CReading? {
      NoTornRead(t);
    }
  }

  // ----- What was given to push is what goes in -----

  /** The item of the latest call of push. */
  function Given<T>(r: Ring<T>, steps: seq<Step<T>>): seq<T> {
    if steps == [] then []
    else
      var before, step := steps[..|steps| - 1], steps[|steps| - 1];
      if step.LoadTail? && Enabled(Run(r, before), step) then [step.item] else Given(r, before)
  }

  /** The items of the calls of push that were completed, in order. */
  function Completed<T>(r: Ring<T>, steps: seq<Step<T>>): seq<T> {
    if steps == [] then []
    else
      var before, step := steps[..|steps| - 1], steps[|steps| - 1];
      Completed(r, before) + if step.StoreTail? && Enabled(Run(r, before), step) then Given(r, before) else []
  }

  /** How often pop was completed. */
  function Pops<T>(r: Ring<T>, steps: seq<Step<T>>): nat {
    if steps == [] then 0
    else
      var before, step := steps[..|steps| - 1], steps[|steps| - 1];
      Pops(r, before) + if step.StoreHead? && Enabled(Run(r, before), step) then 1 else 0
  }

  ghost predicate Tracks<T>(t: Ring<T>, given: seq<T>, completed: seq<T>, pops: nat) {
    t.pushed == completed && |t.popped| == pops && (!t.prod.PIdle? ==> given == [t.prod.item])
  }

  lemma StepTracks<T>(t: Ring<T>, step: Step<T>, given: seq<T>, completed: seq<T>, pops: nat)
    requires Tracks(t, given, completed, pops)
    ensures Tracks(Next(t, step),
                   if step.LoadTail? && Enabled(t, step) then [step.item] else given,
                   completed + if step.StoreTail? && Enabled(t, step) then given else [],
                   pops + if step.StoreHead? && Enabled(t, step) then 1 else 0)
  {
  }

  lemma {:induction false} RunTracks<T>(r: Ring<T>, steps: seq<Step<T>>)
    requires Initial(r)
    ensures Tracks(Run(r, steps), Given(r, steps), Completed(r, steps), Pops(r, steps))
  {
    if steps != [] {
      var before := steps[..|steps| - 1];
      RunTracks(r, before);
      StepTracks(Run(r, before), steps[|steps| - 1], Given(r, before), Completed(r, before), Pops(r, before));
    }
  }

  /** In every run the items that went in are those given to the completed calls of push, and what came out
      are the first of them, one for every completed call of pop. */
  lemma PushedAsGiven<T>(r: Ring<T>, steps: seq<Step<T>>)
    requires Initial(r)
    ensures var t := Run(r, steps);
            && t.pushed == Completed(r, steps)
            && Pops(r, steps) <= |Completed(r, steps)| && t.popped == Completed(r, steps)[..Pops(r, steps)]
  {
    RunTracks(r, steps);
    RunKeepsInv(r, steps);
  }

  // ----- Undisturbed calls -----

  lemma RunFive<T>(r: Ring<T>, a: Step<T>, b: Step<T>, c: Step<T>, d: Step<T>, e: Step<T>)
    ensures Run(r, [a, b, c, d, e]) == Next(Next(Next(Next(Next(r, a), b), c), d), e)
  {
    var steps := [a, b, c, d, e];
    assert steps[..4] == [a, b, c, d] && [a, b, c, d][..3] == [a, b, c];
    assert [a, b, c][..2] == [a, b] && [a, b][..1] == [a] && [a][..0] == [];
    assert Run(r, [a]) == Next(r, a);
    assert Run(r, [a, b]) == Next(Run(r, [a]), b);
    assert Run(r, [a, b, c]) == Next(Run(r, [a, b]), c);
    assert Run(r, [a, b, c, d]) == Next(Run(r, [a, b, c]), d);
  }

  lemma PushRuns<T>(r: Ring<T>, item: T, noise: T)
    requires r.head < Cap(r) && r.tail < Cap(r) && r.prod.PIdle?
    ensures var t := Next(Next(Next(Next(Next(r, LoadTail(item)), CheckHead), BeginWrite(noise)), EndWrite), StoreTail);
            t.prod.PIdle? && t.pushed == if Full(r) then r.pushed else r.pushed + [item]
  {
  }

  lemma PopRuns<T>(r: Ring<T>)
    requires r.head < Cap(r) && r.tail < Cap(r) && r.cons.CIdle?
    ensures var t := Next(Next(Next(Next(Next(r, LoadHead), CheckTail), BeginRead), EndRead), StoreHead);
            t.cons.CIdle? && t.popped == if r.head == r.tail then r.popped else r.popped + [r.buffer[r.head]]
  {
  }

  /** push into a ring with room adds the item, and into a full ring changes nothing. */
  lemma PushAppends<T>(r: Ring<T>, item: T, noise: T)
    requires Inv(r) && r.prod.PIdle?
    ensures var t := Run(r, [LoadTail(item), CheckHead, BeginWrite(noise), EndWrite, StoreTail]);
            t.prod.PIdle? && t.pushed == if Count(r) < Cap(r) - 1 then r.pushed + [item] else r.pushed
  {
    RunFive(r, LoadTail(item), CheckHead, BeginWrite(noise), EndWrite, StoreTail);
    PushRuns(r, item, noise);
    FullIff(r);
  }

  /** pop from a ring with items takes out the first, and from an empty ring changes nothing. */
  lemma PopTakesFirst<T>(r: Ring<T>)
    requires Inv(r) && r.cons.CIdle?
    ensures var t := Run(r, [LoadHead, CheckTail, BeginRead, EndRead, StoreHead]);
            t.cons.CIdle? && t.popped == if Count(r) > 0 then r.popped + [r.pushed[|r.popped|]] else r.popped
  {
    RunFive(r, LoadHead, CheckTail, BeginRead, EndRead, StoreHead);
    PopRuns(r);
    EmptyIff(r);
  }
}
