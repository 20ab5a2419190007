/** One forwarding worker: the receive thread pushes frames into the ring and then writes the frame
    eventfd; the processing thread drains the ring, runs the shaper, and then polls. */
module WakeUp {
  import opened SpscRing

  datatype Rx =
    | RxWaiting          // between frames
    | RxPushing          // inside push
    | RxMustSignal       // pushed, eventfd not yet written
    | RxDone

  datatype Proc =
    | ProcTop            // at the test of the running flag
    | ProcDraining       // popping until pop fails
    | ProcShaping        // has seen the ring empty
    | ProcPolling        // at, or blocked in, poll
    | ProcReading        // poll reported the frame eventfd
    | ProcStopping       // poll reported the stop eventfd
    | ProcDone

  datatype Worker<T> = Worker(ring: Ring<T>, rx: Rx, proc: Proc, frames: nat, stops: nat, running: bool,
                              received: seq<T>, dropped: nat)

  datatype Event<T> =
    | Receive(item: T)       // RX: a frame arrives, push begins
    | RxRing(step: Step<T>)  // RX: the next step of push
    | Signal                 // RX: eventfd_write
    | RxLeave                // RX: leaves its loop
    | TestRunning            // proc: loop test
    | ProcRing(step: Step<T>)// proc: the next step of pop
    | Shape                  // proc: process_queue returns
    | Poll                   // proc: poll returns, if something is readable
    | Interrupted            // proc: poll fails with EINTR
    | PollFails              // proc: poll fails otherwise
    | Drain                  // proc: eventfd_read of the frame eventfd
    | TakeStop               // proc: eventfd_read of the stop eventfd
    | Stop                   // another thread calls stop
    | StopRead               // the RX thread consumes a stop token

  predicate PushStep<T>(step: Step<T>) { step.CheckHead? || step.BeginWrite? || step.EndWrite? || step.StoreTail? }

  predicate PopStep<T>(step: Step<T>) {
    step.LoadHead? || step.CheckTail? || step.BeginRead? || step.EndRead? || step.StoreHead?
  }

  predicate Enabled<T>(w: Worker<T>, ev: Event<T>) {
    match ev
    case Receive(_) => w.rx.RxWaiting? && w.running && w.ring.prod.PIdle?
    case RxRing(step) => w.rx.RxPushing? && PushStep(step) && SpscRing.Enabled(w.ring, step)
    case Signal => w.rx.RxMustSignal?
    case RxLeave => w.rx.RxWaiting?
    case TestRunning => w.proc.ProcTop?
    case ProcRing(step) => w.proc.ProcDraining? && PopStep(step) && SpscRing.Enabled(w.ring, step)
    case Shape => w.proc.ProcShaping?
    case Poll => w.proc.ProcPolling? && (w.frames > 0 || w.stops > 0)
    case Interrupted => w.proc.ProcPolling?
    case PollFails => w.proc.ProcPolling?
    case Drain => w.proc.ProcReading? && w.frames > 0
    case TakeStop => w.proc.ProcStopping? && w.stops > 0
    case Stop => true
    case StopRead => w.rx.RxWaiting? && w.stops > 0
  }

  function Next<T>(w: Worker<T>, ev: Event<T>): Worker<T> {
    if !Enabled(w, ev) then w
    else
      match ev
      case Receive(item) =>
        w.(ring := SpscRing.Next(w.ring, LoadTail(item)), rx := RxPushing, received := w.received + [item])
      case RxRing(step) =>
        var ring := SpscRing.Next(w.ring, step);
        if step.StoreTail? then w.(ring := ring, rx := RxMustSignal)
        else if ring.prod.PIdle? then w.(ring := ring, rx := RxWaiting, dropped := w.dropped + 1)
        else w.(ring := ring)
      case Signal => w.(frames := w.frames + 1, rx := RxWaiting)
      case RxLeave => w.(rx := RxDone)
      case TestRunning => w.(proc := if w.running then ProcDraining else ProcDone)
      case ProcRing(step) =>
        var ring := SpscRing.Next(w.ring, step);
        if step.CheckTail? && ring.cons.CIdle? then w.(ring := ring, proc := ProcShaping) else w.(ring := ring)
      case Shape => w.(proc := ProcPolling)
      case Poll => w.(proc := if w.stops > 0 then ProcStopping else ProcReading)
      case Interrupted => w.(proc := ProcTop)
      case PollFails => w.(proc := ProcDone)
      case Drain => w.(frames := 0, proc := ProcTop)
      case TakeStop => w.(stops := w.stops - 1, proc := ProcDone)
      case Stop => w.(running := false, stops := w.stops + 2)
      case StopRead => w.(stops := w.stops - 1, rx := RxDone)
  }

  function Run<T>(w: Worker<T>, evs: seq<Event<T>>): Worker<T> {
    if evs == [] then w else Next(Run(w, evs[..|evs| - 1]), evs[|evs| - 1])
  }

  predicate Initial<T>(w: Worker<T>) {
    && SpscRing.Initial(w.ring) && w.rx.RxWaiting? && w.proc.ProcTop? && w.frames == 0 && w.stops == 0 && w.running
    && w.received == [] && w.dropped == 0
  }

  /** No lost wake-up: if the processing thread has seen an empty ring and is on its way to poll while
      the ring holds a frame, then the eventfd is readable or the receive thread is about to make it so. */
  ghost predicate WakePending<T>(w: Worker<T>) {
    (w.proc.ProcShaping? || w.proc.ProcPolling?) && Count(w.ring) > 0 ==> w.frames > 0 || w.rx.RxMustSignal?
  }

  ghost predicate Inv<T>(w: Worker<T>) {
    && SpscRing.Inv(w.ring)
    && (w.rx.RxPushing? <==> !w.ring.prod.PIdle?)
    && (w.proc.ProcReading? ==> w.frames > 0)
    && WakePending(w)
    && |w.received| == |w.ring.pushed| + w.dropped + (if w.rx.RxPushing? then 1 else 0)
  }

  lemma PushStepKeepsInv<T>(w: Worker<T>, ev: Event<T>)
    requires Inv(w) && Enabled(w, ev) && ev.RxRing?
    ensures Inv(Next(w, ev))
  {
    NextKeepsInv(w.ring, ev.step);
  }

  lemma PopStepKeepsInv<T>(w: Worker<T>, ev: Event<T>)
    requires Inv(w) && Enabled(w, ev) && ev.ProcRing?
    ensures Inv(Next(w, ev))
  {
    NextKeepsInv(w.ring, ev.step);
    EmptyIff(w.ring);
  }

  lemma WorkerKeepsInv<T>(w: Worker<T>, ev: Event<T>)
    requires Inv(w)
    ensures Inv(Next(w, ev))
  {
    if Enabled(w, ev) {
      match ev
      case Receive(item) => NextKeepsInv(w.ring, LoadTail(item));
      case RxRing(_) => PushStepKeepsInv(w, ev);
      case ProcRing(_) => PopStepKeepsInv(w, ev);
      case _ =>
    }
  }

  lemma {:induction false} RunKeepsInv<T>(w: Worker<T>, evs: seq<Event<T>>)
    requires Inv(w)
    ensures Inv(Run(w, evs))
  {
    if evs != [] {
      RunKeepsInv(w, evs[..|evs| - 1]);
      WorkerKeepsInv(Run(w, evs[..|evs| - 1]), evs[|evs| - 1]);
    }
  }

  /** In every run: no wake-up is lost, every received frame is pushed or counted as dropped, and what
      was dispatched is a prefix of what was pushed. */
  lemma NoLostWakeUp<T>(w: Worker<T>, evs: seq<Event<T>>)
    requires Initial(w)
    ensures var t := Run(w, evs);
            && WakePending(t) && t.ring.popped <= t.ring.pushed
            && |t.received| == |t.ring.pushed| + t.dropped + (if t.rx.RxPushing? then 1 else 0)
  {
    RunKeepsInv(w, evs);
  }

  /** A processing thread that poll keeps asleep, while the receive thread is between frames, has
      dispatched every frame ever pushed. */
  lemma SleepsOnlyWhenDone<T>(w: Worker<T>, evs: seq<Event<T>>)
    requires Initial(w)
    requires var t := Run(w, evs); t.proc.ProcPolling? && !Enabled(t, Poll) && !t.rx.RxMustSignal?
    ensures Run(w, evs).ring.popped == Run(w, evs).ring.pushed
  {
    RunKeepsInv(w, evs);
  }

  // ----- Every frame has its fate -----

  /** The frames that arrived. */
  function Arrivals<T>(w: Worker<T>, evs: seq<Event<T>>): seq<T> {
    if evs == [] then []
    else
      var before, ev := evs[..|evs| - 1], evs[|evs| - 1];
      Arrivals(w, before) + if ev.Receive? && Enabled(Run(w, before), ev) then [ev.item] else []
  }

  /** What became of a frame, if this event settles it: pushed, or dropped because the ring was full. */
  function Fate<T>(w: Worker<T>, ev: Event<T>): seq<bool> {
    if !ev.RxRing? || !Enabled(w, ev) then []
    else if ev.step.StoreTail? then [true]
    else if ev.step.CheckHead? && Count(w.ring) == Cap(w.ring) - 1 then [false]
    else []
  }

  function Fates<T>(w: Worker<T>, evs: seq<Event<T>>): seq<bool> {
    if evs == [] then [] else Fates(w, evs[..|evs| - 1]) + Fate(Run(w, evs[..|evs| - 1]), evs[|evs| - 1])
  }

  /** The first items, without those whose fate is false. */
  function Select<T>(items: seq<T>, fates: seq<bool>): seq<T>
    requires |fates| <= |items|
  {
    if fates == [] then []
    else Select(items, fates[..|fates| - 1]) + if fates[|fates| - 1] then [items[|fates| - 1]] else []
  }

  function Dropped(fates: seq<bool>): nat {
    if fates == [] then 0 else Dropped(fates[..|fates| - 1]) + if fates[|fates| - 1] then 0 else 1
  }

  lemma {:induction false} SelectLonger<T>(items: seq<T>, x: T, fates: seq<bool>)
    requires |fates| <= |items|
    ensures Select(items + [x], fates) == Select(items, fates)
  {
    if fates != [] {
      SelectLonger(items, x, fates[..|fates| - 1]);
    }
  }

  lemma SelectOne<T>(items: seq<T>, fates: seq<bool>, last: bool)
    requires |fates| < |items|
    ensures Select(items, fates + [last]) == Select(items, fates) + if last then [items[|fates|]] else []
    ensures Dropped(fates + [last]) == Dropped(fates) + if last then 0 else 1
  {
    assert (fates + [last])[..|fates|] == fates;
  }

  /** The frames settled so far have the given fates, and the one in progress, if any, is the last to arrive. */
  ghost predicate Accounted<T>(t: Worker<T>, fates: seq<bool>) {
    && Inv(t) && |t.received| == |fates| + (if t.rx.RxPushing? then 1 else 0)
    && t.ring.pushed == Select(t.received, fates) && t.dropped == Dropped(fates)
    && (t.rx.RxPushing? ==> t.ring.prod.item == t.received[|fates|])
  }

  lemma StepAccounts<T>(t: Worker<T>, ev: Event<T>, fates: seq<bool>)
    requires Accounted(t, fates)
    ensures Accounted(Next(t, ev), fates + Fate(t, ev))
  {
    WorkerKeepsInv(t, ev);
    if !Enabled(t, ev) || !ev.RxRing? {
      assert fates + Fate(t, ev) == fates;
      if Enabled(t, ev) && ev.Receive? {
        SelectLonger(t.received, ev.item, fates);
      }
    } else {
      PushAccounts(t, ev, fates);
    }
  }

  lemma PushAccounts<T>(t: Worker<T>, ev: Event<T>, fates: seq<bool>)
    requires Accounted(t, fates) && ev.RxRing? && Enabled(t, ev) && Inv(Next(t, ev))
    ensures Accounted(Next(t, ev), fates + Fate(t, ev))
  {
    FullIff(t.ring);
    if Fate(t, ev) == [] {
      assert fates + Fate(t, ev) == fates;
    } else {
      SelectOne(t.received, fates, Fate(t, ev)[0]);
    }
  }

  lemma StartAccounts<T>(w: Worker<T>)
    requires Initial(w)
    ensures Accounted(w, [])
  {
  }

  lemma {:induction false} RunAccounts<T>(w: Worker<T>, evs: seq<Event<T>>)
    requires Initial(w)
    ensures Accounted(Run(w, evs), Fates(w, evs))
  {
    if evs == [] {
      StartAccounts(w);
    } else {
      RunAccounts(w, evs[..|evs| - 1]);
      StepAccounts(Run(w, evs[..|evs| - 1]), evs[|evs| - 1], Fates(w, evs[..|evs| - 1]));
    }
  }

  lemma StepReceives<T>(t: Worker<T>, ev: Event<T>)
    ensures Next(t, ev).received == t.received + if ev.Receive? && Enabled(t, ev) then [ev.item] else []
  {
  }

  lemma {:induction false} RunReceives<T>(w: Worker<T>, evs: seq<Event<T>>)
    requires w.received == []
    ensures Run(w, evs).received == Arrivals(w, evs)
  {
    if evs != [] {
      RunReceives(w, evs[..|evs| - 1]);
      StepReceives(Run(w, evs[..|evs| - 1]), evs[|evs| - 1]);
    }
  }

  /** In every run the frames that went into the ring are those that arrived, in order and unchanged,
      without exactly the dropped ones; and each of these found the ring full. */
  lemma FramesAreKept<T>(w: Worker<T>, evs: seq<Event<T>>)
    requires Initial(w)
    ensures var t, frames, fates := Run(w, evs), Arrivals(w, evs), Fates(w, evs);
            && |frames| == |fates| + (if t.rx.RxPushing? then 1 else 0)
            && t.ring.pushed == Select(frames, fates) && t.dropped == Dropped(fates)
            && t.ring.popped <= Select(frames, fates)
  {
    RunAccounts(w, evs);
    RunReceives(w, evs);
  }

  // ----- The processing thread goes on -----

  ghost predicate Undisturbed<T>(evs: seq<Event<T>>) {
    forall i | 0 <= i < |evs| :: !evs[i].Stop? && !evs[i].PollFails?
  }

  /** It leaves its loop only after a stop, or when poll fails. */
  lemma {:induction false} StaysAlive<T>(w: Worker<T>, evs: seq<Event<T>>)
    requires Initial(w) && Undisturbed(evs)
    ensures var t := Run(w, evs); t.running && t.stops == 0 && !t.proc.ProcDone? && !t.proc.ProcStopping?
  {
    if evs != [] {
      StaysAlive(w, evs[..|evs| - 1]);
    }
  }

  /** The next step of the processing thread; the receive thread's signal if it waits for that. */
  function Serving<T>(t: Worker<T>): Event<T> {
    match t.proc
    case ProcTop => TestRunning
    case ProcDraining =>
      ProcRing(match t.ring.cons case CIdle => LoadHead case CHead => CheckTail case CFilled => BeginRead
                                 case CReading => EndRead case CCopied(_) => StoreHead)
    case ProcShaping => Shape
    case ProcPolling => if t.frames > 0 then Poll else Signal
    case _ => Drain
  }

  /** Steps left until it has taken out a frame. */
  function StepsLeft<T>(t: Worker<T>): nat {
    match t.proc
    case ProcDraining =>
      (match t.ring.cons case CCopied(_) => 1 case CReading => 2 case CFilled => 3 case CHead => 4 case CIdle => 5)
    case ProcTop => 6
    case ProcReading => 7
    case ProcPolling => if t.frames > 0 then 8 else 9
    case _ => 10
  }

  ghost predicate Alive<T>(t: Worker<T>) {
    Inv(t) && t.running && t.stops == 0 && !t.proc.ProcDone? && !t.proc.ProcStopping? && Count(t.ring) > 0
  }

  lemma ServingHelps<T>(t: Worker<T>)
    requires Alive(t)
    ensures Enabled(t, Serving(t))
    ensures var u := Next(t, Serving(t));
            if StepsLeft(t) == 1 then u.ring.popped == t.ring.popped + [t.ring.pushed[|t.ring.popped|]]
            else && Alive(u) && u.ring.popped == t.ring.popped && u.ring.pushed == t.ring.pushed
                 && StepsLeft(u) < StepsLeft(t)
  {
    WorkerKeepsInv(t, Serving(t));
    EmptyIff(t.ring);
  }

  lemma {:induction false} RunFrom<T>(w: Worker<T>, ev: Event<T>, evs: seq<Event<T>>)
    ensures Run(w, [ev] + evs) == Run(Next(w, ev), evs)
  {
    if evs == [] {
      assert [ev] + evs == [ev] && [ev][..0] == [];
      assert Run(w, [ev]) == Next(Run(w, []), ev);
    } else {
      var n := |evs| - 1;
      RunFrom(w, ev, evs[..n]);
      assert ([ev] + evs)[..|[ev] + evs| - 1] == [ev] + evs[..n];
    }
  }

  lemma {:induction false} ServeFirst<T>(t: Worker<T>) returns (evs: seq<Event<T>>)
    requires Alive(t)
    ensures |evs| <= StepsLeft(t) <= 10
    ensures Run(t, evs).ring.popped == t.ring.popped + [t.ring.pushed[|t.ring.popped|]]
    decreases StepsLeft(t)
  {
    ServingHelps(t);
    var u := Next(t, Serving(t));
    if StepsLeft(t) == 1 {
      evs := [];
    } else {
      evs := ServeFirst(u);
    }
    RunFrom(t, Serving(t), evs);
    evs := [Serving(t)] + evs;
  }

  /** In every run in which nobody stops it and poll does not fail, a worker with a frame in its ring can
      take out the first one within ten steps, of the processing thread and at most one signal of the
      receive thread: it is never stuck with work. */
  lemma FrameIsServed<T>(w: Worker<T>, evs: seq<Event<T>>) returns (more: seq<Event<T>>)
    requires Initial(w) && Undisturbed(evs) && Count(Run(w, evs).ring) > 0
    ensures var t := Run(w, evs);
            && |more| <= 10 && 0 <= |t.ring.popped| < |t.ring.pushed|
            && Run(t, more).ring.popped == t.ring.popped + [t.ring.pushed[|t.ring.popped|]]
  {
    RunKeepsInv(w, evs);
    StaysAlive(w, evs);
    more := ServeFirst(Run(w, evs));
  }

  /** The processing thread sleeps in poll. */
  ghost predicate Asleep<T>(t: Worker<T>) { t.proc.ProcPolling? && !Enabled(t, Poll) }

  ghost predicate Going<T>(t: Worker<T>) {
    Inv(t) && t.running && t.stops == 0 && !t.proc.ProcDone? && !t.proc.ProcStopping?
  }

  /** Steps left until it sleeps on an empty ring. */
  function StepsToRest<T>(t: Worker<T>): nat
    requires Count(t.ring) >= 0
  {
    if Count(t.ring) > 0 then 11 * Count(t.ring) + StepsLeft(t)
    else
      match t.proc
      case ProcReading => 5
      case ProcPolling => if t.frames > 0 then 6 else 0
      case ProcShaping => if t.frames > 0 then 7 else 1
      case ProcDraining => (if t.ring.cons.CHead? then 2 else 3) + (if t.frames > 0 then 6 else 0)
      case _ => if t.frames > 0 then 10 else 4
  }

  lemma ServingRests<T>(t: Worker<T>)
    requires Going(t) && !(Asleep(t) && Count(t.ring) == 0)
    ensures var u := Next(t, Serving(t));
            Going(u) && u.ring.pushed == t.ring.pushed && StepsToRest(u) < StepsToRest(t)
  {
    WorkerKeepsInv(t, Serving(t));
    if Count(t.ring) > 0 {
      ServingHelps(t);
    } else {
      EmptyIff(t.ring);
    }
  }

  lemma {:induction false} ServeAll<T>(t: Worker<T>) returns (evs: seq<Event<T>>)
    requires Going(t)
    ensures |evs| <= StepsToRest(t)
    ensures var u := Run(t, evs); Asleep(u) && u.ring.popped == t.ring.pushed
    decreases StepsToRest(t)
  {
    if Asleep(t) && Count(t.ring) == 0 {
      evs := [];
    } else {
      ServingRests(t);
      evs := ServeAll(Next(t, Serving(t)));
      RunFrom(t, Serving(t), evs);
      evs := [Serving(t)] + evs;
    }
  }

  /** And it comes to rest: without new frames it can take out all it has and be asleep, within eleven steps a
      frame and ten more. */
  lemma ComesToRest<T>(w: Worker<T>, evs: seq<Event<T>>) returns (more: seq<Event<T>>)
    requires Initial(w) && Undisturbed(evs)
    ensures var t := Run(w, evs);
            && |more| <= 11 * Count(t.ring) + 10
            && Asleep(Run(t, more)) && Run(t, more).ring.popped == t.ring.pushed
  {
    RunKeepsInv(w, evs);
    StaysAlive(w, evs);
    more := ServeAll(Run(w, evs));
  }

  /** The eventfd is written at most once for every frame that goes into the ring. */
  lemma {:induction false} SignalPerFrame<T>(w: Worker<T>, evs: seq<Event<T>>)
    requires Initial(w)
    ensures var t := Run(w, evs); t.frames + (if t.rx.RxMustSignal? then 1 else 0) <= |t.ring.pushed|
  {
    if evs != [] {
      SignalPerFrame(w, evs[..|evs| - 1]);
    }
  }

  // ----- Stopping -----

  function StopCalls<T>(evs: seq<Event<T>>): nat {
    if evs == [] then 0 else StopCalls(evs[..|evs| - 1]) + if evs[|evs| - 1].Stop? then 1 else 0
  }

  /** Every stop leaves a token for each of the two threads: whoever is about to read one finds one. */
  lemma {:induction false} StopReadsSucceed<T>(w: Worker<T>, evs: seq<Event<T>>)
    requires Initial(w)
    ensures var t := Run(w, evs);
            && t.stops >= 2 * StopCalls(evs) - (if t.proc.ProcDone? then 1 else 0) - (if t.rx.RxDone? then 1 else 0)
            && (t.proc.ProcStopping? ==> StopCalls(evs) >= 1 && t.stops > 0)
            && (t.running <==> StopCalls(evs) == 0)
  {
    if evs != [] {
      StopReadsSucceed(w, evs[..|evs| - 1]);
      StopsSeen(w, evs[..|evs| - 1]);
    }
  }

  /** The next step of the processing thread on its way out. */
  function Leaving<T>(t: Worker<T>): Event<T> {
    if t.proc.ProcPolling? then Poll else if t.proc.ProcStopping? then TakeStop else Serving(t)
  }

  /** Steps left until it has left: it drains the ring first, and a frame that is signalled does not hold it up. */
  function StepsOut<T>(t: Worker<T>): nat
    requires Count(t.ring) >= 0
  {
    match t.proc
    case ProcDraining =>
      if Count(t.ring) > 0 then 5 * Count(t.ring) + StepsLeft(t) else if t.ring.cons.CHead? then 4 else 5
    case ProcShaping => 3
    case ProcPolling => 2
    case ProcReading => 2
    case ProcDone => 0
    case _ => 1
  }

  lemma LeavingHelps<T>(t: Worker<T>)
    requires Inv(t) && !t.running && t.stops > 0 && !t.proc.ProcDone?
    ensures var u := Next(t, Leaving(t));
            && Inv(u) && !u.running && (u.proc.ProcDone? || u.stops > 0) && StepsOut(u) < StepsOut(t)
            && u.ring.pushed == t.ring.pushed && Count(u.ring) <= Count(t.ring)
  {
    WorkerKeepsInv(t, Leaving(t));
    EmptyIff(t.ring);
  }

  lemma {:induction false} Leaves<T>(t: Worker<T>) returns (evs: seq<Event<T>>)
    requires Inv(t) && !t.running && (t.proc.ProcDone? || t.stops > 0)
    ensures |evs| <= StepsOut(t) && Run(t, evs).proc.ProcDone?
    decreases StepsOut(t)
  {
    if t.proc.ProcDone? {
      evs := [];
    } else {
      LeavingHelps(t);
      evs := Leaves(Next(t, Leaving(t)));
      RunFrom(t, Leaving(t), evs);
      evs := [Leaving(t)] + evs;
    }
  }

  /** In every run with a stop, the processing thread can leave by steps of its own, at most five for each frame
      in the ring and five more. */
  lemma StopEnds<T>(w: Worker<T>, evs: seq<Event<T>>) returns (more: seq<Event<T>>)
    requires Initial(w) && StopCalls(evs) > 0
    ensures var t := Run(w, evs); |more| <= 5 * Count(t.ring) + 5 && Run(t, more).proc.ProcDone?
  {
    RunKeepsInv(w, evs);
    StopReadsSucceed(w, evs);
    more := Leaves(Run(w, evs));
  }

  lemma {:induction false} StopsSeen<T>(w: Worker<T>, evs: seq<Event<T>>)
    requires Initial(w)
    ensures Run(w, evs).stops > 0 ==> StopCalls(evs) >= 1
  {
    if evs != [] {
      StopsSeen(w, evs[..|evs| - 1]);
    }
  }
}
