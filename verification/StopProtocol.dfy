/** Shutdown: N threads poll one semaphore eventfd; stop clears the running flag, writes K tokens and
    joins the threads. The forwarding workers use N = K = 2, the control plane N = K = 7. */
module StopProtocol {

  datatype Thread =
    | Top            // at the test of the running flag
    | Polling        // at, or blocked in, poll
    | Working        // woken by something else
    | MustRead       // poll reported the stop eventfd: the next step is a blocking read
    | Left           // left its loop without reading
    | Stopped        // left its loop after the read

  datatype State = State(threads: seq<Thread>, running: bool, written: bool, tokens: nat)

  datatype Step =
    | ClearRunning
    | WriteTokens
    | Test(i: nat)        // thread i tests the running flag
    | StopReady(i: nat)   // poll reports the stop eventfd readable
    | OtherWake(i: nat)   // poll times out, or reports another descriptor only
    | Interrupted(i: nat) // poll fails with EINTR, which may hide a readable eventfd
    | PollFails(i: nat)   // poll fails for good
    | Resume(i: nat)      // thread i finishes its work
    | Read(i: nat)        // eventfd_read in semaphore mode

  predicate Enabled(s: State, step: Step) {
    match step
    case ClearRunning => s.running
    case WriteTokens => !s.running && !s.written
    case Test(i) => i < |s.threads| && s.threads[i].Top?
    case StopReady(i) => i < |s.threads| && s.threads[i].Polling? && s.tokens > 0
    case OtherWake(i) => i < |s.threads| && s.threads[i].Polling? && s.tokens == 0
    case Interrupted(i) => i < |s.threads| && s.threads[i].Polling?
    case PollFails(i) => i < |s.threads| && s.threads[i].Polling?
    case Resume(i) => i < |s.threads| && s.threads[i].Working?
    case Read(i) => i < |s.threads| && s.threads[i].MustRead? && s.tokens > 0
  }

  function Next(s: State, k: nat, step: Step): State {
    if !Enabled(s, step) then s
    else
      match step
      case ClearRunning => s.(running := false)
      case WriteTokens => s.(written := true, tokens := k)
      case Test(i) => s.(threads := s.threads[i := if s.running then Polling else Left])
      case StopReady(i) => s.(threads := s.threads[i := MustRead])
      case OtherWake(i) => s.(threads := s.threads[i := Working])
      case Interrupted(i) => s.(threads := s.threads[i := Top])
      case PollFails(i) => s.(threads := s.threads[i := Left])
      case Resume(i) => s.(threads := s.threads[i := Top])
      case Read(i) => s.(threads := s.threads[i := Stopped], tokens := s.tokens - 1)
  }

  function Run(s: State, k: nat, steps: seq<Step>): State {
    if steps == [] then s else Next(Run(s, k, steps[..|steps| - 1]), k, steps[|steps| - 1])
  }

  function Start(n: nat): State { State(seq(n, _ => Top), true, false, 0) }

  /** Threads that have taken a token. */
  function Takers(ts: seq<Thread>): nat {
    if ts == [] then 0 else Takers(ts[..|ts| - 1]) + (if ts[|ts| - 1].Stopped? then 1 else 0)
  }

  lemma {:induction false} TakersAfter(ts: seq<Thread>, i: nat, t: Thread)
    requires i < |ts|
    ensures Takers(ts[i := t]) == Takers(ts) - (if ts[i].Stopped? then 1 else 0) + (if t.Stopped? then 1 else 0)
  {
    var n := |ts| - 1;
    if i == n {
      assert ts[i := t][..n] == ts[..n];
    } else {
      TakersAfter(ts[..n], i, t);
      assert ts[i := t][..n] == ts[..n][i := t];
    }
  }

  lemma {:induction false} SomeoneLeft(ts: seq<Thread>, i: nat)
    requires i < |ts| && !ts[i].Stopped?
    ensures Takers(ts) < |ts|
  {
    var n := |ts| - 1;
    if i < n {
      SomeoneLeft(ts[..n], i);
    } else {
      TakersAtMost(ts[..n]);
    }
  }

  lemma {:induction false} TakersAtMost(ts: seq<Thread>)
    ensures Takers(ts) <= |ts|
  {
    if ts != [] {
      TakersAtMost(ts[..|ts| - 1]);
    }
  }

  /** Tokens are conserved: each is still in the eventfd or was taken by one thread. */
  ghost predicate Inv(s: State, k: nat) {
    && (s.written ==> !s.running && s.tokens + Takers(s.threads) == k)
    && (!s.written ==> s.tokens == 0 && Takers(s.threads) == 0
                       && forall i | 0 <= i < |s.threads| :: !s.threads[i].MustRead?)
  }

  lemma {:induction false} StartInv(n: nat, k: nat)
    ensures Inv(Start(n), k)
  {
    if n > 0 {
      StartInv(n - 1, k);
      assert Start(n).threads[..n - 1] == Start(n - 1).threads;
    }
  }

  lemma NextKeepsInv(s: State, k: nat, step: Step)
    requires Inv(s, k)
    ensures Inv(Next(s, k, step), k) && |Next(s, k, step).threads| == |s.threads|
  {
    if Enabled(s, step) && !step.ClearRunning? && !step.WriteTokens? {
      TakersAfter(s.threads, step.i, Next(s, k, step).threads[step.i]);
    }
  }

  lemma {:induction false} RunKeepsInv(s: State, k: nat, steps: seq<Step>)
    requires Inv(s, k)
    ensures Inv(Run(s, k, steps), k) && |Run(s, k, steps).threads| == |s.threads|
  {
    if steps != [] {
      RunKeepsInv(s, k, steps[..|steps| - 1]);
      NextKeepsInv(Run(s, k, steps[..|steps| - 1]), k, steps[|steps| - 1]);
    }
  }

  /** With a token for every thread, a thread that has reached its blocking read always finds one,
      whatever the others did, including those that left by the running flag. */
  lemma ReadNeverBlocks(n: nat, k: nat, steps: seq<Step>, i: nat)
    requires n <= k && i < |Run(Start(n), k, steps).threads| && Run(Start(n), k, steps).threads[i].MustRead?
    ensures Enabled(Run(Start(n), k, steps), Read(i))
  {
    StartInv(n, k);
    RunKeepsInv(Start(n), k, steps);
    SomeoneLeft(Run(Start(n), k, steps).threads, i);
  }

  // ----- Shutdown terminates -----

  function Rank(t: Thread): nat {
    match t
    case Left | Stopped => 0
    case Top | MustRead => 1
    case Working | Polling => 2
  }

  function Work(ts: seq<Thread>): nat {
    if ts == [] then 0 else Work(ts[..|ts| - 1]) + Rank(ts[|ts| - 1])
  }

  lemma {:induction false} WorkAtMost(ts: seq<Thread>)
    ensures Work(ts) <= 2 * |ts|
  {
    if ts != [] {
      WorkAtMost(ts[..|ts| - 1]);
    }
  }

  lemma {:induction false} WorkAfter(ts: seq<Thread>, i: nat, t: Thread)
    requires i < |ts|
    ensures Work(ts[i := t]) == Work(ts) - Rank(ts[i]) + Rank(t)
  {
    var n := |ts| - 1;
    if i == n {
      assert ts[i := t][..n] == ts[..n];
    } else {
      WorkAfter(ts[..n], i, t);
      assert ts[i := t][..n] == ts[..n][i := t];
    }
  }

  /** Once the tokens are written, no step is a detour: each one brings some thread closer to its exit. */
  lemma StepsHelp(s: State, k: nat, step: Step)
    requires |s.threads| <= k && Inv(s, k) && s.written && Enabled(s, step)
    ensures Work(Next(s, k, step).threads) < Work(s.threads)
  {
    WorkAfter(s.threads, step.i, Next(s, k, step).threads[step.i]);
    if step.OtherWake? {
      SomeoneLeft(s.threads, step.i);
    }
  }

  /** A thread that is still in its loop has a step. */
  lemma NobodyIsStuck(s: State, k: nat, i: nat)
    requires |s.threads| <= k && Inv(s, k) && s.written && i < |s.threads| && Rank(s.threads[i]) > 0
    ensures exists next :: next in {Test(i), StopReady(i), Resume(i), Read(i)} && Enabled(s, next)
  {
    SomeoneLeft(s.threads, i);
    var next := match s.threads[i] case Top => Test(i) case Polling => StopReady(i)
                                   case Working => Resume(i) case _ => Read(i);
    assert Enabled(s, next);
  }

  /** Every step of the run happened. */
  ghost predicate Taken(s: State, k: nat, steps: seq<Step>) {
    steps != [] ==>
      Taken(s, k, steps[..|steps| - 1]) && Enabled(Run(s, k, steps[..|steps| - 1]), steps[|steps| - 1])
  }

  /** So stop's joins return: after the tokens are written there is no run longer than the work left, which
      is at most two steps per thread, and where no further step is possible every thread has left its loop. */
  lemma {:induction false} StopTerminates(s: State, k: nat, steps: seq<Step>)
    requires |s.threads| <= k && Inv(s, k) && s.written && Taken(s, k, steps)
    ensures var t := Run(s, k, steps);
            && Inv(t, k) && t.written && |t.threads| == |s.threads|
            && |steps| + Work(t.threads) <= Work(s.threads) <= 2 * |s.threads|
            && ((forall step :: !Enabled(t, step)) ==> forall i | 0 <= i < |t.threads| :: Rank(t.threads[i]) == 0)
  {
    RunKeepsInv(s, k, steps);
    WorkAtMost(s.threads);
    if steps != [] {
      var t := Run(s, k, steps[..|steps| - 1]);
      StopTerminates(s, k, steps[..|steps| - 1]);
      StepsHelp(t, k, steps[|steps| - 1]);
    }
    var t := Run(s, k, steps);
    forall i | 0 <= i < |t.threads| && forall step :: !Enabled(t, step)
      ensures Rank(t.threads[i]) == 0
    {
      if Rank(t.threads[i]) > 0 {
        NobodyIsStuck(t, k, i);
      }
    }
  }

  // ----- The two uses -----

  const WORKER_THREADS: nat := 2          // a worker's receive and processing threads
  const WORKER_TOKENS: nat := 2           // written by wake_workers
  const WATCHDOG_SERVICE_COUNT: nat := 6  // the control plane's services; its event thread comes on top

  ghost predicate AllGone(t: State) {
    forall i | 0 <= i < |t.threads| :: t.threads[i].Left? || t.threads[i].Stopped?
  }

  /** After these steps, if the tokens are written, no run of more than two steps per thread follows, and one
      that can go no further leaves no thread behind. */
  ghost predicate StopsAfter(threads: nat, tokens: nat, before: seq<Step>, steps: seq<Step>) {
    var s := Run(Start(threads), tokens, before);
    s.written && Taken(s, tokens, steps) ==>
      && |steps| <= 2 * threads
      && ((forall step :: !Enabled(Run(s, tokens, steps), step)) ==> AllGone(Run(s, tokens, steps)))
  }

  ghost predicate Stops(threads: nat, tokens: nat) {
    forall before: seq<Step>, steps: seq<Step> :: StopsAfter(threads, tokens, before, steps)
  }

  lemma EnoughTokensStop(threads: nat, tokens: nat)
    requires threads <= tokens
    ensures Stops(threads, tokens)
  {
    forall before: seq<Step>, steps: seq<Step>
      ensures StopsAfter(threads, tokens, before, steps)
    {
      var s := Run(Start(threads), tokens, before);
      StartInv(threads, tokens);
      RunKeepsInv(Start(threads), tokens, before);
      if s.written && Taken(s, tokens, steps) {
        StopTerminates(s, tokens, steps);
      }
    }
  }

  /** A worker, with its two tokens, and the control plane, with its seven threads and as many tokens, stop. */
  lemma BothStop()
    ensures Stops(WORKER_THREADS, WORKER_TOKENS) && Stops(7, WATCHDOG_SERVICE_COUNT + 1)
  {
    EnoughTokensStop(WORKER_THREADS, WORKER_TOKENS);
    EnoughTokensStop(7, WATCHDOG_SERVICE_COUNT + 1);
  }

  // ----- One token fewer is not enough -----

  lemma {:induction false} RunAppend(s: State, k: nat, a: seq<Step>, b: seq<Step>)
    ensures Run(s, k, a + b) == Run(Run(s, k, a), k, b)
  {
    if b == [] {
      assert a + b == a;
    } else {
      RunAppend(s, k, a, b[..|b| - 1]);
      assert (a + b)[..|a + b| - 1] == a + b[..|b| - 1];
    }
  }

  /** Threads 0..m-1 are at one place and the others at another. */
  function Split(n: nat, m: nat, first: Thread, rest: Thread): seq<Thread> {
    seq(n, i => if i < m then first else rest)
  }

  function Tests(m: nat): seq<Step> { if m == 0 then [] else Tests(m - 1) + [Test(m - 1)] }

  function Readies(m: nat): seq<Step> { if m == 0 then [] else Readies(m - 1) + [StopReady(m - 1)] }

  function Reads(m: nat): seq<Step> { if m == 0 then [] else Reads(m - 1) + [Read(m - 1)] }

  lemma SplitGrows(n: nat, m: nat, first: Thread, rest: Thread)
    requires 0 < m <= n
    ensures Split(n, m - 1, first, rest)[m - 1] == rest
    ensures Split(n, m - 1, first, rest)[m - 1 := first] == Split(n, m, first, rest)
  {
  }

  lemma {:induction false} AllPoll(n: nat, k: nat, m: nat)
    requires m <= n
    ensures Run(Start(n), k, Tests(m)) == State(Split(n, m, Polling, Top), true, false, 0)
  {
    if m == 0 {
      assert Split(n, 0, Polling, Top) == Start(n).threads;
    } else {
      AllPoll(n, k, m - 1);
      assert Tests(m)[..|Tests(m)| - 1] == Tests(m - 1);
      SplitGrows(n, m, Polling, Top);
    }
  }

  lemma {:induction false} AllReady(n: nat, k: nat, m: nat)
    requires m <= n && k > 0
    ensures Run(State(Split(n, 0, MustRead, Polling), false, true, k), k, Readies(m))
         == State(Split(n, m, MustRead, Polling), false, true, k)
  {
    if m > 0 {
      AllReady(n, k, m - 1);
      assert Readies(m)[..|Readies(m)| - 1] == Readies(m - 1);
      SplitGrows(n, m, MustRead, Polling);
    }
  }

  lemma {:induction false} SomeRead(n: nat, k: nat, m: nat)
    requires m <= k < n
    ensures Run(State(Split(n, 0, Stopped, MustRead), false, true, k), k, Reads(m))
         == State(Split(n, m, Stopped, MustRead), false, true, k - m)
  {
    if m > 0 {
      SomeRead(n, k, m - 1);
      assert Reads(m)[..|Reads(m)| - 1] == Reads(m - 1);
      SplitGrows(n, m, Stopped, MustRead);
    }
  }

  /** Before that, no thread leaves its loop unless poll fails. */
  lemma {:induction false} StaysUntilStopped(n: nat, k: nat, steps: seq<Step>)
    requires forall i | 0 <= i < |steps| :: !steps[i].ClearRunning? && !steps[i].PollFails?
    ensures var s := Run(Start(n), k, steps);
            && s.running && !s.written && s.tokens == 0 && |s.threads| == n
            && forall i | 0 <= i < n :: !s.threads[i].Left? && !s.threads[i].Stopped?
  {
    if steps != [] {
      StaysUntilStopped(n, k, steps[..|steps| - 1]);
    }
  }

  /** With at least one token but fewer than threads, some run leaves a thread blocked in its read. */
  lemma TooFewTokensBlock(n: nat, k: nat) returns (steps: seq<Step>)
    requires 0 < k < n
    ensures |Run(Start(n), k, steps).threads| == n && Run(Start(n), k, steps).threads[k].MustRead?
    ensures Run(Start(n), k, steps).tokens == 0
  {
    var polls, readies, taken := Tests(n), Readies(n), Reads(k);
    var stop := [ClearRunning, WriteTokens];
    AllPoll(n, k, n);
    var s1 := State(Split(n, n, Polling, Top), true, false, 0);
    assert stop[..1] == [ClearRunning] && [ClearRunning][..0] == [];
    assert Run(s1, k, [ClearRunning]) == s1.(running := false);
    assert Split(n, n, Polling, Top) == Split(n, 0, MustRead, Polling);
    RunAppend(Start(n), k, polls, stop);
    AllReady(n, k, n);
    RunAppend(Start(n), k, polls + stop, readies);
    assert Split(n, n, MustRead, Polling) == Split(n, 0, Stopped, MustRead);
    SomeRead(n, k, k);
    RunAppend(Start(n), k, polls + stop + readies, taken);
    steps := polls + stop + readies + taken;
  }
}
