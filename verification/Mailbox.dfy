/** The bandwidth-cap mailbox: the user interface stores two pending values and then raises a flag; the
    controller takes the flag down, loads the values one after the other, shows them, and puts each into
    the pending-rate slot of its token bucket; the shaper's next refill takes it out. Every interleaving
    of these single accesses is a sequence of steps. */
module Mailbox {
  import opened TokenBucket

  type Mbps = r: real | r > 0.0 witness 1.0

  datatype Gui =
    | Idle
    | MustStoreUl(dl: Mbps, ul: Mbps)  // the first value is stored
    | MustRaise(dl: Mbps, ul: Mbps)    // both values are stored

  datatype Controller =
    | Resting
    | LoadingDl
    | LoadingUl(dl: Mbps)
    | ShowingDl(dl: Mbps, ul: Mbps)
    | ShowingUl(dl: Mbps, ul: Mbps)
    | SettingDl(dl: Mbps, ul: Mbps)
    | SettingUl(dl: Mbps, ul: Mbps)

  /** `begun` is the history of submissions: the pair in force at the start, and then every pair whose
      first value has been stored. */
  datatype State = State(gui: Gui, pendingDl: Mbps, pendingUl: Mbps, dirty: bool, ctl: Controller,
                         shownDl: Mbps, shownUl: Mbps, dl: Bucket, ul: Bucket, begun: seq<(Mbps, Mbps)>)

  /** The last pair whose submission is complete. */
  function Asked(s: State): (Mbps, Mbps) {
    var n := |s.begun| - (if s.gui.Idle? then 1 else 2);
    if n >= 0 then s.begun[n] else (s.pendingDl, s.pendingUl)
  }

  datatype Step =
    | Submit(down: Mbps, up: Mbps)    // the interface stores the first value
    | StoreUl                         // ... and the second
    | Raise                           // ... and the flag
    | Tick                            // the next access of the controller
    | RefillDl(at: real, now: real)
    | RefillUl(at: real, now: real)

  function TickOnce(s: State): State {
    match s.ctl
    case Resting => if s.dirty then s.(dirty := false, ctl := LoadingDl) else s
    case LoadingDl => s.(ctl := LoadingUl(s.pendingDl))
    case LoadingUl(d) => s.(ctl := ShowingDl(d, s.pendingUl))
    case ShowingDl(d, u) => s.(shownDl := d, ctl := ShowingUl(d, u))
    case ShowingUl(d, u) => s.(shownUl := u, ctl := SettingDl(d, u))
    case SettingDl(d, u) => s.(dl := s.dl.(requested := d), ctl := SettingUl(d, u))
    case SettingUl(d, u) => s.(ul := s.ul.(requested := u), ctl := Resting)
  }

  function Next(s: State, step: Step): State {
    match step
    case Submit(d, u) =>
      if s.gui.Idle? then s.(pendingDl := d, gui := MustStoreUl(d, u), begun := s.begun + [(d, u)]) else s
    case StoreUl =>
      if s.gui.MustStoreUl? then s.(pendingUl := s.gui.ul, gui := MustRaise(s.gui.dl, s.gui.ul)) else s
    case Raise => if s.gui.MustRaise? then s.(dirty := true, gui := Idle) else s
    case Tick => TickOnce(s)
    case RefillDl(at, now) => s.(dl := Refill(s.dl, at, now))
    case RefillUl(at, now) => s.(ul := Refill(s.ul, at, now))
  }

  function Run(s: State, steps: seq<Step>): State {
    if steps == [] then s else Next(Run(s, steps[..|steps| - 1]), steps[|steps| - 1])
  }

  // ----- No lost update -----

  /** The bucket runs at this rate, or will from its next refill. */
  predicate Reaches(b: Bucket, mbps: Mbps) {
    b.requested == mbps || (b.requested == NONE && b.rate == RateOf(mbps))
  }

  predicate Shown(s: State) { s.shownDl == s.pendingDl && s.shownUl == s.pendingUl }

  /** The controller has, or will get, the pending pair. */
  predicate UnderWay(s: State) {
    match s.ctl
    case Resting => Shown(s) && Reaches(s.dl, s.pendingDl) && Reaches(s.ul, s.pendingUl)
    case LoadingDl => true
    case LoadingUl(d) => d == s.pendingDl
    case ShowingDl(d, u) => d == s.pendingDl && u == s.pendingUl
    case ShowingUl(d, u) => d == s.pendingDl && u == s.pendingUl && s.shownDl == d
    case SettingDl(d, u) => d == s.pendingDl && u == s.pendingUl && Shown(s)
    case SettingUl(d, u) => d == s.pendingDl && u == s.pendingUl && Shown(s) && Reaches(s.dl, s.pendingDl)
  }

  /** The submissions that the two pending values come from, as positions in the history. */
  function DlFrom(s: State): int { |s.begun| - 1 }

  function UlFrom(s: State): int { |s.begun| - 1 - Outstanding(s) }

  /** Is the interface between its two stores? */
  function Outstanding(s: State): nat { if s.gui.MustStoreUl? then 1 else 0 }

  predicate History(s: State) {
    && |s.begun| >= (if s.gui.Idle? then 1 else 2)
    && s.pendingDl == s.begun[DlFrom(s)].0 && s.pendingUl == s.begun[UlFrom(s)].1
    && (!s.gui.Idle? ==> (s.gui.dl, s.gui.ul) == s.begun[|s.begun| - 1])
  }

  predicate Inv(s: State) { History(s) && (s.gui.Idle? && !s.dirty ==> UnderWay(s)) }

  /** Start: the buckets already run at the pending values, and nothing has been submitted. */
  predicate Initial(s: State) {
    && s.gui.Idle? && !s.dirty && s.ctl.Resting? && Shown(s) && s.begun == [(s.pendingDl, s.pendingUl)]
    && Reaches(s.dl, s.pendingDl) && Reaches(s.ul, s.pendingUl)
  }

  lemma RefillReaches(b: Bucket, mbps: Mbps, at: real, now: real)
    requires Reaches(b, mbps)
    ensures Refill(b, at, now).rate == RateOf(mbps) && Refill(b, at, now).requested == NONE
  {
  }

  lemma NextKeepsInv(s: State, step: Step)
    requires Inv(s)
    ensures Inv(Next(s, step))
  {
    match step
    case RefillDl(at, now) =>
      if Reaches(s.dl, s.pendingDl) {
        RefillReaches(s.dl, s.pendingDl, at, now);
      }
    case RefillUl(at, now) =>
      if Reaches(s.ul, s.pendingUl) {
        RefillReaches(s.ul, s.pendingUl, at, now);
      }
    case _ =>
  }

  lemma {:induction false} RunKeepsInv(s: State, steps: seq<Step>)
    requires Inv(s)
    ensures Inv(Run(s, steps))
  {
    if steps != [] {
      RunKeepsInv(s, steps[..|steps| - 1]);
      NextKeepsInv(Run(s, steps[..|steps| - 1]), steps[|steps| - 1]);
    }
  }

  predicate Settled(s: State) {
    s.gui.Idle? && !s.dirty && s.ctl.Resting? && s.dl.requested == NONE && s.ul.requested == NONE
  }

  /** The pair is the one shown, and the one both buckets run at. */
  predicate InForce(s: State, pair: (Mbps, Mbps)) {
    pair == (s.shownDl, s.shownUl) && s.dl.rate == RateOf(pair.0) && s.ul.rate == RateOf(pair.1)
  }

  /** No submission is lost: whatever the interleaving, once nothing is under way the last pair submitted
      is the one shown and the one both buckets run at. */
  lemma NoCapIsLost(s: State, steps: seq<Step>)
    requires Initial(s) && Settled(Run(s, steps))
    ensures Inv(Run(s, steps)) && InForce(Run(s, steps), Asked(Run(s, steps)))
  {
    RunKeepsInv(s, steps);
  }

  // ----- The mailbox settles -----

  /** Controller accesses left until it rests with the flag down. */
  function Left(s: State): nat {
    (if s.dirty then 7 else 0)
    + (match s.ctl
       case Resting => 0
       case LoadingDl => 6
       case LoadingUl(_) => 5
       case ShowingDl(_, _) => 4
       case ShowingUl(_, _) => 3
       case SettingDl(_, _) => 2
       case SettingUl(_, _) => 1)
  }

  predicate Quiet(steps: seq<Step>) { forall i | 0 <= i < |steps| :: !steps[i].Submit? }

  function Ticks(steps: seq<Step>): nat {
    if steps == [] then 0
    else Ticks(steps[..|steps| - 1]) + (if steps[|steps| - 1].Tick? then 1 else 0)
  }

  lemma {:induction false} TicksFinish(s: State, steps: seq<Step>)
    requires s.gui.Idle? && Quiet(steps)
    ensures var t := Run(s, steps);
            t.gui.Idle? && t.begun == s.begun && (Left(t) == 0 || Left(t) + Ticks(steps) == Left(s))
  {
    if steps != [] {
      TicksFinish(s, steps[..|steps| - 1]);
    }
  }

  lemma {:induction false} RefillsFinish(s: State, steps: seq<Step>)
    requires s.gui.Idle? && Left(s) == 0 && Quiet(steps)
    ensures var t := Run(s, steps);
            && t.gui.Idle? && Left(t) == 0 && t.begun == s.begun
            && ((exists i | 0 <= i < |steps| :: steps[i].RefillDl?) ==> t.dl.requested == NONE)
            && ((exists i | 0 <= i < |steps| :: steps[i].RefillUl?) ==> t.ul.requested == NONE)
  {
    if steps != [] {
      var n := |steps| - 1;
      RefillsFinish(s, steps[..n]);
      assert (exists i | 0 <= i < |steps| :: steps[i].RefillDl?) ==>
          steps[n].RefillDl? || exists i | 0 <= i < n :: steps[..n][i].RefillDl?;
      assert (exists i | 0 <= i < |steps| :: steps[i].RefillUl?) ==>
          steps[n].RefillUl? || exists i | 0 <= i < n :: steps[..n][i].RefillUl?;
    }
  }

  lemma {:induction false} RunAppend(s: State, a: seq<Step>, b: seq<Step>)
    ensures Run(s, a + b) == Run(Run(s, a), b)
  {
    if b == [] {
      assert a + b == a;
    } else {
      var n := |b| - 1;
      assert (a + b)[..|a + b| - 1] == a + b[..n];
      RunAppend(s, a, b[..n]);
    }
  }

  /** From any reachable state without a submission in progress, in any interleaving that adds none, enough
      controller accesses followed by a refill of each bucket put the last submitted pair into force. */
  lemma LastCapComesIntoForce(s: State, before: seq<Step>, ticks: seq<Step>, refills: seq<Step>)
    requires Initial(s) && Run(s, before).gui.Idle?
    requires Quiet(ticks) && Ticks(ticks) >= Left(Run(s, before))
    requires Quiet(refills) && exists i | 0 <= i < |refills| :: refills[i].RefillDl?
    requires exists i | 0 <= i < |refills| :: refills[i].RefillUl?
    ensures var t := Run(s, before + ticks + refills);
            Settled(t) && InForce(t, Asked(Run(s, before)))
  {
    RunAppend(s, before, ticks);
    RunAppend(s, before + ticks, refills);
    TicksFinish(Run(s, before), ticks);
    RefillsFinish(Run(s, before + ticks), refills);
    NoCapIsLost(s, before + ticks + refills);
  }

  // ----- The pair is not taken atomically -----

  /** Steps of the others, between two accesses of the controller. */
  predicate NoTicks(steps: seq<Step>) { forall i | 0 <= i < |steps| :: !steps[i].Tick? }

  /** How often the interface stores a second value in these steps. */
  function Stores(s: State, steps: seq<Step>): nat {
    if steps == [] then 0
    else
      var before := steps[..|steps| - 1];
      Stores(s, before) + (if steps[|steps| - 1].StoreUl? then Outstanding(Run(s, before)) else 0)
  }

  /** The state in which the controller has loaded both values, the second one after the steps `mid`. */
  function Loaded(s: State, mid: seq<Step>): State { Next(Run(Next(s, Tick), mid), Tick) }

  /** In steps of the others the history grows, and each second store moves the pending value on by one. */
  lemma {:induction false} StoresMoveOn(s: State, steps: seq<Step>)
    requires Inv(s) && NoTicks(steps)
    ensures var t := Run(s, steps);
            Inv(t) && t.ctl == s.ctl && s.begun <= t.begun && UlFrom(t) == UlFrom(s) + Stores(s, steps)
  {
    if steps != [] {
      StoresMoveOn(s, steps[..|steps| - 1]);
      NextKeepsInv(Run(s, steps[..|steps| - 1]), steps[|steps| - 1]);
    }
  }

  /** Where the two values come from: the first from the submission that was the latest when it was
      loaded, the second from a submission that the stores in between decide. */
  lemma PairComesFrom(s: State, mid: seq<Step>)
    requires Inv(s) && s.ctl.LoadingDl? && NoTicks(mid)
    ensures var t, i := Loaded(s, mid), DlFrom(s); var j := UlFrom(t);
            && 0 <= i < |t.begun| && 0 <= j < |t.begun| && t.ctl == ShowingDl(t.begun[i].0, t.begun[j].1)
            && j == i - Outstanding(s) + Stores(s, mid)
  {
    var s1 := Next(s, Tick);
    NextKeepsInv(s, Tick);
    StoresMoveOn(s1, mid);
    SameStores(s, s1, mid, mid);
  }

  /** The first value is loaded between the two stores, and the second before the store that is due. */
  predicate Early(s: State, mid: seq<Step>) { s.gui.MustStoreUl? && Stores(s, mid) == 0 }

  /** The second value of a later submission is stored between the two loads. */
  predicate Late(s: State, mid: seq<Step>) { Stores(s, mid) > Outstanding(s) }

  /** The pair that the controller holds is none that was submitted, or even begun. */
  predicate Torn(t: State) { t.ctl.ShowingDl? && (t.ctl.dl, t.ctl.ul) !in t.begun }

  predicate Different(begun: seq<(Mbps, Mbps)>, i: nat, j: nat)
    requires i < |begun| && j < |begun|
  {
    begun[i].0 != begun[j].0 && begun[i].1 != begun[j].1
  }

  /** No third submission has the first value of i and the second of j. */
  predicate NoThird(begun: seq<(Mbps, Mbps)>, i: nat, j: nat)
    requires i < |begun| && j < |begun|
  {
    forall k | 0 <= k < |begun| && k != i && k != j :: begun[k] != (begun[i].0, begun[j].1)
  }

  lemma MixedPair(begun: seq<(Mbps, Mbps)>, i: nat, j: nat)
    requires i < |begun| && j < |begun|
    ensures (begun[i].0, begun[j].1) !in begun <==> i != j && Different(begun, i, j) && NoThird(begun, i, j)
  {
    var pair := (begun[i].0, begun[j].1);
    assert begun[i] == pair <==> begun[i].1 == begun[j].1;
    assert begun[j] == pair <==> begun[i].0 == begun[j].0;
  }

  /** Whatever happens between the two loads: the pair is made of the first value of submission i, the
      latest when it was loaded, and the second value of submission j. These are two submissions if and
      only if the loads are early or late. The pair then is one that nobody submitted, if and only if the
      two submissions differ in both values and no third one combined the two values. */
  lemma TornExactlyWhen(s: State, mid: seq<Step>)
    requires Inv(s) && s.ctl.LoadingDl? && NoTicks(mid)
    ensures var t, i := Loaded(s, mid), DlFrom(s); var j := UlFrom(t);
            && 0 <= i < |t.begun| && 0 <= j < |t.begun| && t.ctl == ShowingDl(t.begun[i].0, t.begun[j].1)
            && (i != j <==> Early(s, mid) || Late(s, mid))
            && (Torn(t) <==> (Early(s, mid) || Late(s, mid)) && Different(t.begun, i, j) && NoThird(t.begun, i, j))
  {
    PairComesFrom(s, mid);
    MixedPair(Loaded(s, mid).begun, DlFrom(s), UlFrom(Loaded(s, mid)));
  }

  /** The controller's position does not matter to the interface, and neither do the values it stores. */
  lemma {:induction false} SameStores(s: State, t: State, a: seq<Step>, b: seq<Step>)
    requires NoTicks(a) && SameShape(s, t) && SameSchedule(a, b)
    ensures Stores(s, a) == Stores(t, b) && SameShape(Run(s, a), Run(t, b))
  {
    if a != [] {
      var n := |a| - 1;
      assert SameSchedule(a[..n], b[..n]);
      SameStores(s, t, a[..n], b[..n]);
    }
  }

  /** The interface is at the same place. */
  predicate SameShape(s: State, t: State) {
    s.gui.Idle? == t.gui.Idle? && s.gui.MustStoreUl? == t.gui.MustStoreUl?
  }

  /** The same steps in the same order, with possibly other values submitted. */
  predicate SameSchedule(a: seq<Step>, b: seq<Step>) {
    |a| == |b| && forall i | 0 <= i < |a| :: a[i] == b[i] || (a[i].Submit? && b[i].Submit?)
  }

  // ----- The schedule alone decides -----

  /** The k-th submission is of the values k + 1. */
  function Nth(k: nat): Mbps { (k + 1) as real }

  predicate Numbered(begun: seq<(Mbps, Mbps)>) { forall k | 0 <= k < |begun| :: begun[k] == (Nth(k), Nth(k)) }

  /** A start with the first pair. */
  function NumberedStart(s: State): State {
    var one := Nth(0);
    State(Idle, one, one, false, Resting, one, one, s.dl.(requested := one), s.ul.(requested := one), [(one, one)])
  }

  /** The same steps from s, with the submissions numbered on. */
  function RenumberSteps(s: State, steps: seq<Step>): seq<Step> {
    if steps == [] then []
    else
      var before := RenumberSteps(s, steps[..|steps| - 1]);
      before + [RenumberStep(Run(s, before), steps[|steps| - 1])]
  }

  function RenumberStep(s: State, step: Step): Step {
    var next := Nth(|s.begun|);
    if step.Submit? then Submit(next, next) else step
  }

  lemma NumberedStep(s: State, step: Step)
    requires Numbered(s.begun)
    ensures Numbered(Next(s, RenumberStep(s, step)).begun)
  {
  }

  lemma {:induction false} RenumberedRun(s: State, steps: seq<Step>)
    requires Numbered(s.begun)
    ensures SameSchedule(steps, RenumberSteps(s, steps)) && Numbered(Run(s, RenumberSteps(s, steps)).begun)
  {
    if steps != [] {
      var before := RenumberSteps(s, steps[..|steps| - 1]);
      var step := RenumberStep(Run(s, before), steps[|steps| - 1]);
      RenumberedRun(s, steps[..|steps| - 1]);
      NumberedStep(Run(s, before), steps[|steps| - 1]);
      assert RenumberSteps(s, steps) == before + [step] && (before + [step])[..|before|] == before;
    }
  }

  lemma NumberedPair(begun: seq<(Mbps, Mbps)>, i: nat, j: nat)
    requires Numbered(begun) && i < |begun| && j < |begun| && i != j
    ensures (begun[i].0, begun[j].1) !in begun
  {
  }

  /** How far the controller is. */
  function Stage(c: Controller): nat {
    match c
    case Resting => 0
    case LoadingDl => 1
    case LoadingUl(_) => 2
    case ShowingDl(_, _) => 3
    case ShowingUl(_, _) => 4
    case SettingDl(_, _) => 5
    case SettingUl(_, _) => 6
  }

  /** Both are at the same place, and the flag is the same. */
  predicate SamePlace(s: State, t: State) { SameShape(s, t) && s.dirty == t.dirty && Stage(s.ctl) == Stage(t.ctl) }

  lemma SameStep(s: State, t: State, a: Step, b: Step)
    requires SamePlace(s, t) && (a == b || (a.Submit? && b.Submit?))
    ensures SamePlace(Next(s, a), Next(t, b))
  {
  }

  /** The same schedule leads to the same place. */
  lemma {:induction false} SameRun(s: State, t: State, a: seq<Step>, b: seq<Step>)
    requires SamePlace(s, t) && SameSchedule(a, b)
    ensures SamePlace(Run(s, a), Run(t, b))
  {
    if a != [] {
      var n := |a| - 1;
      assert SameSchedule(a[..n], b[..n]);
      SameRun(s, t, a[..n], b[..n]);
      SameStep(Run(s, a[..n]), Run(t, b[..n]), a[n], b[n]);
    }
  }

  lemma NumberedTears(s: State, mid: seq<Step>)
    requires Inv(s) && s.ctl.LoadingDl? && NoTicks(mid) && Numbered(Run(Next(s, Tick), mid).begun)
    requires Early(s, mid) || Late(s, mid)
    ensures Torn(Loaded(s, mid))
  {
    TornExactlyWhen(s, mid);
    var t := Loaded(s, mid);
    NumberedPair(t.begun, DlFrom(s), UlFrom(t));
  }

  /** From the start t the same schedule, with the values of these steps, tears a pair. */
  ghost predicate Tears(before: seq<Step>, mid: seq<Step>, t: State, steps: seq<Step>, other: seq<Step>) {
    && Initial(t) && SameSchedule(before, steps) && SameSchedule(mid, other)
    && Torn(Loaded(Run(t, steps), other))
  }

  lemma TearsOnlyIf(s: State, before: seq<Step>, mid: seq<Step>, t: State, steps: seq<Step>, other: seq<Step>)
    requires Initial(s) && Run(s, before).ctl.LoadingDl? && NoTicks(mid) && Tears(before, mid, t, steps, other)
    ensures Early(Run(s, before), mid) || Late(Run(s, before), mid)
  {
    SameRun(s, t, before, steps);
    SameStores(Run(s, before), Run(t, steps), mid, other);
    RunKeepsInv(t, steps);
    TornExactlyWhen(Run(t, steps), other);
  }

  lemma TearsWhenNumbered(s: State, before: seq<Step>, mid: seq<Step>) returns (steps: seq<Step>, other: seq<Step>)
    requires Initial(s) && Run(s, before).ctl.LoadingDl? && NoTicks(mid)
    requires Early(Run(s, before), mid) || Late(Run(s, before), mid)
    ensures Tears(before, mid, NumberedStart(s), steps, other)
  {
    var t := NumberedStart(s);
    steps := RenumberSteps(t, before);
    RenumberedRun(t, before);
    SameRun(s, t, before, steps);
    RunKeepsInv(t, steps);
    var u := Run(t, steps);
    other := RenumberSteps(Next(u, Tick), mid);
    RenumberedRun(Next(u, Tick), mid);
    SameStores(Run(s, before), u, mid, other);
    NumberedTears(u, other);
  }

  /** Exactly, over runs from the start: a schedule can produce a pair that nobody submitted, for some
      submitted values, if and only if the first value is loaded between the interface's two stores and
      the second before the later one, or a newer second value is stored between the loads. */
  lemma CanTearIff(s: State, before: seq<Step>, mid: seq<Step>)
    requires Initial(s) && Run(s, before).ctl.LoadingDl? && NoTicks(mid)
    ensures (exists t, steps, other :: Tears(before, mid, t, steps, other))
       <==> Early(Run(s, before), mid) || Late(Run(s, before), mid)
  {
    if t, steps, other :| Tears(before, mid, t, steps, other) {
      TearsOnlyIf(s, before, mid, t, steps, other);
    }
    if Early(Run(s, before), mid) || Late(Run(s, before), mid) {
      var steps, other := TearsWhenNumbered(s, before, mid);
    }
  }

  lemma RunTwo(s: State, a: Step, b: Step)
    ensures Run(s, [a, b]) == Next(Next(s, a), b)
  {
    assert [a, b][..1] == [a] && [a][..0] == [];
    assert Run(s, [a]) == Next(s, a);
  }

  lemma RunThree(s: State, a: Step, b: Step, c: Step)
    ensures Run(s, [a, b, c]) == Next(Next(Next(s, a), b), c)
  {
    assert [a, b, c][..2] == [a, b];
    RunTwo(s, a, b);
  }

  /** An early tear is shown: a second submission has stored its first value when the controller loads. */
  lemma EarlyTearIsShown(s: State, d1: Mbps, u1: Mbps, d2: Mbps, u2: Mbps)
    requires Initial(s)
    ensures var t := Run(s, [Submit(d1, u1), StoreUl, Raise] + [Tick, Submit(d2, u2), Tick] + [Tick, Tick, Tick]);
            t.begun == s.begun + [(d1, u1), (d2, u2)] && (t.shownDl, t.shownUl) == (d2, u1)
  {
    var first := [Submit(d1, u1), StoreUl, Raise];
    var second := [Tick, Submit(d2, u2), Tick];
    RunAppend(s, first + second, [Tick, Tick, Tick]);
    RunAppend(s, first, second);
    RunThree(s, Submit(d1, u1), StoreUl, Raise);
    RunThree(Run(s, first), Tick, Submit(d2, u2), Tick);
    RunThree(Run(s, first + second), Tick, Tick, Tick);
  }

  /** A late tear is shown: a second submission stores both its values between the two loads. */
  lemma LateTearIsShown(s: State, d1: Mbps, u1: Mbps, d2: Mbps, u2: Mbps)
    requires Initial(s)
    ensures var t := Run(s, [Submit(d1, u1), StoreUl, Raise] + [Tick, Tick]
                            + [Submit(d2, u2), StoreUl] + [Tick, Tick, Tick]);
            t.begun == s.begun + [(d1, u1), (d2, u2)] && (t.shownDl, t.shownUl) == (d1, u2)
  {
    var first := [Submit(d1, u1), StoreUl, Raise];
    var second := first + [Tick, Tick];
    var third := second + [Submit(d2, u2), StoreUl];
    RunAppend(s, third, [Tick, Tick, Tick]);
    RunAppend(s, second, [Submit(d2, u2), StoreUl]);
    RunAppend(s, first, [Tick, Tick]);
    RunThree(s, Submit(d1, u1), StoreUl, Raise);
    RunTwo(Run(s, first), Tick, Tick);
    RunTwo(Run(s, second), Submit(d2, u2), StoreUl);
    RunThree(Run(s, third), Tick, Tick, Tick);
  }

  // ----- The controller's own form -----

  class Telemetry {
    var accelerationPending: bool
    var modeDirty: bool
    var effectiveAcceleration: bool
    var effectiveBridgeMode: bool
    var pendingDl: Mbps
    var pendingUl: Mbps
    var bandwidthDirty: bool
    var effectiveDl: Mbps
    var effectiveUl: Mbps

    constructor (acceleration: bool, dl: Mbps, ul: Mbps)
      ensures accelerationPending == effectiveAcceleration == acceleration && effectiveBridgeMode == !acceleration
      ensures pendingDl == effectiveDl == dl && pendingUl == effectiveUl == ul && !modeDirty && !bandwidthDirty
    {
      accelerationPending, effectiveAcceleration, effectiveBridgeMode := acceleration, acceleration, !acceleration;
      pendingDl, pendingUl, effectiveDl, effectiveUl := dl, ul, dl, ul;
      modeDirty, bandwidthDirty := false, false;
    }
  }

  /** The controller; either shaper may be missing. */
  class QosController {
    const tel: Telemetry
    const shaperDl: Limiter?
    const shaperUl: Limiter?
    var enableAcceleration: bool
    var baseDl: Mbps
    var baseUl: Mbps

    constructor (t: Telemetry, dl: Limiter?, ul: Limiter?)
      ensures tel == t && shaperDl == dl && shaperUl == ul && enableAcceleration == t.effectiveAcceleration
      ensures baseDl == t.effectiveDl && baseUl == t.effectiveUl
    {
      tel, shaperDl, shaperUl, enableAcceleration := t, dl, ul, t.effectiveAcceleration;
      baseDl, baseUl := t.effectiveDl, t.effectiveUl;
    }

    /** The state of the protocol, with the interface idle and the controller resting; a missing shaper
        stands for a bucket that nobody refills. */
    ghost function Model(dl: Bucket, ul: Bucket, begun: seq<(Mbps, Mbps)>): State
      reads tel
    {
      State(Idle, tel.pendingDl, tel.pendingUl, tel.bandwidthDirty, Resting, tel.effectiveDl, tel.effectiveUl,
            dl, ul, begun)
    }

    /** An undisturbed tick is the seven accesses of the protocol, or one when the flag is down; and the
        mode, if its flag is up, comes into force as it was asked for. */
    method Tick1Hz(ghost dl: Bucket, ghost ul: Bucket, ghost begun: seq<(Mbps, Mbps)>)
      requires shaperDl != null && shaperUl != null ==> shaperDl != shaperUl
      requires (shaperDl != null ==> dl == shaperDl.Model()) && (shaperUl != null ==> ul == shaperUl.Model())
      modifies this, tel, shaperDl, shaperUl
      ensures var after := TickThrough(old(Model(dl, ul, begun)));
              && Model(after.dl, after.ul, begun) == after
              && (shaperDl != null ==> shaperDl.Model() == after.dl)
              && (shaperUl != null ==> shaperUl.Model() == after.ul)
              && baseDl == (if old(tel.bandwidthDirty) then after.shownDl else old(baseDl))
              && baseUl == (if old(tel.bandwidthDirty) then after.shownUl else old(baseUl))
      ensures !tel.modeDirty && tel.accelerationPending == old(tel.accelerationPending)
      ensures if old(tel.modeDirty)
              then enableAcceleration == tel.effectiveAcceleration == tel.accelerationPending
                   && tel.effectiveBridgeMode == !tel.accelerationPending
              else enableAcceleration == old(enableAcceleration)
                   && tel.effectiveAcceleration == old(tel.effectiveAcceleration)
                   && tel.effectiveBridgeMode == old(tel.effectiveBridgeMode)
    {
      var modeDirty := tel.modeDirty;
      tel.modeDirty := false;
      if modeDirty {
        enableAcceleration := tel.accelerationPending;
        tel.effectiveAcceleration := tel.accelerationPending;
        tel.effectiveBridgeMode := !tel.accelerationPending;
      }
      var dirty := tel.bandwidthDirty;
      tel.bandwidthDirty := false;
      if dirty {
        baseDl := tel.pendingDl;
        baseUl := tel.pendingUl;
        tel.effectiveDl := baseDl;
        tel.effectiveUl := baseUl;
        if shaperDl != null {
          shaperDl.SetRate(baseDl);
        }
        if shaperUl != null {
          shaperUl.SetRate(baseUl);
        }
        FinishTakesThePair(TickOnce(old(Model(dl, ul, begun))));
      }
    }
  }

  /** The controller's accesses up to its next rest. */
  function TickThrough(s: State): State
    requires s.ctl.Resting?
  {
    if !s.dirty then TickOnce(s) else Finish(TickOnce(s))
  }

  function Finish(s: State): State
    decreases Left(s.(dirty := false))
  {
    if s.ctl.Resting? then s else Finish(TickOnce(s))
  }

  lemma FinishTakesThePair(s: State)
    requires s.ctl.LoadingDl?
    ensures Finish(s) == s.(ctl := Resting, shownDl := s.pendingDl, shownUl := s.pendingUl,
                            dl := s.dl.(requested := s.pendingDl), ul := s.ul.(requested := s.pendingUl))
  {
    var s2 := TickOnce(TickOnce(s));
    var s4 := TickOnce(TickOnce(s2));
    assert Finish(s) == Finish(s2) == Finish(s4);
    assert Finish(s4) == Finish(TickOnce(TickOnce(s4)));
  }
}
