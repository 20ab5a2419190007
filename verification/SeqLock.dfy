/** The per-slot sequence lock of the NAT session tables, under every interleaving of one writer that
    fills a slot field by field with any number of readers. Each step is one load or store. The fields
    are numbered, so that one model covers the TCP/UDP table (five fields) and the ICMP table (four);
    reads and writes of the fields may come in any order. */
module SeqLock {

  const ATTEMPTS: nat := 8
  const SEQ_WRAP: nat := 0x1_0000_0000

  /** A slot; `count` is the sequence counter; it counts without wrapping, and readers compare its low 32 bits. */
  datatype Slot = Slot(count: nat, active: bool, fields: seq<nat>)

  /** One published content of a slot: by an install, or left over (the initial one, or after an
      install that was given up). */
  datatype Version = Version(fields: seq<nat>, installed: bool)

  datatype Writer =
    | Idle
    | Writing(i: nat, record: seq<nat>, written: set<nat>)
    | Published(i: nat)

  /** A reader looks for a slot whose fields agree with `want`. */
  datatype Reader =
    | Ready
    | Attempt(i: nat, want: map<nat, nat>, n: nat)
    | Reading(i: nat, want: map<nat, nat>, n: nat, s0: nat, looked: bool, act: bool, got: map<nat, nat>)
    | Accepted(i: nat, want: map<nat, nat>, vals: map<nat, nat>, s0: nat, s1: nat)
    | Rejected

  datatype State = State(width: nat, slots: seq<Slot>, index: map<nat, int>, log: seq<seq<Version>>,
                         writer: Writer, readers: seq<Reader>)

  datatype Step =
    | Begin(i: nat, record: seq<nat>)
    | Deactivate
    | WriteField(k: nat)
    | GiveUp
    | Publish
    | Activate
    | SetIndex(p: nat, v: int)
    | Packet(r: nat, p: nat, want: map<nat, nat>)
    | LoadSeq(r: nat)
    | LoadActive(r: nat)
    | LoadField(r: nat, k: nat)
    | Recheck(r: nat)

  function Fields(width: nat): (r: set<nat>)
    ensures forall k: nat :: k in r <==> k < width
  {
    if width == 0 then {} else Fields(width - 1) + {width - 1}
  }

  // ----- The writer -----

  predicate WriterEnabled(s: State, step: Step) {
    match step
    case Begin(i, record) => s.writer.Idle? && i < |s.slots| && |record| == s.width
    case Deactivate => s.writer.Writing? && s.writer.i < |s.slots| && s.writer.written == {}
    case WriteField(k) => s.writer.Writing? && s.writer.i < |s.slots| && k < s.width
                          && |s.writer.record| == s.width && |s.slots[s.writer.i].fields| == s.width
    case GiveUp => s.writer.Writing? && s.writer.i < |s.slots| == |s.log| && s.writer.written == {}
                   && !s.slots[s.writer.i].active && s.log[s.writer.i] != []
    case Publish => s.writer.Writing? && s.writer.i < |s.slots| == |s.log| && s.writer.written == Fields(s.width)
    case Activate => s.writer.Published? && s.writer.i < |s.slots|
    case SetIndex(p, v) => true
    case _ => false
  }

  function WriterStep(s: State, step: Step): State
    requires WriterEnabled(s, step)
  {
    match step
    case Begin(i, record) =>
      s.(slots := s.slots[i := s.slots[i].(count := s.slots[i].count + 1)], writer := Writing(i, record, {}))
    case Deactivate =>
      s.(slots := s.slots[s.writer.i := s.slots[s.writer.i].(active := false)])
    case WriteField(k) =>
      var i, slot := s.writer.i, s.slots[s.writer.i];
      s.(slots := s.slots[i := slot.(fields := slot.fields[k := s.writer.record[k]])],
         writer := s.writer.(written := s.writer.written + {k}))
    case GiveUp =>
      var i, slot := s.writer.i, s.slots[s.writer.i];
      s.(slots := s.slots[i := slot.(count := slot.count + 1)],
         log := s.log[i := s.log[i] + [Version(s.log[i][|s.log[i]| - 1].fields, false)]],
         writer := Idle)
    case Publish =>
      var i, slot := s.writer.i, s.slots[s.writer.i];
      s.(slots := s.slots[i := slot.(count := slot.count + 1)],
         log := s.log[i := s.log[i] + [Version(s.writer.record, true)]],
         writer := Published(i))
    case Activate =>
      s.(slots := s.slots[s.writer.i := s.slots[s.writer.i].(active := true)], writer := Idle)
    case SetIndex(p, v) => s.(index := s.index[p := v])
  }

  // ----- A reader -----

  predicate ReaderEnabled(s: State, step: Step) {
    match step
    case Packet(r, p, want) => r < |s.readers| && s.readers[r].Ready? && want.Keys <= Fields(s.width)
    case LoadSeq(r) => r < |s.readers| && s.readers[r].Attempt? && s.readers[r].i < |s.slots|
    case LoadActive(r) => r < |s.readers| && s.readers[r].Reading? && s.readers[r].i < |s.slots|
    case LoadField(r, k) => r < |s.readers| && s.readers[r].Reading? && s.readers[r].i < |s.slots|
                            && k < s.width == |s.slots[s.readers[r].i].fields|
    case Recheck(r) => r < |s.readers| && s.readers[r].Reading? && s.readers[r].i < |s.slots|
                       && s.readers[r].looked && s.readers[r].got.Keys == Fields(s.width)
                       && s.readers[r].want.Keys <= s.readers[r].got.Keys
    case _ => false
  }

  function Retry(i: nat, want: map<nat, nat>, n: nat): Reader {
    if n + 1 >= ATTEMPTS then Rejected else Attempt(i, want, n + 1)
  }

  function ReaderStep(s: State, step: Step): Reader
    requires ReaderEnabled(s, step)
  {
    match step
    case Packet(r, p, want) =>
      if p in s.index && 0 <= s.index[p] < |s.slots| then Attempt(s.index[p], want, 0) else Rejected
    case LoadSeq(r) =>
      var Attempt(i, want, n) := s.readers[r];
      var s0 := s.slots[i].count;
      if s0 % 2 == 1 then Retry(i, want, n) else Reading(i, want, n, s0, false, false, map[])
    case LoadActive(r) =>
      s.readers[r].(looked := true, act := s.slots[s.readers[r].i].active)
    case LoadField(r, k) =>
      s.readers[r].(got := s.readers[r].got[k := s.slots[s.readers[r].i].fields[k]])
    case Recheck(r) =>
      var Reading(i, want, n, s0, looked, act, got) := s.readers[r];
      var s1 := s.slots[i].count;
      if s0 % SEQ_WRAP != s1 % SEQ_WRAP || s1 % 2 == 1 then Retry(i, want, n)
      else if act && forall k | k in want :: got[k] == want[k] then Accepted(i, want, got, s0, s1)
      else Rejected
  }

  function Next(s: State, step: Step): State {
    if WriterEnabled(s, step) then WriterStep(s, step)
    else if ReaderEnabled(s, step) then s.(readers := s.readers[step.r := ReaderStep(s, step)])
    else s
  }

  function Run(s: State, steps: seq<Step>): State {
    if steps == [] then s else Next(Run(s, steps[..|steps| - 1]), steps[|steps| - 1])
  }

  lemma RunOn(s: State, steps: seq<Step>, step: Step)
    ensures Run(s, steps + [step]) == Next(Run(s, steps), step)
  {
    assert (steps + [step])[..|steps + [step]| - 1] == steps;
  }

  lemma TwoSteps(s: State, a: Step, b: Step)
    ensures Run(s, [a, b]) == Next(Next(s, a), b)
  {
    RunOn(s, [], a);
    assert [] + [a] == [a] && [a] + [b] == [a, b];
    RunOn(s, [a], b);
  }

  /** n empty slots, and any number of readers. */
  predicate Initial(s: State) {
    && s.writer.Idle? && |s.log| == |s.slots|
    && (forall i | 0 <= i < |s.slots| ::
          && |s.slots[i].fields| == s.width
          && s.slots[i] == Slot(0, false, s.slots[i].fields) && s.log[i] == [Version(s.slots[i].fields, false)])
    && (forall r | 0 <= r < |s.readers| :: s.readers[r].Ready?)
  }

  // ----- The invariant -----

  /** The number of counter values a slot has used for its published versions. */
  function Even(log: seq<Version>): int { 2 * (|log| - 1) }

  ghost predicate SlotInv(s: State, i: nat)
    requires i < |s.slots| == |s.log|
  {
    var slot, log := s.slots[i], s.log[i];
    && log != [] && |slot.fields| == s.width
    && if s.writer.Writing? && s.writer.i == i then
         && slot.count == Even(log) + 1
         && |s.writer.record| == s.width && s.writer.written <= Fields(s.width)
         && (forall k: nat | k in s.writer.written :: k < s.width && slot.fields[k] == s.writer.record[k])
         && (s.writer.written == {} ==> slot.fields == log[|log| - 1].fields)
       else
         && slot.count == Even(log) && slot.fields == log[|log| - 1].fields
         && (slot.active ==> log[|log| - 1].installed)
  }

  /** What the reader holds is version s0/2, as long as the counter has not moved. */
  ghost predicate Consistent(log: seq<Version>, width: nat, s0: nat, act: bool, got: map<nat, nat>) {
    && s0 % 2 == 0 && s0 / 2 < |log| && |log[s0 / 2].fields| == width
    && (act ==> log[s0 / 2].installed)
    && (forall k: nat | k in got :: k < width && got[k] == log[s0 / 2].fields[k])
  }

  /** Version s0/2 of slot i is an install that wrote all of `got` together, and it agrees with `want`. */
  ghost predicate Genuine(s: State, i: nat, s0: nat, want: map<nat, nat>, got: map<nat, nat>)
    requires i < |s.log|
  {
    s0 / 2 < |s.log[i]| && FromInstall(s.log[i][s0 / 2], s.width, want, got)
  }

  ghost predicate FromInstall(v: Version, width: nat, want: map<nat, nat>, got: map<nat, nat>) {
    && v.installed && |v.fields| == width && got.Keys == Fields(width)
    && (forall k: nat | k < width :: got[k] == v.fields[k])
    && (forall k: nat | k in want :: k < width && v.fields[k] == want[k])
  }

  ghost predicate ReaderInv(s: State, r: Reader)
    requires |s.slots| == |s.log|
  {
    match r
    case Ready => true
    case Attempt(i, want, n) => i < |s.slots| && want.Keys <= Fields(s.width)
    case Reading(i, want, n, s0, looked, act, got) =>
      && i < |s.slots| && want.Keys <= Fields(s.width) && s0 <= s.slots[i].count
      && (s0 == s.slots[i].count ==> Consistent(s.log[i], s.width, s0, act, got))
    case Accepted(i, want, got, s0, s1) =>
      i < |s.slots| && (s1 - s0 < 0x1_0000_0000 ==> Genuine(s, i, s0, want, got))
    case Rejected => true
  }

  ghost predicate Inv(s: State) {
    && |s.log| == |s.slots|
    && (!s.writer.Idle? ==> s.writer.i < |s.slots|)
    && (s.writer.Published? ==> s.log[s.writer.i] != [] && s.log[s.writer.i][|s.log[s.writer.i]| - 1].installed)
    && (forall i | 0 <= i < |s.slots| :: SlotInv(s, i))
    && (forall r | 0 <= r < |s.readers| :: ReaderInv(s, s.readers[r]))
  }

  lemma InitialInv(s: State)
    requires Initial(s)
    ensures Inv(s)
  {
  }

  /** A writer step moves one slot, forward: its counter and its log only grow. */
  lemma WriterKeepsSlots(s: State, step: Step, i: nat)
    requires Inv(s) && WriterEnabled(s, step) && i < |s.slots|
    ensures var t := WriterStep(s, step);
            && |t.slots| == |s.slots| == |t.log| && t.width == s.width && t.readers == s.readers
            && SlotInv(t, i)
            && s.slots[i].count <= t.slots[i].count && s.log[i] <= t.log[i]
            && (s.slots[i].count % 2 == 0 && s.slots[i].count == t.slots[i].count ==> s.log[i] == t.log[i])
  {
    assert SlotInv(s, i);
    var t := WriterStep(s, step);
    if step.Publish? && s.writer.i == i {
      assert s.slots[i].fields == s.writer.record by {
        forall k: nat | k < s.width
          ensures s.slots[i].fields[k] == s.writer.record[k]
        {
          assert k in s.writer.written;
        }
      }
    }
  }

  /** So what a reader holds stays what it was, or becomes obsolete. */
  lemma WriterKeepsReader(s: State, step: Step, r: Reader)
    requires Inv(s) && WriterEnabled(s, step) && ReaderInv(s, r)
    ensures |WriterStep(s, step).slots| == |WriterStep(s, step).log|
    ensures ReaderInv(WriterStep(s, step), r)
  {
    if !r.Ready? && !r.Rejected? {
      WriterKeepsSlots(s, step, r.i);
    }
  }

  lemma WriterKeepsInv(s: State, step: Step)
    requires Inv(s) && WriterEnabled(s, step)
    ensures Inv(WriterStep(s, step))
  {
    var t := WriterStep(s, step);
    forall i | 0 <= i < |s.slots|
      ensures |t.slots| == |s.slots| == |t.log| && SlotInv(t, i)
    {
      WriterKeepsSlots(s, step, i);
    }
    forall r | 0 <= r < |s.readers|
      ensures |t.slots| == |t.log| && ReaderInv(t, s.readers[r])
    {
      WriterKeepsReader(s, step, s.readers[r]);
    }
  }

  /** The heart of the lock: an unchanged even counter vouches for everything read in between. */
  lemma RecheckIsSafe(s: State, step: Step)
    requires Inv(s) && step.Recheck? && ReaderEnabled(s, step)
    ensures ReaderInv(s, ReaderStep(s, step))
  {
    var Reading(i, want, n, s0, looked, act, got) := s.readers[step.r];
    var after := ReaderStep(s, step);
    if after.Accepted? && after.s1 - after.s0 < 0x1_0000_0000 {
      assert ReaderInv(s, s.readers[step.r]);
      assert after.s1 == s0;
      assert FromInstall(s.log[i][s0 / 2], s.width, want, got);
    }
  }

  lemma ReaderKeepsInv(s: State, step: Step)
    requires Inv(s) && ReaderEnabled(s, step)
    ensures Inv(s.(readers := s.readers[step.r := ReaderStep(s, step)]))
  {
    var was := s.readers[step.r];
    assert ReaderInv(s, was);
    if step.Recheck? {
      RecheckIsSafe(s, step);
    } else if !step.Packet? {
      assert SlotInv(s, was.i);
    }
    var t := s.(readers := s.readers[step.r := ReaderStep(s, step)]);
    forall i | 0 <= i < |t.slots|
      ensures SlotInv(t, i)
    {
      assert SlotInv(s, i);
    }
    forall r | 0 <= r < |t.readers|
      ensures ReaderInv(t, t.readers[r])
    {
      assert r != step.r ==> ReaderInv(s, s.readers[r]);
      assert ReaderInv(s, t.readers[r]);
    }
  }

  lemma {:induction false} RunKeepsInv(s: State, steps: seq<Step>)
    requires Inv(s)
    ensures Inv(Run(s, steps))
  {
    if steps != [] {
      var t, step := Run(s, steps[..|steps| - 1]), steps[|steps| - 1];
      RunKeepsInv(s, steps[..|steps| - 1]);
      if WriterEnabled(t, step) {
        WriterKeepsInv(t, step);
      } else if ReaderEnabled(t, step) {
        ReaderKeepsInv(t, step);
      }
    }
  }

  /** In every run, whatever the interleaving, an accepted read is the complete record of one install
      of that slot, the one that the counter stood for when the attempt began, and agrees with what the
      packet asked for, provided the counter moved by less than 2^32 during that one attempt. */
  lemma AcceptedIsGenuine(s: State, steps: seq<Step>, r: nat)
    requires Initial(s)
    requires r < |Run(s, steps).readers| && Run(s, steps).readers[r].Accepted?
    ensures var t := Run(s, steps); var a := t.readers[r];
            a.i < |t.log| && (a.s1 - a.s0 < 0x1_0000_0000 ==> Genuine(t, a.i, a.s0, a.want, a.vals))
  {
    InitialInv(s);
    RunKeepsInv(s, steps);
  }

  /** The values that a reader accepts are what its slot holds, no install is in progress there, and they
      are the latest record of the slot. */
  ghost predicate Current(t: State, i: nat, vals: map<nat, nat>, s0: nat) {
    && i < |t.slots| == |t.log| && vals.Keys == Fields(t.width) && |t.slots[i].fields| == t.width
    && (forall k: nat | k < t.width :: vals[k] == t.slots[i].fields[k])
    && !(t.writer.Writing? && t.writer.i == i)
    && s0 / 2 == |t.log[i]| - 1 && t.log[i][s0 / 2] == Version(t.slots[i].fields, true)
  }

  lemma RecheckIsCurrent(t: State, i: nat, want: map<nat, nat>, n: nat, s0: nat, got: map<nat, nat>)
    requires |t.slots| == |t.log| && i < |t.slots| && SlotInv(t, i) && t.slots[i].count == s0 && s0 % 2 == 0
    requires ReaderInv(t, Reading(i, want, n, s0, true, true, got)) && got.Keys == Fields(t.width)
    ensures Current(t, i, got, s0)
  {
  }

  lemma AcceptingIsCurrent(t: State, r: nat, a: Reader)
    requires Inv(t) && ReaderEnabled(t, Recheck(r)) && a == ReaderStep(t, Recheck(r))
    requires a.Accepted? && a.s1 - a.s0 < 0x1_0000_0000
    ensures Current(t, a.i, a.vals, a.s0)
  {
    var Reading(i, want, n, s0, looked, act, got) := t.readers[r];
    assert ReaderInv(t, t.readers[r]) && SlotInv(t, i);
    assert a.s1 == t.slots[i].count == s0;
    RecheckIsCurrent(t, i, want, n, s0, got);
  }

  /** And it is no old record: at the step that accepts it, it is what the slot holds. */
  lemma AcceptedIsCurrent(s: State, steps: seq<Step>, r: nat, a: Reader)
    requires Initial(s) && ReaderEnabled(Run(s, steps), Recheck(r)) && a == ReaderStep(Run(s, steps), Recheck(r))
    requires a.Accepted? && a.s1 - a.s0 < 0x1_0000_0000
    ensures Current(Run(s, steps), a.i, a.vals, a.s0)
  {
    InitialInv(s);
    RunKeepsInv(s, steps);
    AcceptingIsCurrent(Run(s, steps), r, a);
  }

  // ----- The two tables -----

  /** Fields 0 to 4 of a TCP/UDP session: inside address, remote address, inside port, remote port,
      external port. A packet from src:sport to external port dport asks for the last three. */
  function FlowWant(src: nat, sport: nat, dport: nat): map<nat, nat> { map[1 := src, 3 := sport, 4 := dport] }

  /** Fields 0 to 3 of an echo session: inside address, remote address, inside identifier, external
      identifier. */
  function EchoWant(src: nat, id: nat): map<nat, nat> { map[1 := src, 3 := id] }

  lemma FlowVersion(v: Version, vals: map<nat, nat>, src: nat, sport: nat, dport: nat)
    requires FromInstall(v, 5, FlowWant(src, sport, dport), vals)
    ensures vals.Keys == Fields(5) && v == Version([vals[0], src, vals[2], sport, dport], true)
  {
    var want := FlowWant(src, sport, dport);
    assert 1 in want && 3 in want && 4 in want;
  }

  lemma EchoVersion(v: Version, vals: map<nat, nat>, src: nat, id: nat)
    requires FromInstall(v, 4, EchoWant(src, id), vals)
    ensures vals.Keys == Fields(4) && v == Version([vals[0], src, vals[2], id], true)
  {
    var want := EchoWant(src, id);
    assert 1 in want && 3 in want;
  }

  /** An inbound TCP/UDP packet is translated with the inside address and port of one install whose
      remote end is the packet's source and whose external port is the packet's destination port. */
  lemma AcceptedFlow(s: State, steps: seq<Step>, r: nat, src: nat, sport: nat, dport: nat)
    requires Initial(s) && Run(s, steps).width == 5
    requires r < |Run(s, steps).readers| && Run(s, steps).readers[r].Accepted?
    requires var a := Run(s, steps).readers[r]; a.want == FlowWant(src, sport, dport) && a.s1 - a.s0 < 0x1_0000_0000
    ensures var t := Run(s, steps); var a := t.readers[r];
            && a.i < |t.log| && a.vals.Keys == Fields(5)
            && a.s0 / 2 < |t.log[a.i]|
            && t.log[a.i][a.s0 / 2] == Version([a.vals[0], src, a.vals[2], sport, dport], true)
  {
    AcceptedIsGenuine(s, steps, r);
    var t := Run(s, steps);
    var a := t.readers[r];
    FlowVersion(t.log[a.i][a.s0 / 2], a.vals, src, sport, dport);
  }

  lemma AcceptedEcho(s: State, steps: seq<Step>, r: nat, src: nat, id: nat)
    requires Initial(s) && Run(s, steps).width == 4
    requires r < |Run(s, steps).readers| && Run(s, steps).readers[r].Accepted?
    requires var a := Run(s, steps).readers[r]; a.want == EchoWant(src, id) && a.s1 - a.s0 < 0x1_0000_0000
    ensures var t := Run(s, steps); var a := t.readers[r];
            && a.i < |t.log| && a.vals.Keys == Fields(4)
            && a.s0 / 2 < |t.log[a.i]|
            && t.log[a.i][a.s0 / 2] == Version([a.vals[0], src, a.vals[2], id], true)
  {
    AcceptedIsGenuine(s, steps, r);
    var t := Run(s, steps);
    var a := t.readers[r];
    EchoVersion(t.log[a.i][a.s0 / 2], a.vals, src, id);
  }

  // ----- An undisturbed read decides -----

  /** The loads of one attempt, up to the k-th field. */
  function Loads(r: nat, k: nat): seq<Step> {
    if k == 0 then [LoadSeq(r), LoadActive(r)] else Loads(r, k - 1) + [LoadField(r, k - 1)]
  }

  /** t is s, except that reader r has loaded the counter, the flag and the first k fields. */
  ghost predicate Sees(s: State, t: State, r: nat, k: nat) {
    && r < |s.readers| == |t.readers| && s.readers[r].Attempt? && s.readers[r].i < |s.slots|
    && t == s.(readers := t.readers)
    && var a, slot := s.readers[r], s.slots[s.readers[r].i];
    && k <= s.width == |slot.fields| && slot.count % 2 == 0
    && t.readers[r].Reading? && t.readers[r].got.Keys == Fields(k)
    && t.readers[r] == Reading(a.i, a.want, a.n, slot.count, true, slot.active, t.readers[r].got)
    && forall j: nat | j < k :: t.readers[r].got[j] == slot.fields[j]
  }

  lemma FieldLoad(s: State, t: State, r: nat, k: nat)
    requires Sees(s, t, r, k) && k < s.width
    ensures Sees(s, Next(t, LoadField(r, k)), r, k + 1)
  {
    var u := Next(t, LoadField(r, k));
    assert u.readers[r].got == t.readers[r].got[k := s.slots[s.readers[r].i].fields[k]];
  }

  lemma FirstLoads(s: State, r: nat)
    requires r < |s.readers| && s.readers[r].Attempt? && s.readers[r].i < |s.slots|
    requires var slot := s.slots[s.readers[r].i]; slot.count % 2 == 0 && |slot.fields| == s.width
    ensures Sees(s, Next(Next(s, LoadSeq(r)), LoadActive(r)), r, 0)
  {
  }

  /** The state after these loads. */
  function Loaded(s: State, r: nat, k: nat): State {
    if k == 0 then Next(Next(s, LoadSeq(r)), LoadActive(r)) else Next(Loaded(s, r, k - 1), LoadField(r, k - 1))
  }

  lemma {:induction false} LoadedIsRun(s: State, r: nat, k: nat)
    ensures Loaded(s, r, k) == Run(s, Loads(r, k))
  {
    if k == 0 {
      TwoSteps(s, LoadSeq(r), LoadActive(r));
    } else {
      LoadedIsRun(s, r, k - 1);
      RunOn(s, Loads(r, k - 1), LoadField(r, k - 1));
    }
  }

  lemma {:induction false} LoadsSee(s: State, r: nat, k: nat)
    requires r < |s.readers| && s.readers[r].Attempt? && s.readers[r].i < |s.slots| && k <= s.width
    requires var slot := s.slots[s.readers[r].i]; slot.count % 2 == 0 && |slot.fields| == s.width
    ensures Sees(s, Loaded(s, r, k), r, k)
  {
    if k == 0 {
      FirstLoads(s, r);
    } else {
      LoadsSee(s, r, k - 1);
      FieldLoad(s, Loaded(s, r, k - 1), r, k - 1);
    }
  }

  ghost predicate Agrees(slot: Slot, want: map<nat, nat>) {
    slot.active && forall k | k in want :: k < |slot.fields| && slot.fields[k] == want[k]
  }

  /** What one undisturbed attempt at slot i comes to. */
  ghost predicate Decided(s: State, i: nat, want: map<nat, nat>, r: Reader)
    requires i < |s.slots|
  {
    if Agrees(s.slots[i], want) then r.Accepted? && r.i == i && r.want == want else r.Rejected?
  }

  /** With no install in progress in its slot, one attempt of a reader settles the packet: it is
      accepted, with that slot, exactly if the slot is active and agrees with it. */
  lemma UndisturbedReadDecides(s: State, r: nat)
    requires Inv(s) && r < |s.readers| && s.readers[r].Attempt?
    requires ReaderInv(s, s.readers[r]) && s.slots[s.readers[r].i].count % 2 == 0
    ensures var t := Run(s, Loads(r, s.width) + [Recheck(r)]); var a := s.readers[r];
            r < |t.readers| && Decided(s, a.i, a.want, t.readers[r])
  {
    assert SlotInv(s, s.readers[r].i);
    LoadsSee(s, r, s.width);
    LoadedIsRun(s, r, s.width);
    RunOn(s, Loads(r, s.width), Recheck(r));
    RecheckDecides(s, Loaded(s, r, s.width), r);
  }

  lemma RecheckDecides(s: State, t: State, r: nat)
    requires Inv(s) && Sees(s, t, r, s.width)
    ensures r < |Next(t, Recheck(r)).readers|
    ensures var a := s.readers[r]; Decided(s, a.i, a.want, Next(t, Recheck(r)).readers[r])
  {
    assert ReaderInv(s, s.readers[r]);
    assert ReaderEnabled(t, Recheck(r));
  }

  lemma {:induction false} RunFrom(s: State, step: Step, steps: seq<Step>)
    ensures Run(s, [step] + steps) == Run(Next(s, step), steps)
  {
    if steps == [] {
      assert [step] + steps == [step] && [step][..0] == [];
      assert Run(s, [step]) == Next(Run(s, []), step);
    } else {
      var n := |steps| - 1;
      RunFrom(s, step, steps[..n]);
      assert ([step] + steps)[..|[step] + steps| - 1] == [step] + steps[..n];
    }
  }

  /** A packet, from its arrival: the index names the slot, and if no install is in progress there, one
      attempt accepts the packet with that slot exactly if the slot is active and agrees with it. A packet
      for which the index names no slot is rejected at once. */
  lemma PacketDecides(s: State, r: nat, p: nat, want: map<nat, nat>)
    requires Inv(s) && r < |s.readers| && s.readers[r].Ready? && want.Keys <= Fields(s.width)
    ensures !(p in s.index && 0 <= s.index[p] < |s.slots|) ==>
              Next(s, Packet(r, p, want)).readers == s.readers[r := Rejected]
    ensures p in s.index && 0 <= s.index[p] < |s.slots| && s.slots[s.index[p]].count % 2 == 0 ==>
              var t := Run(s, [Packet(r, p, want)] + (Loads(r, s.width) + [Recheck(r)]));
              r < |t.readers| && Decided(s, s.index[p], want, t.readers[r])
  {
    if p in s.index && 0 <= s.index[p] < |s.slots| && s.slots[s.index[p]].count % 2 == 0 {
      var t := Next(s, Packet(r, p, want));
      ReaderKeepsInv(s, Packet(r, p, want));
      assert t.readers[r] == Attempt(s.index[p], want, 0) && t.slots == s.slots && t.width == s.width;
      RunFrom(s, Packet(r, p, want), Loads(r, s.width) + [Recheck(r)]);
      UndisturbedReadDecides(t, r);
    }
  }

  // ----- A disturbed read -----

  /** A reader that meets an install in progress, or one between its loads, tries again: eight times in all. */
  lemma DisturbedReadRetries(s: State, r: nat)
    requires r < |s.readers| && (s.readers[r].Attempt? || s.readers[r].Reading?) && s.readers[r].i < |s.slots|
    ensures var a := s.readers[r]; var next := if a.n < 7 then Attempt(a.i, a.want, a.n + 1) else Rejected;
            && (a.Attempt? && s.slots[a.i].count % 2 == 1 ==>
                  Next(s, LoadSeq(r)).readers == s.readers[r := next])
            && (ReaderEnabled(s, Recheck(r)) && s.slots[a.i].count != a.s0 && s.slots[a.i].count - a.s0 < 0x1_0000_0000
                && a.s0 < s.slots[a.i].count ==>
                  Next(s, Recheck(r)).readers == s.readers[r := next])
  {
  }

  function Again(r: nat, n: nat): seq<Step> { if n == 0 then [] else Again(r, n - 1) + [LoadSeq(r)] }

  /** So a packet that meets an install in progress eight times is given up, and not before. */
  lemma {:induction false} EightAttempts(s: State, r: nat, n: nat)
    requires r < |s.readers| && s.readers[r].Attempt? && s.readers[r].n == 0 && s.readers[r].i < |s.slots|
    requires s.slots[s.readers[r].i].count % 2 == 1 && n <= 8
    ensures var a := s.readers[r];
            Run(s, Again(r, n)) == s.(readers := s.readers[r := if n < 8 then Attempt(a.i, a.want, n) else Rejected])
  {
    if n > 0 {
      EightAttempts(s, r, n - 1);
      assert Again(r, n)[..|Again(r, n)| - 1] == Again(r, n - 1);
    } else {
      assert s.readers[r := s.readers[r]] == s.readers;
    }
  }

  // ----- An undisturbed install -----

  /** The stores of an install, up to the k-th field. */
  function Stores(i: nat, record: seq<nat>, k: nat): seq<Step> {
    if k == 0 then [Begin(i, record)] else Stores(i, record, k - 1) + [WriteField(k - 1)]
  }

  /** t is s with slot i half written: the counter odd, and the first k fields those of the record. */
  ghost predicate HalfWritten(s: State, t: State, i: nat, record: seq<nat>, k: nat) {
    && i < |s.slots| == |t.slots| && |record| == s.width && k <= s.width && |s.slots[i].fields| == s.width
    && t == s.(slots := t.slots, writer := Writing(i, record, Fields(k)))
    && t.slots == s.slots[i := t.slots[i]]
    && t.slots[i] == Slot(s.slots[i].count + 1, s.slots[i].active, t.slots[i].fields) && |t.slots[i].fields| == s.width
    && (forall j: nat | j < k :: t.slots[i].fields[j] == record[j])
  }

  lemma {:induction false} StoresWrite(s: State, i: nat, record: seq<nat>, k: nat)
    requires s.writer.Idle? && i < |s.slots| && |record| == s.width && k <= s.width && |s.slots[i].fields| == s.width
    ensures HalfWritten(s, Run(s, Stores(i, record, k)), i, record, k)
  {
    if k == 0 {
      assert [Begin(i, record)][..0] == [];
      assert Run(s, [Begin(i, record)]) == Next(Run(s, []), Begin(i, record));
    } else {
      StoresWrite(s, i, record, k - 1);
      assert Stores(i, record, k)[..|Stores(i, record, k)| - 1] == Stores(i, record, k - 1);
      FieldStore(s, Run(s, Stores(i, record, k - 1)), i, record, k - 1);
    }
  }

  lemma FieldStore(s: State, t: State, i: nat, record: seq<nat>, k: nat)
    requires HalfWritten(s, t, i, record, k) && k < s.width
    ensures HalfWritten(s, Next(t, WriteField(k)), i, record, k + 1)
  {
    assert WriterEnabled(t, WriteField(k));
  }

  /** u is s with the record installed in slot i, and the index naming it for p. */
  ghost predicate Installed(s: State, u: State, i: nat, record: seq<nat>, p: nat)
    requires i < |s.slots|
  {
    && u.slots == s.slots[i := Slot(s.slots[i].count + 2, true, record)] && u.writer.Idle?
    && u.readers == s.readers && u.index == s.index[p := i] && u.width == s.width
  }

  lemma PublishAndActivate(s: State, t: State, i: nat, record: seq<nat>, p: nat)
    requires HalfWritten(s, t, i, record, s.width) && |s.log| == |s.slots|
    ensures Installed(s, Next(Next(Next(t, Publish), Activate), SetIndex(p, i)), i, record, p)
  {
    assert t.slots[i].fields == record;
    assert WriterEnabled(t, Publish);
  }

  function InstallSteps(i: nat, record: seq<nat>, width: nat, p: nat): seq<Step> {
    Stores(i, record, width) + [Publish] + [Activate] + [SetIndex(p, i)]
  }

  /** An install: the slot gets the record, becomes active, its counter moves by two, and the index names it
      for its port; no other slot and no reader changes. */
  lemma InstallCompletes(s: State, i: nat, record: seq<nat>, p: nat)
    requires s.writer.Idle? && i < |s.slots| == |s.log| && |record| == s.width && |s.slots[i].fields| == s.width
    ensures Installed(s, Run(s, InstallSteps(i, record, s.width, p)), i, record, p)
  {
    var stores := Stores(i, record, s.width);
    StoresWrite(s, i, record, s.width);
    PublishAndActivate(s, Run(s, stores), i, record, p);
    RunOn(s, stores, Publish);
    RunOn(s, stores + [Publish], Activate);
    RunOn(s, stores + [Publish] + [Activate], SetIndex(p, i));
  }

  ghost predicate Matches(record: seq<nat>, want: map<nat, nat>) {
    forall k: nat | k in want :: k < |record| && record[k] == want[k]
  }

  lemma InstalledDecides(t: State, i: nat, record: seq<nat>, p: nat, r: nat, want: map<nat, nat>)
    requires Inv(t) && i < |t.slots| && t.slots[i].count % 2 == 0 && t.slots[i].active && t.slots[i].fields == record
    requires p in t.index && t.index[p] == i
    requires r < |t.readers| && t.readers[r].Ready? && want.Keys <= Fields(t.width)
    ensures var u := Run(t, [Packet(r, p, want)] + (Loads(r, t.width) + [Recheck(r)]));
            && r < |u.readers| && (u.readers[r].Accepted? <==> Matches(record, want))
            && (u.readers[r].Accepted? ==> u.readers[r].i == i)
  {
    PacketDecides(t, r, p, want);
    assert Agrees(t.slots[i], want) <==> Matches(record, want);
  }

  /** So a packet for that port that agrees with the record is translated by it, and no other packet is. */
  lemma InstalledIsFound(s: State, i: nat, record: seq<nat>, p: nat, r: nat, want: map<nat, nat>)
    requires Inv(s) && s.writer.Idle? && i < |s.slots| && |record| == s.width
    requires r < |s.readers| && s.readers[r].Ready? && want.Keys <= Fields(s.width)
    ensures var t := Run(s, InstallSteps(i, record, s.width, p));
            var u := Run(t, [Packet(r, p, want)] + (Loads(r, t.width) + [Recheck(r)]));
            && r < |u.readers| && (u.readers[r].Accepted? <==> Matches(record, want))
            && (u.readers[r].Accepted? ==> u.readers[r].i == i)
  {
    assert SlotInv(s, i);
    InstallCompletes(s, i, record, p);
    RunKeepsInv(s, InstallSteps(i, record, s.width, p));
    InstalledDecides(Run(s, InstallSteps(i, record, s.width, p)), i, record, p, r, want);
  }

  /** u is s with slot i inactive after an install that was given up; what its fields hold is as before. */
  ghost predicate GivenUp(s: State, u: State, i: nat)
    requires i < |s.slots|
  {
    && u.slots == s.slots[i := Slot(s.slots[i].count + 2, false, s.slots[i].fields)] && |s.log| == |s.slots|
    && u.log == s.log[i := s.log[i] + [Version(s.slots[i].fields, false)]]
    && u.writer.Idle? && u.readers == s.readers && u.index == s.index && u.width == s.width
  }

  function GiveUpSteps(i: nat, record: seq<nat>): seq<Step> { [Begin(i, record)] + [Deactivate] + [GiveUp] }

  lemma ThreeSteps(s: State, a: Step, b: Step, c: Step)
    ensures Run(s, [a] + [b] + [c]) == Next(Next(Next(s, a), b), c)
  {
    TwoSteps(s, a, b);
    assert [a] + [b] == [a, b];
    RunOn(s, [a, b], c);
  }

  lemma GiveUpCompletes(s: State, i: nat, record: seq<nat>)
    requires Inv(s) && s.writer.Idle? && i < |s.slots| && |record| == s.width
    ensures GivenUp(s, Next(Next(Next(s, Begin(i, record)), Deactivate), GiveUp), i)
  {
    assert SlotInv(s, i);
  }

  lemma InactiveRejects(t: State, i: nat, p: nat, r: nat, want: map<nat, nat>)
    requires Inv(t) && i < |t.slots| && t.slots[i].count % 2 == 0 && !t.slots[i].active
    requires p in t.index && t.index[p] == i
    requires r < |t.readers| && t.readers[r].Ready? && want.Keys <= Fields(t.width)
    ensures var u := Run(t, [Packet(r, p, want)] + (Loads(r, t.width) + [Recheck(r)]));
            r < |u.readers| && u.readers[r].Rejected?
  {
    PacketDecides(t, r, p, want);
  }

  /** A slot whose install was given up for want of an identifier translates nothing. */
  lemma GivenUpRejects(s: State, i: nat, record: seq<nat>, p: nat, r: nat, want: map<nat, nat>)
    requires Inv(s) && s.writer.Idle? && i < |s.slots| && |record| == s.width && p in s.index && s.index[p] == i
    requires r < |s.readers| && s.readers[r].Ready? && want.Keys <= Fields(s.width)
    ensures var t := Run(s, GiveUpSteps(i, record));
            var u := Run(t, [Packet(r, p, want)] + (Loads(r, t.width) + [Recheck(r)]));
            GivenUp(s, t, i) && r < |u.readers| && u.readers[r].Rejected?
  {
    assert SlotInv(s, i);
    ThreeSteps(s, Begin(i, record), Deactivate, GiveUp);
    GiveUpCompletes(s, i, record);
    RunKeepsInv(s, GiveUpSteps(i, record));
    InactiveRejects(Run(s, GiveUpSteps(i, record)), i, p, r, want);
  }

  // ----- Where the lock ends -----

  function Installs(i: nat, record: seq<nat>, width: nat, p: nat, n: nat): seq<Step> {
    if n == 0 then [] else Installs(i, record, width, p, n - 1) + InstallSteps(i, record, width, p)
  }

  lemma {:induction false} RunAppend(s: State, first: seq<Step>, rest: seq<Step>)
    ensures Run(s, first + rest) == Run(Run(s, first), rest)
    decreases |rest|
  {
    if rest == [] {
      assert first + rest == first;
    } else {
      var n := |rest| - 1;
      RunAppend(s, first, rest[..n]);
      assert (first + rest)[..|first + rest| - 1] == first + rest[..n];
      LastStep(s, Run(s, first), first + rest, rest);
    }
  }

  lemma LastStep(s: State, t: State, longer: seq<Step>, steps: seq<Step>)
    requires 0 < |steps| <= |longer| && longer[|longer| - 1] == steps[|steps| - 1]
    requires Run(s, longer[..|longer| - 1]) == Run(t, steps[..|steps| - 1])
    ensures Run(s, longer) == Run(t, steps)
  {
  }

  /** n installs into one slot move its counter by 2 n. */
  lemma {:induction false} InstallsCount(s: State, i: nat, record: seq<nat>, p: nat, n: nat)
    requires Inv(s) && s.writer.Idle? && i < |s.slots| && |record| == s.width
    ensures var t := Run(s, Installs(i, record, s.width, p, n));
            && Inv(t) && t.writer.Idle? && t.readers == s.readers && t.width == s.width
            && |t.slots| == |s.slots| && t.slots[i].count == s.slots[i].count + 2 * n
  {
    if n > 0 {
      var before, steps := Installs(i, record, s.width, p, n - 1), InstallSteps(i, record, s.width, p);
      InstallsCount(s, i, record, p, n - 1);
      RunAppend(s, before, steps);
      var t := Run(s, before);
      assert SlotInv(t, i);
      InstallCompletes(t, i, record, p);
      RunKeepsInv(t, steps);
    }
  }

  lemma SameLowBits(a: nat, n: nat)
    ensures a % 0x1_0000_0000 == (a + 2 * n) % 0x1_0000_0000 <==> n % 0x8000_0000 == 0
  {
    var q, m := n / 0x8000_0000, n % 0x8000_0000;
    assert 2 * n == 0x1_0000_0000 * q + 2 * m;
    assert (a + 2 * n) % 0x1_0000_0000 == (a + 2 * m) % 0x1_0000_0000;
  }

  lemma RecheckAfter(t: State, r: nat, n: nat)
    requires Inv(t) && t.writer.Idle? && ReaderEnabled(t, Recheck(r))
    requires var a := t.readers[r];
             t.slots[a.i].count == a.s0 + 2 * n && a.act && forall k | k in a.want :: a.got[k] == a.want[k]
    ensures var u := Next(t, Recheck(r));
            && r < |u.readers| && (u.readers[r].Accepted? <==> n % 0x8000_0000 == 0)
            && (u.readers[r].Accepted? ==> u.readers[r].vals == t.readers[r].got)
  {
    SameLowBits(t.readers[r].s0, n);
    assert SlotInv(t, t.readers[r].i);
  }

  /** A reader that has loaded a matching record and then sleeps through n installs into its slot accepts what
      it loaded if and only if n is a multiple of 2^31. */
  lemma StaleAcceptedIff(s: State, r: nat, record: seq<nat>, p: nat, n: nat)
    requires Inv(s) && s.writer.Idle? && |record| == s.width && ReaderEnabled(s, Recheck(r))
    requires var a := s.readers[r];
             a.s0 == s.slots[a.i].count && a.act && forall k | k in a.want :: a.got[k] == a.want[k]
    ensures var a := s.readers[r]; var t := Run(s, Installs(a.i, record, s.width, p, n) + [Recheck(r)]);
            && r < |t.readers| && (t.readers[r].Accepted? <==> n % 0x8000_0000 == 0)
            && (t.readers[r].Accepted? ==> t.readers[r].vals == a.got)
  {
    var a := s.readers[r];
    var steps := Installs(a.i, record, s.width, p, n);
    InstallsCount(s, a.i, record, p, n);
    RunOn(s, steps, Recheck(r));
    RecheckAfter(Run(s, steps), r, n);
  }
}
