/** The detection loop: one simulated cycle per turn, until the taint is explained or the run is over. */
module Detector {
  import opened Bits
  import opened Wrappers
  import opened Repeats
  import opened Rob
  import opened Flushes
  import C = Classification

  // ------------------------------------------------------------------ one simulated cycle

  /** What the simulated core shows in one cycle; the taint is the first tainted register-file byte. */
  datatype Cycle = Cycle(
    commit0: Option<nat>, commit1: Option<nat>,
    busyBefore: BusyMask, busyAfter: BusyMask, rob: RobState,
    taint: Option<nat>, sg: Signals)

  type Trace = nat -> Cycle

  ghost predicate TraceOk(tr: Trace, rows: nat) {
    rows >= 2 && forall k :: SignalsOk(tr(k).sg, tr(k).rob) && |tr(k).rob.entry| == rows
  }

  datatype SimState = SimState(ticks: nat, retired: nat, lastRetired: nat, pcs: Counter, retiredPcs: set<nat>)

  const FRESH := SimState(0, 0, 0, Counter(0, 0), {})

  /** How every pass starts; only the first one also starts with a fresh repeat counter. */
  predicate Starting(s: SimState) {
    s.ticks == 0 && s.retired == 0 && s.lastRetired == 0 && s.retiredPcs == {}
  }

  /** The commit on port 0. */
  function Commit0(s: SimState, pc: nat): SimState {
    SimState(s.ticks, s.retired + 1, s.ticks, Count(s.pcs, pc), s.retiredPcs + {pc})
  }

  /** One step, and whether the core is stuck on one instruction: then neither the second port nor the
      tick count is looked at any more. */
  function Stepped(s: SimState, c: Cycle): (SimState, bool) {
    var s' := if c.commit0.Some? then Commit0(s, c.commit0.value) else s;
    if c.commit0.Some? && s'.pcs.n >= 10 then (s', true)
    else
      var s'' := if c.commit1.Some? then s'.(retired := s'.retired + 1, lastRetired := s'.ticks, retiredPcs := s'.retiredPcs + {c.commit1.value})
                 else s';
      (s''.(ticks := s''.ticks + 1), false)
  }

  class Sim {
    var ticks: nat
    var retired: nat
    var lastRetired: nat
    var lastRetiredPc: nat
    var nSameInst: nat
    var retiredPcs: set<nat>

    constructor ()
      ensures Abs() == FRESH
    {
      ticks, retired, lastRetired, lastRetiredPc, nSameInst, retiredPcs := 0, 0, 0, 0, 0, {};
    }

    function Abs(): SimState
      reads this
    {
      SimState(ticks, retired, lastRetired, Counter(lastRetiredPc, nSameInst), retiredPcs)
    }

    method Step(c: Cycle) returns (stuck: bool)
      modifies this
      ensures (Abs(), stuck) == Stepped(old(Abs()), c)
    {
      if c.commit0.Some? {
        retired := retired + 1;
        var committedPc := c.commit0.value;
        retiredPcs := retiredPcs + {committedPc};
        lastRetired := ticks;
        if committedPc == lastRetiredPc {
          nSameInst := nSameInst + 1;
        } else {
          lastRetiredPc := committedPc;
          nSameInst := 0;
        }
        if nSameInst >= 10 {
          return true;
        }
      }
      if c.commit1.Some? {
        retired := retired + 1;
        retiredPcs := retiredPcs + {c.commit1.value};
        lastRetired := ticks;
      }
      ticks := ticks + 1;
      return false;
    }

    /** The reset forgets neither the last committed address nor how often it was repeated. */
    method Reset()
      modifies this
      ensures Abs() == FRESH.(pcs := old(Abs()).pcs)
    {
      ticks, retired, lastRetired, retiredPcs := 0, 0, 0, {};
    }
  }

  // ------------------------------------------------------------------ runs without detection

  /** The simulator after k turns of the loop body; being stuck uses up the instruction budget. */
  function SimAt(s: SimState, tr: Trace, num: nat, k: nat): SimState {
    if k == 0 then s
    else
      var (s', stuck) := Stepped(SimAt(s, tr, num, k - 1), tr(k - 1));
      if stuck then s'.(retired := num + 1) else s'
  }

  /** The loop condition. */
  predicate Guard(s: SimState, num: nat, limit: nat) {
    s.retired < num + 1 && s.ticks < s.lastRetired + limit
  }

  /** Nothing but detection can have ended the loop before turn k. */
  ghost predicate Live(s: SimState, tr: Trace, num: nat, limit: nat, k: nat) {
    forall j :: 0 <= j < k ==> Guard(SimAt(s, tr, num, j), num, limit)
  }

  /** The loop runs out of instructions or of patience after exactly n turns. */
  ghost predicate RunsOut(s: SimState, tr: Trace, num: nat, limit: nat, n: nat) {
    Live(s, tr, num, limit, n) && !Guard(SimAt(s, tr, num, n), num, limit)
  }

  /** a * n, by addition. */
  function Times(a: nat, n: nat): nat {
    if n == 0 then 0 else Times(a, n - 1) + a
  }

  lemma {:induction false} TimesIsProduct(a: nat, n: nat)
    ensures Times(a, n) == a * n
  {
    if n > 0 { TimesIsProduct(a, n - 1); }
  }

  lemma {:induction false} TimesMonotone(a: nat, m: nat, n: nat)
    requires m <= n
    ensures Times(a, m) <= Times(a, n)
  {
    if m < n { TimesMonotone(a, m, n - 1); }
  }

  /** (limit - 1) * num + limit. */
  function Budget(num: nat, limit: nat): nat
    requires limit > 0
  {
    Times(limit - 1, num) + limit
  }

  /** The real bound on every run, whatever the core does: a commit comes at most limit - 1 ticks after
      the previous one, and at most num of them let the loop go on. */
  lemma {:induction false} TickBound(s0: SimState, tr: Trace, num: nat, limit: nat, k: nat)
    requires limit > 0 && Starting(s0) && Live(s0, tr, num, limit, k)
    ensures var s := SimAt(s0, tr, num, k);
            && s.lastRetired <= s.ticks <= s.lastRetired + limit
            && s.ticks <= Budget(num, limit)
            && (s.retired <= num ==> s.ticks == k && s.lastRetired <= Times(limit - 1, s.retired))
            && k <= s.ticks + 1
  {
    if k > 0 {
      TickBound(s0, tr, num, limit, k - 1);
      var s := SimAt(s0, tr, num, k - 1);
      assert Guard(s, num, limit);
      TimesMonotone(limit - 1, s.retired, num);
      StepTicks(s, tr(k - 1), num, limit);
    }
  }

  lemma StepTicks(s: SimState, c: Cycle, num: nat, limit: nat)
    requires limit > 0 && Guard(s, num, limit) && s.lastRetired <= s.ticks && s.lastRetired <= Times(limit - 1, s.retired)
    ensures var (s', stuck) := Stepped(s, c);
            && s'.lastRetired <= s'.ticks <= s'.lastRetired + limit
            && s'.lastRetired <= Times(limit - 1, s'.retired)
            && s'.ticks == s.ticks + (if stuck then 0 else 1)
  {
    assert Times(limit - 1, s.retired + 1) == Times(limit - 1, s.retired) + (limit - 1);
    assert Times(limit - 1, s.retired + 2) == Times(limit - 1, s.retired + 1) + (limit - 1);
  }

  /** Hence every run is over after at most this many turns. */
  lemma RunIsFinite(s0: SimState, tr: Trace, num: nat, limit: nat, k: nat)
    requires limit > 0 && Starting(s0) && Live(s0, tr, num, limit, k)
    ensures k <= Budget(num, limit) + 1 == (limit - 1) * num + limit + 1
  {
    TickBound(s0, tr, num, limit, k);
    TimesIsProduct(limit - 1, num);
  }

  // ------------------------------------------------------------------ stuck cores

  /** The addresses committed on port 0 in the first k cycles. */
  function Pcs(tr: Trace, k: nat): seq<nat> {
    if k == 0 then []
    else Pcs(tr, k - 1) + if tr(k - 1).commit0.Some? then [tr(k - 1).commit0.value] else []
  }

  lemma {:induction false} CounterFollowsPcs(s: SimState, tr: Trace, num: nat, k: nat)
    ensures SimAt(s, tr, num, k).pcs == CountAll(s.pcs, Pcs(tr, k))
  {
    if k > 0 {
      CounterFollowsPcs(s, tr, num, k - 1);
      var pcs := Pcs(tr, k);
      if tr(k - 1).commit0.Some? {
        assert pcs[..|pcs| - 1] == Pcs(tr, k - 1);
      } else {
        assert pcs == Pcs(tr, k - 1);
      }
    }
  }

  /** A commit in cycle k ends a run of eleven equal addresses on port 0, counted from the state the
      simulator starts in. */
  ghost predicate RepeatsAt(s: SimState, tr: Trace, k: nat) {
    tr(k).commit0.Some? && EndsEqual(Past(s.pcs) + Pcs(tr, k + 1), 11)
  }

  /** A step reports the core stuck exactly there. */
  lemma StuckIffRepeat(s: SimState, tr: Trace, num: nat, k: nat)
    ensures Stepped(SimAt(s, tr, num, k), tr(k)).1 <==> RepeatsAt(s, tr, k)
  {
    CounterFollowsPcs(s, tr, num, k);
    var pcs := Pcs(tr, k + 1);
    if tr(k).commit0.Some? {
      assert pcs[..|pcs| - 1] == Pcs(tr, k);
      CounterMeasuresRun(s.pcs, pcs, 11);
    }
  }

  // ------------------------------------------------------------------ when the loop is over

  /** Commits in one cycle, and in the first k cycles. */
  function CommitsOf(c: Cycle): nat {
    (if c.commit0.Some? then 1 else 0) + (if c.commit1.Some? then 1 else 0)
  }

  function Commits(tr: Trace, k: nat): nat {
    if k == 0 then 0 else Commits(tr, k - 1) + CommitsOf(tr(k - 1))
  }

  /** The last of the first k cycles with a commit, or 0. */
  ghost predicate IsLastCommit(tr: Trace, k: nat, j: nat) {
    && (forall i :: j < i < k ==> CommitsOf(tr(i)) == 0)
    && (if j < k && CommitsOf(tr(j)) > 0 then true else j == 0)
  }

  ghost predicate NoRepeat(s: SimState, tr: Trace, k: nat) {
    forall j :: 0 <= j < k ==> !RepeatsAt(s, tr, j)
  }

  /** While the core is not found stuck, the simulator's counters count the cycles and the commits on both
      ports, and remember the cycle of the last one. */
  lemma {:induction false} CountersCount(s: SimState, tr: Trace, num: nat, k: nat)
    requires Starting(s) && NoRepeat(s, tr, k)
    ensures var z := SimAt(s, tr, num, k);
            z.ticks == k && z.retired == Commits(tr, k) && IsLastCommit(tr, k, z.lastRetired)
  {
    if k > 0 {
      CountersCount(s, tr, num, k - 1);
      StuckIffRepeat(s, tr, num, k - 1);
      assert !RepeatsAt(s, tr, k - 1);
    }
  }

  lemma LastCommitUnique(tr: Trace, k: nat, j: nat, j': nat)
    requires IsLastCommit(tr, k, j) && IsLastCommit(tr, k, j')
    ensures j == j'
  {}

  /** The loop is over before cycle n, by the trace alone: more than num commits were made, or none in the
      last limit cycles, or the core was found stuck. */
  ghost predicate Over(s: SimState, tr: Trace, num: nat, limit: nat, n: nat) {
    || Commits(tr, n) > num
    || (exists j: nat :: IsLastCommit(tr, n, j) && n >= j + limit)
    || !NoRepeat(s, tr, n)
  }

  lemma GuardIff(s: SimState, tr: Trace, num: nat, limit: nat, n: nat)
    requires Starting(s) && NoRepeat(s, tr, n)
    ensures Guard(SimAt(s, tr, num, n), num, limit) <==> !Over(s, tr, num, limit, n)
  {
    CountersCount(s, tr, num, n);
    var last := SimAt(s, tr, num, n).lastRetired;
    forall j: nat | IsLastCommit(tr, n, j) ensures j == last { LastCommitUnique(tr, n, j, last); }
  }

  /** Nothing but detection has ended the loop before turn k exactly when it was not over by then. */
  lemma {:induction false} LiveIff(s: SimState, tr: Trace, num: nat, limit: nat, k: nat)
    requires Starting(s)
    ensures Live(s, tr, num, limit, k) <==> forall j :: 0 <= j < k ==> !Over(s, tr, num, limit, j)
  {
    if k > 0 {
      LiveIff(s, tr, num, limit, k - 1);
      assert Live(s, tr, num, limit, k) <==> Live(s, tr, num, limit, k - 1) && Guard(SimAt(s, tr, num, k - 1), num, limit);
      if Live(s, tr, num, limit, k - 1) {
        NoRepeatWhileLive(s, tr, num, limit, k - 1);
        if NoRepeat(s, tr, k - 1) { GuardIff(s, tr, num, limit, k - 1); }
        assert Guard(SimAt(s, tr, num, k - 1), num, limit) <==> !Over(s, tr, num, limit, k - 1);
      }
    }
  }

  /** A loop that has not ended has found no repeat but perhaps in its last turn; after that turn it ends. */
  lemma NoRepeatWhileLive(s: SimState, tr: Trace, num: nat, limit: nat, k: nat)
    requires Starting(s) && Live(s, tr, num, limit, k)
    ensures NoRepeat(s, tr, k) || !Guard(SimAt(s, tr, num, k), num, limit)
  {
    if !NoRepeat(s, tr, k) {
      var j :| 0 <= j < k && RepeatsAt(s, tr, j);
      StuckIffRepeat(s, tr, num, j);
      assert SimAt(s, tr, num, j + 1).retired == num + 1;
      assert !Guard(SimAt(s, tr, num, j + 1), num, limit);
    }
  }

  /** Without detection, the loop ends at the first turn by which it is over. */
  lemma RunsOutIff(s: SimState, tr: Trace, num: nat, limit: nat, n: nat)
    requires Starting(s)
    ensures RunsOut(s, tr, num, limit, n) <==>
            Over(s, tr, num, limit, n) && forall j :: 0 <= j < n ==> !Over(s, tr, num, limit, j)
  {
    LiveIff(s, tr, num, limit, n);
    LiveIff(s, tr, num, limit, n + 1);
    assert Live(s, tr, num, limit, n + 1) <==> Live(s, tr, num, limit, n) && Guard(SimAt(s, tr, num, n), num, limit);
  }

  // ------------------------------------------------------------------ retired addresses

  /** The address was committed in one of the first k cycles; the second port counts only while the
      core is not found stuck. */
  ghost predicate CommittedBefore(s: SimState, tr: Trace, num: nat, k: nat, pc: nat) {
    exists j: nat :: j < k && CommitsIn(s, tr, num, j, pc)
  }

  predicate CommitsIn(s: SimState, tr: Trace, num: nat, j: nat, pc: nat) {
    tr(j).commit0 == Some(pc) || (tr(j).commit1 == Some(pc) && !Stepped(SimAt(s, tr, num, j), tr(j)).1)
  }

  /** The set the label looks the tainting instruction up in is the set of addresses committed so far. */
  lemma {:induction false} RetiredIffCommitted(s: SimState, tr: Trace, num: nat, k: nat, pc: nat)
    requires Starting(s)
    ensures pc in SimAt(s, tr, num, k).retiredPcs <==> CommittedBefore(s, tr, num, k, pc)
  {
    if k > 0 {
      RetiredIffCommitted(s, tr, num, k - 1, pc);
      assert CommittedBefore(s, tr, num, k, pc) <==> CommittedBefore(s, tr, num, k - 1, pc) || CommitsIn(s, tr, num, k - 1, pc);
    }
  }

  // ------------------------------------------------------------------ what a trace amounts to

  ghost predicate FirstTaint(tr: Trace, t: nat) {
    tr(t).taint.Some? && forall j :: 0 <= j < t ==> tr(j).taint.None?
  }

  function Info(tr: Trace, rows: nat, k: nat): FlushInfo
    requires TraceOk(tr, rows)
  {
    ReadFrom(tr(k).sg, tr(k).rob)
  }

  /** A flush that ends a run without taint: an illegal instruction or an access fault on fetch. */
  predicate IsFatal(info: FlushInfo) {
    info.kind == Some(EXCEPTION) && (info.cause == Some(ILLEGAL_INSTRUCTION) || info.cause == Some(FETCH_ACCESS))
  }

  ghost predicate Fatal(tr: Trace, rows: nat, k: nat)
    requires TraceOk(tr, rows)
  {
    IsFlushing(tr(k).sg) && IsFatal(Info(tr, rows, k))
  }

  /** The instruction blamed for the taint first seen in cycle t. */
  function Blamed(tr: Trace, rows: nat, t: nat): (e: RobEntry)
    requires TraceOk(tr, rows) && tr(t).taint.Some?
    ensures e.robIdx < rows && e.robBank < N_ROBS
  {
    var c := tr(t);
    BlamedHasSlot(c.rob, c.busyBefore, c.busyAfter, c.taint.value);
    Tainting(c.rob, c.busyBefore, c.busyAfter, c.taint.value)
  }

  lemma BlamedHasSlot(r: RobState, m: BusyMask, m': BusyMask, addr: nat)
    requires r.Valid()
    ensures C.HasSlot(r, Tainting(r, m, m', addr))
  {
    FoundInRange(r, RegAddr(addr), Rows(r));
    var es := Diff(r, m, m', |r.entry|);
    LastWriterIs(es, addr, r.Head());
    forall n | 0 <= n < |es| ensures C.HasSlot(r, es[n]) {
      DiffIff(r, m, m', |r.entry|, es[n]);
    }
  }

  /** The loop tracks the blamed instruction by its slot. When taint is found this slot holds it, unless
      nobody is blamed: then the loop tracks whatever stands in the first slot. */
  lemma TrackedSlotAtFirst(tr: Trace, rows: nat, t: nat)
    requires TraceOk(tr, rows) && tr(t).taint.Some?
    ensures var e := Blamed(tr, rows, t);
            && (C.Slot(tr(t).rob, e) == e <==> e != NULL_ENTRY || tr(t).rob.entry[0][0] == NULL_ENTRY)
            && (e == NULL_ENTRY ==> C.Slot(tr(t).rob, e) == tr(t).rob.entry[0][0])
  {
    var c := tr(t);
    BlamedInPlace(c.rob, c.busyBefore, c.busyAfter, c.taint.value);
  }

  lemma BlamedInPlace(r: RobState, m: BusyMask, m': BusyMask, addr: nat)
    requires r.Valid()
    ensures var e := Tainting(r, m, m', addr);
            C.HasSlot(r, e) && (e == NULL_ENTRY || C.Slot(r, e) == e)
  {
    BlamedHasSlot(r, m, m', addr);
    FoundInRange(r, RegAddr(addr), Rows(r));
    var es := Diff(r, m, m', |r.entry|);
    LastWriterIs(es, addr, r.Head());
    forall n | 0 <= n < |es| ensures C.HasSlot(r, es[n]) && C.Slot(r, es[n]) == es[n] {
      DiffIff(r, m, m', |r.entry|, es[n]);
    }
  }

  /** In cycle c > t the tracked slot is about to commit. */
  ghost predicate Architectural(tr: Trace, rows: nat, t: nat, c: nat)
    requires TraceOk(tr, rows) && tr(t).taint.Some?
  {
    c > t && C.Committing(tr(c).rob, Blamed(tr, rows, t))
  }

  /** The branch mask the taint is tracked with: the blamed entry's at first, then that of its slot. */
  function BrMask(tr: Trace, rows: nat, t: nat, c: nat): nat
    requires TraceOk(tr, rows) && tr(t).taint.Some?
  {
    if c == t then Blamed(tr, rows, t).brMask else C.Slot(tr(c).rob, Blamed(tr, rows, t)).brMask
  }

  ghost predicate RelevantFlush(tr: Trace, rows: nat, t: nat, c: nat)
    requires TraceOk(tr, rows) && tr(t).taint.Some?
  {
    IsFlushing(tr(c).sg) && C.IsRelevant(BrMask(tr, rows, t, c), Info(tr, rows, c))
  }

  ghost predicate Decided(tr: Trace, rows: nat, t: nat, c: nat)
    requires TraceOk(tr, rows) && tr(t).taint.Some?
  {
    Architectural(tr, rows, t, c) || RelevantFlush(tr, rows, t, c)
  }

  /** How a run ends: discarded in cycle k; without taint after n cycles; or tainted in cycle t, and then
      explained in cycle c by a commit or by a flush, or not at all within n cycles. */
  datatype Verdict =
    | Discarded(k: nat)
    | Clean(n: nat)
    | Committed(t: nat, c: nat)
    | Flushed(t: nat, c: nat)
    | Unexplained(t: nat, n: nat)

  /** The first taint is in cycle t, after no fatal flush, and nothing in [t, c) explains it. */
  ghost predicate Pending(tr: Trace, rows: nat, t: nat, c: nat)
    requires TraceOk(tr, rows)
  {
    && FirstTaint(tr, t)
    && (forall j :: 0 <= j < t ==> !Fatal(tr, rows, j))
    && (forall j :: t <= j < c ==> !Decided(tr, rows, t, j))
  }

  /** The declarative reading of a trace, cycle by cycle, without the loop: commits beat flushes of the
      same cycle, and taint beats a fatal flush of the same cycle. */
  ghost predicate IsVerdict(tr: Trace, rows: nat, num: nat, limit: nat, s: SimState, v: Verdict)
    requires TraceOk(tr, rows)
  {
    match v
    case Discarded(k) =>
      && Live(s, tr, num, limit, k + 1) && Fatal(tr, rows, k)
      && (forall j :: 0 <= j <= k ==> tr(j).taint.None?) && (forall j :: 0 <= j < k ==> !Fatal(tr, rows, j))
    case Clean(n) =>
      && RunsOut(s, tr, num, limit, n)
      && (forall j :: 0 <= j < n ==> tr(j).taint.None? && !Fatal(tr, rows, j))
    case Committed(t, c) =>
      Live(s, tr, num, limit, c + 1) && Pending(tr, rows, t, c) && Architectural(tr, rows, t, c)
    case Flushed(t, c) =>
      && Live(s, tr, num, limit, c + 1) && t <= c && Pending(tr, rows, t, c)
      && !Architectural(tr, rows, t, c) && RelevantFlush(tr, rows, t, c)
    case Unexplained(t, n) =>
      RunsOut(s, tr, num, limit, n) && t < n && Pending(tr, rows, t, n)
  }

  /** What the verdicts rest on, over the signals alone. A fatal flush is an exception with one of two causes. */
  lemma FatalIff(tr: Trace, rows: nat, k: nat)
    requires TraceOk(tr, rows)
    ensures var sg := tr(k).sg;
            Fatal(tr, rows, k) <==> sg.flush && sg.xcptValid && (sg.xcptCause == 0x1 || sg.xcptCause == 0x2)
  {}

  /** The slot the tracked instruction was seen in. */
  function TrackedSlot(tr: Trace, rows: nat, t: nat, c: nat): RobEntry
    requires TraceOk(tr, rows) && tr(t).taint.Some?
  {
    var e := Blamed(tr, rows, t);
    tr(c).rob.entry[e.robIdx][e.robBank]
  }

  /** A taint is architectural once the tracked slot holds the first valid entry of the head row, and that
      entry is neither busy nor excepting. */
  lemma ArchitecturalIff(tr: Trace, rows: nat, t: nat, c: nat)
    requires TraceOk(tr, rows) && tr(t).taint.Some?
    ensures var e, slot, r := Blamed(tr, rows, t), TrackedSlot(tr, rows, t, c), tr(c).rob;
            Architectural(tr, rows, t, c) <==>
            && c > t && slot.valid && !slot.busy && !slot.exception
            && e.robIdx == r.head && forall b :: 0 <= b < e.robBank ==> !r.entry[r.head][b].valid
  {
    var e, r := Blamed(tr, rows, t), tr(c).rob;
    if e.robIdx == r.head { HeadIff(r, r.head, e.robBank); }
  }

  /** A flush explains the taint when it is anything but an intentional one, or, for a misprediction,
      when its mask and the tracked one share a bit: at first that of the blamed entry, then that of its
      slot. */
  lemma RelevantFlushIff(tr: Trace, rows: nat, t: nat, c: nat)
    requires TraceOk(tr, rows) && tr(t).taint.Some?
    ensures var sg := tr(c).sg;
            var mask := if c == t then Blamed(tr, rows, t).brMask else TrackedSlot(tr, rows, t, c).brMask;
            RelevantFlush(tr, rows, t, c) <==>
            if sg.flush then sg.xcptValid || !sg.flushOnCommit else exists i: nat :: SharesBit(mask, sg.mispredMask, i)
  {
    AndNonZero(BrMask(tr, rows, t, c), tr(c).sg.mispredMask);
    if tr(c).sg.mispredMask == 0 {
      forall i: nat ensures !SharesBit(BrMask(tr, rows, t, c), 0, i) { BitOfZero(i); }
    }
  }

  lemma LiveWithinRun(tr: Trace, num: nat, limit: nat, s: SimState, k: nat, n: nat)
    requires Live(s, tr, num, limit, k) && RunsOut(s, tr, num, limit, n)
    ensures k <= n
  {}

  /** The cycle of the first taint, if the verdict has one, and the turn in which the run ends. */
  function TaintOf(v: Verdict): Option<nat> {
    if v.Discarded? || v.Clean? then None else Some(v.t)
  }

  predicate ByTimeout(v: Verdict) { v.Clean? || v.Unexplained? }

  function EndOf(v: Verdict): nat {
    match v
    case Discarded(k) => k
    case Clean(n) => n
    case Committed(_, c) => c
    case Flushed(_, c) => c
    case Unexplained(_, n) => n
  }

  /** Verdicts of different lengths cannot both hold: the longer run would have passed the shorter's end. */
  lemma NotLonger(tr: Trace, rows: nat, num: nat, limit: nat, s: SimState, v: Verdict, v': Verdict)
    requires TraceOk(tr, rows) && IsVerdict(tr, rows, num, limit, s, v) && IsVerdict(tr, rows, num, limit, s, v')
    ensures EndOf(v) >= EndOf(v')
    ensures ByTimeout(v) ==> ByTimeout(v')
  {
    if !ByTimeout(v) {
      PassedBy(tr, rows, num, limit, s, v, v');
    } else if ByTimeout(v') {
      LiveWithinRun(tr, num, limit, s, EndOf(v'), EndOf(v));
    } else {
      LiveWithinRun(tr, num, limit, s, EndOf(v') + 1, EndOf(v));
      PassedBy(tr, rows, num, limit, s, v', v);
    }
  }

  /** A run that is over by detection cannot be passed by a longer one. */
  lemma PassedBy(tr: Trace, rows: nat, num: nat, limit: nat, s: SimState, v: Verdict, v': Verdict)
    requires TraceOk(tr, rows) && IsVerdict(tr, rows, num, limit, s, v) && IsVerdict(tr, rows, num, limit, s, v')
    requires !ByTimeout(v)
    ensures EndOf(v') <= EndOf(v)
  {
    var c := EndOf(v);
    if v.Discarded? {
      assert Fatal(tr, rows, c) && forall j :: 0 <= j <= c ==> tr(j).taint.None?;
    } else {
      assert FirstTaint(tr, v.t) && tr(v.t).taint.Some? && v.t <= c && Decided(tr, rows, v.t, c);
      assert TaintOf(v').Some? ==> FirstTaint(tr, v'.t) && tr(v'.t).taint.Some?;
    }
  }

  /** The trace determines the verdict. */
  lemma VerdictUnique(tr: Trace, rows: nat, num: nat, limit: nat, s: SimState, v: Verdict, v': Verdict)
    requires TraceOk(tr, rows) && IsVerdict(tr, rows, num, limit, s, v) && IsVerdict(tr, rows, num, limit, s, v')
    ensures v == v'
  {
    NotLonger(tr, rows, num, limit, s, v, v');
    NotLonger(tr, rows, num, limit, s, v', v);
  }

  // ------------------------------------------------------------------ the loop

  /** How a turn of the loop leaves it, if it does. */
  datatype Exit = Continue | Break | Return

  ghost predicate Trackable(c: C.Crash, cy: Cycle) {
    SignalsOk(cy.sg, cy.rob) && (c.taintFound ==> C.HasSlot(cy.rob, c.taintInstr) && !c.isTaintArchitectural)
  }

  /** The detection part of one turn. */
  function Detection(c: C.Crash, ticks: nat, cy: Cycle): (C.Crash, Exit)
    requires Trackable(c, cy)
  {
    var c' := if c.taintFound then C.Tracked(c, cy.rob)
              else if cy.taint.Some? then
                BlamedHasSlot(cy.rob, cy.busyBefore, cy.busyAfter, cy.taint.value);
                C.Tainted(c, ticks, cy.rob, cy.busyBefore, cy.busyAfter, cy.taint.value)
              else c;
    if c.taintFound && c'.isTaintArchitectural then (c', Break)
    else if !IsFlushing(cy.sg) then (c', Continue)
    else
      var info := ReadFrom(cy.sg, cy.rob);
      if c'.taintFound then
        if C.IsRelevant(c'.taintBrMask, info) then (C.Flushed(c', ticks, info), Break) else (c', Continue)
      else if IsFatal(info) then (c', Return)
      else (c', Continue)
  }

  method Detect(crash: C.CrashInfo, ticks: nat, cy: Cycle) returns (exit: Exit)
    requires Trackable(crash.Abs(), cy)
    modifies crash
    ensures (crash.Abs(), exit) == Detection(old(crash.Abs()), ticks, cy)
  {
    if !crash.taintFound {
      if cy.taint.Some? {
        BlamedHasSlot(cy.rob, cy.busyBefore, cy.busyAfter, cy.taint.value);
        crash.RecordTaint(ticks, cy.rob, cy.busyBefore, cy.busyAfter, cy.taint.value);
      }
    } else {
      crash.UpdateTaintInstr(cy.rob);
      if crash.isTaintArchitectural {
        return Break;
      }
    }
    if IsFlushing(cy.sg) {
      var flushInfo := ReadFrom(cy.sg, cy.rob);
      if crash.taintFound {
        var relevant := crash.RecordFlush(ticks, flushInfo);
        if relevant {
          return Break;
        }
      } else if IsFatal(flushInfo) {
        return Return;
      }
    }
    return Continue;
  }

  /** The record once taint was seen in cycle t, tracked up to cycle c. */
  function PendingCrash(tr: Trace, rows: nat, num: nat, s: SimState, t: nat, c: nat): C.Crash
    requires TraceOk(tr, rows) && tr(t).taint.Some?
  {
    C.NO_CRASH.(taintFound := true, taintCycle := SimAt(s, tr, num, t + 1).ticks, taintRob := tr(t).rob,
                taintInstr := Blamed(tr, rows, t), taintBrMask := BrMask(tr, rows, t, c))
  }

  /** The record a verdict leaves behind. */
  function CrashOf(tr: Trace, rows: nat, num: nat, s: SimState, v: Verdict): C.Crash
    requires TraceOk(tr, rows) && (TaintOf(v).Some? ==> tr(v.t).taint.Some?) && (v.Unexplained? ==> v.n > 0)
  {
    match v
    case Discarded(_) => C.NO_CRASH
    case Clean(_) => C.NO_CRASH
    case Committed(t, c) => PendingCrash(tr, rows, num, s, t, c).(isTaintArchitectural := true)
    case Flushed(t, c) =>
      PendingCrash(tr, rows, num, s, t, c)
        .(flushFound := true, flushCycle := SimAt(s, tr, num, c + 1).ticks,
          flushInfo := C.KeptInfo(Blamed(tr, rows, t), Info(tr, rows, c)))
    case Unexplained(t, n) => PendingCrash(tr, rows, num, s, t, n - 1)
  }

  /** The clock after turn k; the turn that finds the core stuck does not advance it. */
  lemma ClockAfter(s: SimState, tr: Trace, num: nat, limit: nat, k: nat)
    requires Starting(s) && Live(s, tr, num, limit, k + 1)
    ensures SimAt(s, tr, num, k + 1).ticks == if RepeatsAt(s, tr, k) then k else k + 1
  {
    NoRepeatWhileLive(s, tr, num, limit, k);
    CountersCount(s, tr, num, k);
    StuckIffRepeat(s, tr, num, k);
  }

  /** The record of a taint explained by a flush, field by field. */
  lemma FlushRecordIs(s: SimState, tr: Trace, rows: nat, num: nat, limit: nat, t: nat, c: nat)
    requires TraceOk(tr, rows) && Starting(s) && IsVerdict(tr, rows, num, limit, s, Flushed(t, c))
    ensures var cr, info := CrashOf(tr, rows, num, s, Flushed(t, c)), Info(tr, rows, c);
            && cr.taintFound && cr.flushFound && !cr.isTaintArchitectural
            && cr.taintCycle == (if RepeatsAt(s, tr, t) then t else t + 1)
            && cr.flushCycle == (if RepeatsAt(s, tr, c) then c else c + 1)
            && cr.taintRob == tr(t).rob && cr.taintInstr == Blamed(tr, rows, t)
            && cr.flushInfo.(cause := info.cause) == info
            && cr.flushInfo.cause ==
               if !tr(c).sg.flush && TrackedSlot(tr, rows, t, c).exception then Some(0x19) else info.cause
  {
    ClockAfter(s, tr, num, limit, t);
    ClockAfter(s, tr, num, limit, c);
  }

  /** One turn while nothing is tainted yet. */
  lemma CleanTurn(tr: Trace, rows: nat, num: nat, s: SimState, k: nat)
    requires TraceOk(tr, rows) && Trackable(C.NO_CRASH, tr(k))
    ensures var (c, exit) := Detection(C.NO_CRASH, SimAt(s, tr, num, k + 1).ticks, tr(k));
            if tr(k).taint.None? then c == C.NO_CRASH && exit == (if Fatal(tr, rows, k) then Return else Continue)
            else if RelevantFlush(tr, rows, k, k) then c == CrashOf(tr, rows, num, s, Flushed(k, k)) && exit == Break
            else c == PendingCrash(tr, rows, num, s, k, k) && exit == Continue
  {}

  /** One turn while the taint of cycle t waits for its explanation. */
  lemma PendingTurn(tr: Trace, rows: nat, num: nat, s: SimState, t: nat, k: nat)
    requires TraceOk(tr, rows) && tr(t).taint.Some? && t < k
    requires Trackable(PendingCrash(tr, rows, num, s, t, k - 1), tr(k))
    ensures var (c, exit) := Detection(PendingCrash(tr, rows, num, s, t, k - 1), SimAt(s, tr, num, k + 1).ticks, tr(k));
            if Architectural(tr, rows, t, k) then c == CrashOf(tr, rows, num, s, Committed(t, k)) && exit == Break
            else if RelevantFlush(tr, rows, t, k) then c == CrashOf(tr, rows, num, s, Flushed(t, k)) && exit == Break
            else c == PendingCrash(tr, rows, num, s, t, k) && exit == Continue
  {}

  /** Where the loop stands before turn k: nothing tainted, or a taint pending since cycle t. */
  ghost predicate Standing(tr: Trace, rows: nat, num: nat, s: SimState, c: C.Crash, t: Option<nat>, k: nat)
    requires TraceOk(tr, rows)
  {
    match t
    case None => c == C.NO_CRASH && forall j :: 0 <= j < k ==> tr(j).taint.None? && !Fatal(tr, rows, j)
    case Some(t) => t < k && Pending(tr, rows, t, k) && c == PendingCrash(tr, rows, num, s, t, k - 1)
  }

  /** What the loop leaves behind: the verdict of the trace, its record, and the simulator after the
      turn in which it ended. */
  ghost predicate Outcome(s0: SimState, tr: Trace, rows: nat, num: nat, limit: nat, v: Verdict, discarded: bool, c: C.Crash, s: SimState)
    requires TraceOk(tr, rows)
  {
    && IsVerdict(tr, rows, num, limit, s0, v)
    && c == CrashOf(tr, rows, num, s0, v)
    && s == SimAt(s0, tr, num, EndOf(v) + if ByTimeout(v) then 0 else 1)
    && (discarded <==> v.Discarded?)
  }

  ghost predicate Stands(s0: SimState, tr: Trace, rows: nat, num: nat, c: C.Crash, k: nat)
    requires TraceOk(tr, rows)
  {
    exists t :: Standing(tr, rows, num, s0, c, t, k)
  }

  ghost predicate Ends(s0: SimState, tr: Trace, rows: nat, num: nat, limit: nat, discarded: bool, c: C.Crash, s: SimState)
    requires TraceOk(tr, rows)
  {
    exists v :: Outcome(s0, tr, rows, num, limit, v, discarded, c, s)
  }

  /** A turn without taint so far keeps the standing, finds the taint, or ends the run. */
  lemma CleanStep(s0: SimState, tr: Trace, rows: nat, num: nat, limit: nat, c: C.Crash, k: nat)
    requires TraceOk(tr, rows) && Standing(tr, rows, num, s0, c, None, k) && Live(s0, tr, num, limit, k + 1)
    ensures Trackable(c, tr(k))
    ensures var s := SimAt(s0, tr, num, k + 1);
            var (c', exit) := Detection(c, s.ticks, tr(k));
            if exit == Continue then Stands(s0, tr, rows, num, c', k + 1)
            else Ends(s0, tr, rows, num, limit, exit == Return, c', s)
  {
    CleanTurn(tr, rows, num, s0, k);
    var s := SimAt(s0, tr, num, k + 1);
    var (c', exit) := Detection(c, s.ticks, tr(k));
    if exit == Continue {
      assert Standing(tr, rows, num, s0, c', if tr(k).taint.Some? then Some(k) else None, k + 1);
    } else {
      assert Outcome(s0, tr, rows, num, limit, if exit == Return then Discarded(k) else Flushed(k, k), exit == Return, c', s);
    }
  }

  /** A turn with a taint pending keeps it pending or ends the run. */
  lemma PendingStep(s0: SimState, tr: Trace, rows: nat, num: nat, limit: nat, c: C.Crash, t: nat, k: nat)
    requires TraceOk(tr, rows) && Standing(tr, rows, num, s0, c, Some(t), k) && Live(s0, tr, num, limit, k + 1)
    ensures Trackable(c, tr(k))
    ensures var s := SimAt(s0, tr, num, k + 1);
            var (c', exit) := Detection(c, s.ticks, tr(k));
            if exit == Continue then Stands(s0, tr, rows, num, c', k + 1)
            else Ends(s0, tr, rows, num, limit, exit == Return, c', s)
  {
    PendingTurn(tr, rows, num, s0, t, k);
    var s := SimAt(s0, tr, num, k + 1);
    var (c', exit) := Detection(c, s.ticks, tr(k));
    if exit == Continue {
      assert Standing(tr, rows, num, s0, c', Some(t), k + 1);
    } else {
      var v := if Architectural(tr, rows, t, k) then Committed(t, k) else Flushed(t, k);
      assert Outcome(s0, tr, rows, num, limit, v, false, c', s);
    }
  }

  /** The loop ran out: what stands is the verdict. */
  lemma AtTimeout(s0: SimState, tr: Trace, rows: nat, num: nat, limit: nat, c: C.Crash, k: nat)
    requires TraceOk(tr, rows) && Stands(s0, tr, rows, num, c, k) && RunsOut(s0, tr, num, limit, k)
    ensures Ends(s0, tr, rows, num, limit, false, c, SimAt(s0, tr, num, k))
  {
    var t :| Standing(tr, rows, num, s0, c, t, k);
    if t.Some? {
      PendingAtTimeout(s0, tr, rows, num, limit, c, t.value, k);
    } else {
      CleanAtTimeout(s0, tr, rows, num, limit, c, k);
    }
  }

  lemma CleanAtTimeout(s0: SimState, tr: Trace, rows: nat, num: nat, limit: nat, c: C.Crash, k: nat)
    requires TraceOk(tr, rows) && Standing(tr, rows, num, s0, c, None, k) && RunsOut(s0, tr, num, limit, k)
    ensures Ends(s0, tr, rows, num, limit, false, c, SimAt(s0, tr, num, k))
  {
    assert Outcome(s0, tr, rows, num, limit, Clean(k), false, c, SimAt(s0, tr, num, k));
  }

  lemma PendingAtTimeout(s0: SimState, tr: Trace, rows: nat, num: nat, limit: nat, c: C.Crash, t: nat, k: nat)
    requires TraceOk(tr, rows) && Standing(tr, rows, num, s0, c, Some(t), k) && RunsOut(s0, tr, num, limit, k)
    ensures Ends(s0, tr, rows, num, limit, false, c, SimAt(s0, tr, num, k))
  {
    assert Outcome(s0, tr, rows, num, limit, Unexplained(t, k), false, c, SimAt(s0, tr, num, k));
  }

  /** One turn of the loop body: step the core, then look at it. */
  method TakeTurn(sim: Sim, crash: C.CrashInfo, tr: Trace, rows: nat, num: nat, ghost limit: nat, k: nat, ghost s0: SimState)
    returns (exit: Exit)
    requires TraceOk(tr, rows) && Live(s0, tr, num, limit, k + 1)
    requires sim.Abs() == SimAt(s0, tr, num, k) && Stands(s0, tr, rows, num, crash.Abs(), k)
    modifies sim, crash
    ensures sim.Abs() == SimAt(s0, tr, num, k + 1)
    ensures exit == Continue ==> Stands(s0, tr, rows, num, crash.Abs(), k + 1)
    ensures exit != Continue ==> Ends(s0, tr, rows, num, limit, exit == Return, crash.Abs(), sim.Abs())
  {
    ghost var t :| Standing(tr, rows, num, s0, crash.Abs(), t, k);
    var stuck := sim.Step(tr(k));
    if stuck {
      sim.retired := num + 1;
    }
    if t.None? {
      CleanStep(s0, tr, rows, num, limit, crash.Abs(), k);
    } else {
      PendingStep(s0, tr, rows, num, limit, crash.Abs(), t.value, k);
    }
    exit := Detect(crash, sim.ticks, tr(k));
  }

  /** One more turn stays within the bounds. */
  lemma LiveNext(tr: Trace, num: nat, limit: nat, s: SimState, k: nat)
    requires limit > 0 && Starting(s)
    requires Live(s, tr, num, limit, k) && Guard(SimAt(s, tr, num, k), num, limit)
    ensures Live(s, tr, num, limit, k + 1)
    ensures SimAt(s, tr, num, k + 1).ticks <= Budget(num, limit) && k <= Budget(num, limit)
  {
    TickBound(s, tr, num, limit, k + 1);
  }

  lemma AtStart(s0: SimState, tr: Trace, rows: nat, num: nat)
    requires TraceOk(tr, rows)
    ensures Stands(s0, tr, rows, num, C.NO_CRASH, 0)
  {
    assert Standing(tr, rows, num, s0, C.NO_CRASH, None, 0);
  }

  /** The whole loop: it ends, within the bound, and leaves behind exactly what the trace amounts to. */
  method Run(sim: Sim, crash: C.CrashInfo, tr: Trace, rows: nat, num: nat, limit: nat) returns (discarded: bool)
    requires TraceOk(tr, rows) && limit > 0
    requires Starting(sim.Abs()) && crash.Abs() == C.NO_CRASH
    modifies sim, crash
    ensures Ends(old(sim.Abs()), tr, rows, num, limit, discarded, crash.Abs(), sim.Abs())
    ensures sim.ticks <= Budget(num, limit)
  {
    ghost var s0 := sim.Abs();
    AtStart(s0, tr, rows, num);
    var k := 0;
    while sim.retired < num + 1 && sim.ticks < sim.lastRetired + limit
      invariant sim.Abs() == SimAt(s0, tr, num, k) && Live(s0, tr, num, limit, k)
      invariant Stands(s0, tr, rows, num, crash.Abs(), k)
      decreases Budget(num, limit) + 1 - k
    {
      LiveNext(tr, num, limit, s0, k);
      var exit := TakeTurn(sim, crash, tr, rows, num, limit, k, s0);
      if exit != Continue {
        return exit == Return;
      }
      k := k + 1;
    }
    TickBound(s0, tr, num, limit, k);
    AtTimeout(s0, tr, rows, num, limit, crash.Abs(), k);
    return false;
  }
}
