/** The outer loop over taint sources, and what the reported labels mean over whole runs. */
module Driver {
  import opened Bits
  import opened Wrappers
  import opened Simulator
  import opened Flushes
  import opened Detector
  import C = Classification

  // ------------------------------------------------------------------ labels over whole runs

  lemma {:induction false} TicksMonotone(s: SimState, tr: Trace, num: nat, j: nat, k: nat)
    requires j <= k
    ensures SimAt(s, tr, num, j).ticks <= SimAt(s, tr, num, k).ticks
  {
    if j < k { TicksMonotone(s, tr, num, j, k - 1); }
  }

  /** On every run, the record left behind is consistent: a flush is recorded only after a taint, no
      earlier, never together with an architectural taint, and never an intentional one; a recorded
      misprediction hit a branch in the mask of the tracked slot; and whatever the label will read has been
      assigned. */
  lemma RecordsAreConsistent(s: SimState, tr: Trace, rows: nat, num: nat, limit: nat, v: Verdict)
    requires TraceOk(tr, rows) && IsVerdict(tr, rows, num, limit, s, v)
    ensures var c := CrashOf(tr, rows, num, s, v);
            && C.Readable(c)
            && (c.flushFound || c.isTaintArchitectural ==> c.taintFound)
            && (c.flushFound ==> !c.isTaintArchitectural && c.flushCycle >= c.taintCycle && c.flushInfo.kind != Some(FLUSH))
            && (c.flushFound && c.flushInfo.kind == Some(MISPREDICTION) ==>
                  exists i: nat :: SharesBit(c.taintBrMask, c.flushInfo.mispredMask, i))
  {
    if v.Flushed? {
      TicksMonotone(s, tr, num, v.t + 1, v.c + 1);
      AndNonZero(BrMask(tr, rows, v.t, v.c), Info(tr, rows, v.c).mispredMask);
    }
  }

  /** What the verdicts are called: no flush means the taint was committed or never explained, and no
      report ever says there was no taint, or blames an intentional flush. */
  lemma LabelsOfVerdicts(s: SimState, tr: Trace, rows: nat, num: nat, limit: nat, v: Verdict, x: C.Context, src: TaintSource)
    requires TraceOk(tr, rows) && IsVerdict(tr, rows, num, limit, s, v)
    ensures C.Readable(CrashOf(tr, rows, num, s, v))
    ensures var c := CrashOf(tr, rows, num, s, v);
            var found := C.Classify(c, x, src);
            && (c.taintFound <==> v.Committed? || v.Flushed? || v.Unexplained?)
            && (found == "No_flush" <==> v.Committed? || v.Unexplained?)
            && (c.taintFound ==> found != "No_taint")
            && !C.StartsWith(found, "ArchFlush_")
  {
    RecordsAreConsistent(s, tr, rows, num, limit, v);
    C.LabelLetters(CrashOf(tr, rows, num, s, v), x, src);
    C.ArchFlushIff(CrashOf(tr, rows, num, s, v), x, src);
  }

  /** A trained Spectre v1, over a whole run: the taint is explained by the misprediction of a branch that
      was not to be taken, and the address it is blamed on was committed in the same run. */
  lemma TrainedIffCommitted(s: SimState, tr: Trace, rows: nat, num: nat, limit: nat, v: Verdict, word: nat -> nat)
    requires TraceOk(tr, rows) && Starting(s) && IsVerdict(tr, rows, num, limit, s, v)
    ensures C.Readable(CrashOf(tr, rows, num, s, v))
    ensures var c, k := CrashOf(tr, rows, num, s, v), EndOf(v) + if ByTimeout(v) then 0 else 1;
            C.Classify(c, C.Context(word, SimAt(s, tr, num, k).retiredPcs), ALL) == "Spectre_v1_training" <==>
            && v.Flushed? && c.flushInfo.kind == Some(MISPREDICTION)
            && C.IsBranch(c.flushInfo.inst.uopcode) && !c.flushInfo.taken
            && CommittedBefore(s, tr, num, k, Blamed(tr, rows, v.t).pc)
  {
    var c, k := CrashOf(tr, rows, num, s, v), EndOf(v) + if ByTimeout(v) then 0 else 1;
    RecordsAreConsistent(s, tr, rows, num, limit, v);
    C.SpectreIff(c, C.Context(word, SimAt(s, tr, num, k).retiredPcs), ALL);
    RetiredIffCommitted(s, tr, num, k, c.taintInstr.pc);
  }

  // ------------------------------------------------------------------ the outer loop

  /** One pass: whether the program is dropped for want of addresses from the architectural run, how many
      instructions that run retires, what the core shows cycle by cycle, and the memory words. The
      architectural run of a second pass reports addresses only if the program touches a device
      (ArchSim.ResetRunFindsDevicesOnly). */
  datatype Pass = Pass(discarded: bool, num: nat, tr: Trace, word: nat -> nat)

  ghost predicate PassOk(p: Pass, rows: nat) {
    TraceOk(p.tr, rows)
  }

  /** From simulator state s, the pass arrives at this label, if it finds taint in a program that is not
      discarded, and leaves the simulator in state s'. */
  ghost predicate LabelOf(p: Pass, rows: nat, limit: nat, src: TaintSource, s: SimState, found: Option<string>, s': SimState)
    requires PassOk(p, rows)
  {
    if p.discarded then found == None && s' == s
    else exists v :: LabelFrom(p, rows, limit, src, s, v, found, s')
  }

  ghost predicate LabelFrom(p: Pass, rows: nat, limit: nat, src: TaintSource, s: SimState, v: Verdict, found: Option<string>, s': SimState)
    requires PassOk(p, rows)
  {
    && IsVerdict(p.tr, rows, p.num, limit, s, v)
    && s' == SimAt(s, p.tr, p.num, EndOf(v) + if ByTimeout(v) then 0 else 1)
    && var c := CrashOf(p.tr, rows, p.num, s, v);
       C.Readable(c) && found == if c.taintFound then Some(C.Classify(c, C.Context(p.word, s'.retiredPcs), src)) else None
  }

  /** A pass has one label: its trace and the state it starts from determine it. */
  lemma LabelUnique(p: Pass, rows: nat, limit: nat, src: TaintSource, s: SimState,
                    found: Option<string>, s': SimState, found': Option<string>, s'': SimState)
    requires PassOk(p, rows) && LabelOf(p, rows, limit, src, s, found, s') && LabelOf(p, rows, limit, src, s, found', s'')
    ensures found == found' && s' == s''
  {
    if !p.discarded {
      var v :| LabelFrom(p, rows, limit, src, s, v, found, s');
      var v' :| LabelFrom(p, rows, limit, src, s, v', found', s'');
      VerdictUnique(p.tr, rows, p.num, limit, s, v, v');
      LabelOfVerdict(p, rows, limit, src, s, v, found, s', found', s'');
    }
  }

  lemma LabelOfVerdict(p: Pass, rows: nat, limit: nat, src: TaintSource, s: SimState, v: Verdict,
                       found: Option<string>, s': SimState, found': Option<string>, s'': SimState)
    requires PassOk(p, rows) && LabelFrom(p, rows, limit, src, s, v, found, s') && LabelFrom(p, rows, limit, src, s, v, found', s'')
    ensures found == found' && s' == s''
  {}

  predicate IsMeltdown(found: Option<string>) {
    found.Some? && C.StartsWith(found.value, "Meltdown_")
  }

  /** Only a pass with memory as a source can arrive at a Meltdown label. */
  lemma MeltdownNeedsMemory(p: Pass, rows: nat, limit: nat, src: TaintSource, s: SimState, found: Option<string>, s': SimState)
    requires PassOk(p, rows) && LabelOf(p, rows, limit, src, s, found, s') && IsMeltdown(found)
    ensures src == ALL || src == MEMORY
  {
    var v :| LabelFrom(p, rows, limit, src, s, v, found, s');
    C.MeltdownIff(CrashOf(p.tr, rows, p.num, s, v), C.Context(p.word, s'.retiredPcs), src);
  }

  /** One pass of the simulation and its label. */
  method RunPass(sim: Sim, p: Pass, rows: nat, limit: nat, src: TaintSource) returns (found: Option<string>)
    requires PassOk(p, rows) && limit > 0 && Starting(sim.Abs())
    modifies sim
    ensures LabelOf(p, rows, limit, src, old(sim.Abs()), found, sim.Abs())
  {
    if p.discarded {
      return None;
    }
    ghost var s := sim.Abs();
    var crash := new C.CrashInfo();
    var discarded := Run(sim, crash, p.tr, rows, p.num, limit);
    ghost var v :| Outcome(s, p.tr, rows, p.num, limit, v, discarded, crash.Abs(), sim.Abs());
    RecordsAreConsistent(s, p.tr, rows, p.num, limit, v);
    if !discarded && crash.taintFound {
      var c := C.Crash(crash.taintFound, crash.taintCycle, crash.taintRob, crash.taintInstr, crash.taintBrMask,
                       crash.isTaintArchitectural, crash.flushFound, crash.flushCycle, crash.flushInfo);
      found := Some(C.Classify(c, C.Context(p.word, sim.retiredPcs), src));
    } else {
      found := None;
    }
    assert LabelFrom(p, rows, limit, src, s, v, found, sim.Abs());
  }

  /** A reset keeps the repeat counter. */
  function Restarted(s: SimState): SimState {
    FRESH.(pcs := s.pcs)
  }

  /** What the passes amount to. A second pass, over the store buffer alone and from the reset simulator,
      is made exactly when MDS detection is on and the first pass says Meltdown; its finding, or its
      silence, then replaces the first one's. */
  ghost predicate IsReport(passes: nat -> Pass, mds: bool, rows: nat, limit: nat, report: Option<string>, n: nat)
    requires forall i :: PassOk(passes(i), rows)
  {
    exists first, s :: ReportAfter(passes, mds, rows, limit, first, s, report, n)
  }

  ghost predicate ReportAfter(passes: nat -> Pass, mds: bool, rows: nat, limit: nat, first: Option<string>, s: SimState,
                              report: Option<string>, n: nat)
    requires forall i :: PassOk(passes(i), rows)
  {
    && LabelOf(passes(0), rows, limit, ALL, FRESH, first, s)
    && if mds && IsMeltdown(first)
       then n == 2 && exists s' :: LabelOf(passes(1), rows, limit, STORE_BUFFER, Restarted(s), report, s')
       else n == 1 && report == first
  }

  /** The passes determine the report, and how many of them are made. */
  lemma ReportUnique(passes: nat -> Pass, mds: bool, rows: nat, limit: nat,
                     report: Option<string>, n: nat, report': Option<string>, n': nat)
    requires forall i :: PassOk(passes(i), rows)
    requires IsReport(passes, mds, rows, limit, report, n) && IsReport(passes, mds, rows, limit, report', n')
    ensures report == report' && n == n'
  {
    var first, s :| ReportAfter(passes, mds, rows, limit, first, s, report, n);
    var first', s' :| ReportAfter(passes, mds, rows, limit, first', s', report', n');
    LabelUnique(passes(0), rows, limit, ALL, FRESH, first, s, first', s');
    if mds && IsMeltdown(first) {
      var z :| LabelOf(passes(1), rows, limit, STORE_BUFFER, Restarted(s), report, z);
      var z' :| LabelOf(passes(1), rows, limit, STORE_BUFFER, Restarted(s), report', z');
      LabelUnique(passes(1), rows, limit, STORE_BUFFER, Restarted(s), report, z, report', z');
    }
  }

  /** A Meltdown found with MDS detection on leads to no report when its second pass is dropped. */
  lemma DroppedSecondPass(passes: nat -> Pass, mds: bool, rows: nat, limit: nat, report: Option<string>, n: nat,
                          first: Option<string>, s: SimState)
    requires forall i :: PassOk(passes(i), rows)
    requires IsReport(passes, mds, rows, limit, report, n)
    requires LabelOf(passes(0), rows, limit, ALL, FRESH, first, s) && mds && IsMeltdown(first) && passes(1).discarded
    ensures report == None && n == 2
  {
    var first', s' :| ReportAfter(passes, mds, rows, limit, first', s', report, n);
    LabelUnique(passes(0), rows, limit, ALL, FRESH, first, s, first', s');
  }

  /** The outer loop, reporting not returning: at most two passes, and with MDS detection on a report
      never says Meltdown. */
  method Campaign(passes: nat -> Pass, mds: bool, rows: nat, limit: nat) returns (report: Option<string>, n: nat)
    requires limit > 0 && forall i :: PassOk(passes(i), rows)
    ensures IsReport(passes, mds, rows, limit, report, n)
    ensures mds ==> !IsMeltdown(report)
  {
    var sim := new Sim();
    var curTaintSrc := ALL;
    n := 0;
    ghost var first: Option<string>, s := None, FRESH;
    while curTaintSrc != UNKNOWN
      invariant fresh(sim) && Starting(sim.Abs())
      invariant n == 0 ==> curTaintSrc == ALL && sim.Abs() == FRESH
      invariant n > 0 ==> n == 1 && mds && IsMeltdown(first) && LabelOf(passes(0), rows, limit, ALL, FRESH, first, s)
      invariant n > 0 ==> curTaintSrc == STORE_BUFFER && sim.Abs() == Restarted(s)
      decreases 2 - n
    {
      ghost var start := sim.Abs();
      var found := RunPass(sim, passes(n), rows, limit, curTaintSrc);
      n := n + 1;
      if n == 1 {
        first, s := found, sim.Abs();
      } else if IsMeltdown(found) {
        MeltdownNeedsMemory(passes(1), rows, limit, STORE_BUFFER, start, found, sim.Abs());
      }
      if mds && IsMeltdown(found) {
        curTaintSrc := GetNextTaintSource(curTaintSrc);
        if curTaintSrc != UNKNOWN {
          sim.Reset();
          continue;
        }
      }
      assert ReportAfter(passes, mds, rows, limit, first, s, found, n);
      return found, n;
    }
    report := None;
  }
}
