/** What is remembered about a tainted sink and the flush that follows it, and the label it gets. */
module Classification {
  import opened Bits
  import opened Wrappers
  import opened Rob
  import opened Flushes
  import opened Simulator

  // ------------------------------------------------------------------ the record

  datatype Crash = Crash(
    taintFound: bool, taintCycle: nat, taintRob: RobState, taintInstr: RobEntry, taintBrMask: nat,
    isTaintArchitectural: bool, flushFound: bool, flushCycle: nat, flushInfo: FlushInfo)

  const NO_ROB := RobState(0, 0, [])
  const NO_CRASH := Crash(false, 0, NO_ROB, NULL_ENTRY, 0, false, false, 0,
                          FlushInfo(None, None, NULL_ENTRY, 0, 0, NO_ROB, false))

  /** Does the buffer have the slot the instruction came from? */
  ghost predicate HasSlot(r: RobState, e: RobEntry) {
    r.Valid() && e.robIdx < |r.entry| && e.robBank < N_ROBS
  }

  function Slot(r: RobState, e: RobEntry): RobEntry
    requires HasSlot(r, e)
  {
    r.entry[e.robIdx][e.robBank]
  }

  function Tainted(c: Crash, ticks: nat, r: RobState, before: BusyMask, after: BusyMask, addr: nat): Crash
    requires r.Valid()
  {
    var instr := Tainting(r, before, after, addr);
    c.(taintFound := true, taintCycle := ticks, taintRob := r, taintInstr := instr, taintBrMask := instr.brMask)
  }

  /** The tracked slot is about to commit: it is the head, valid, neither busy nor excepting. */
  predicate Committing(r: RobState, e: RobEntry)
    requires HasSlot(r, e)
  {
    var cur := Slot(r, e);
    r.IsHead(e) && cur.valid && !cur.busy && !cur.exception
  }

  function Tracked(c: Crash, r: RobState): Crash
    requires c.taintFound ==> HasSlot(r, c.taintInstr)
  {
    if !c.taintFound then c
    else c.(taintBrMask := Slot(r, c.taintInstr).brMask,
            isTaintArchitectural := c.isTaintArchitectural || Committing(r, c.taintInstr))
  }

  /** Flushes that do not explain the taint: architectural ones, and mispredictions of other branches. */
  predicate IsRelevant(brMask: nat, info: FlushInfo) {
    info.kind != Some(FLUSH) && (info.kind == Some(MISPREDICTION) ==> And(brMask, info.mispredMask) != 0)
  }

  /** The information kept about a relevant flush. */
  function KeptInfo(instr: RobEntry, info: FlushInfo): FlushInfo
    requires HasSlot(info.robState, instr)
  {
    if info.kind == Some(MISPREDICTION) && Slot(info.robState, instr).exception
    then info.(cause := Some(CAUSE_MISPREDICTION_WITH_EXCEPTION))
    else info
  }

  function Flushed(c: Crash, ticks: nat, info: FlushInfo): Crash
    requires HasSlot(info.robState, c.taintInstr)
  {
    if IsRelevant(c.taintBrMask, info)
    then c.(flushFound := true, flushCycle := ticks, flushInfo := KeptInfo(c.taintInstr, info))
    else c
  }

  class CrashInfo {
    var taintFound: bool
    var taintCycle: nat
    var taintRob: RobState
    var taintInstr: RobEntry
    var taintBrMask: nat
    var isTaintArchitectural: bool
    var flushFound: bool
    var flushCycle: nat
    var flushInfo: FlushInfo

    constructor ()
      ensures Abs() == NO_CRASH
    {
      taintFound, taintCycle, taintRob, taintInstr, taintBrMask := false, 0, NO_ROB, NULL_ENTRY, 0;
      isTaintArchitectural, flushFound, flushCycle := false, false, 0;
      flushInfo := FlushInfo(None, None, NULL_ENTRY, 0, 0, NO_ROB, false);
    }

    ghost function Abs(): Crash
      reads this
    {
      Crash(taintFound, taintCycle, taintRob, taintInstr, taintBrMask, isTaintArchitectural, flushFound, flushCycle, flushInfo)
    }

    method RecordTaint(ticks: nat, r: RobState, previouslyBusy: BusyMask, currentlyBusy: BusyMask, addr: nat)
      requires r.Valid()
      modifies this
      ensures Abs() == Tainted(old(Abs()), ticks, r, previouslyBusy, currentlyBusy, addr)
    {
      taintFound := true;
      taintCycle := ticks;
      taintRob := r;
      taintInstr := GetTaintingInstruction(r, previouslyBusy, currentlyBusy, addr);
      taintBrMask := taintInstr.brMask;
    }

    method UpdateTaintInstr(curRob: RobState)
      requires taintFound ==> HasSlot(curRob, taintInstr)
      modifies this
      ensures Abs() == Tracked(old(Abs()), curRob)
    {
      if !taintFound {
        return;
      }
      var curEntry := curRob.entry[taintInstr.robIdx][taintInstr.robBank];
      taintBrMask := curEntry.brMask;
      if curRob.IsHead(taintInstr) && curEntry.valid && !curEntry.busy && !curEntry.exception {
        isTaintArchitectural := true;
      }
    }

    method RecordFlush(ticks: nat, info: FlushInfo) returns (relevant: bool)
      requires HasSlot(info.robState, taintInstr)
      modifies this
      ensures relevant == IsRelevant(old(taintBrMask), info)
      ensures Abs() == Flushed(old(Abs()), ticks, info)
    {
      if info.kind == Some(FLUSH) {
        return false;
      }
      var kept := info;
      if info.kind == Some(MISPREDICTION) {
        if And(taintBrMask, info.mispredMask) == 0 {
          return false;
        } else if info.robState.entry[taintInstr.robIdx][taintInstr.robBank].exception {
          kept := kept.(cause := Some(CAUSE_MISPREDICTION_WITH_EXCEPTION));
        }
      }
      flushFound := true;
      flushCycle := ticks;
      flushInfo := kept;
      return true;
    }
  }

  // ------------------------------------------------------------------ the label

  /** What the label reads besides the record: the memory words, and which addresses were retired. */
  datatype Context = Context(word: nat -> nat, retiredPcs: set<nat>)

  function SourceName(s: TaintSource): string {
    match s
    case ALL => "ALL"
    case MEMORY => "MEMORY"
    case STORE_BUFFER => "STORE_BUFFER"
    case LOAD_QUEUE => "LOAD_QUEUE"
    case LFB => "LFB"
    case UNKNOWN => "UNKNOWN_SOURCE"
  }

  function CauseName(cause: nat): string {
    if cause == 0x0 then "MISALIGNED_FETCH"
    else if cause == FETCH_ACCESS then "FETCH_ACCESS"
    else if cause == ILLEGAL_INSTRUCTION then "ILLEGAL_INSTRUCTION"
    else if cause == 0x3 then "BREAKPOINT"
    else if cause == 0x4 then "MISALIGNED_LOAD"
    else if cause == 0x5 then "LOAD_ACCESS"
    else if cause == 0x6 then "MISALIGNED_STORE"
    else if cause == 0x7 then "STORE_ACCESS"
    else if cause == 0x8 then "USER_ECALL"
    else if cause == 0x9 then "SUPERVISOR_ECALL"
    else if cause == 0xa then "VSUPERVISOR_ECALL"
    else if cause == 0xb then "MACHINE_ECALL"
    else if cause == 0xc then "FETCH_PFAULT"
    else if cause == 0xd then "LOAD_PFAULT"
    else if cause == 0xf then "STORE_PFAULT"
    else if cause == MINI_EXCEPTION_MEM_ORDERING then "MEM_ORDERING"
    else if cause == 0x14 then "FETCH_GUEST_PAGE_FAULT"
    else if cause == 0x15 then "LOAD_GUEST_PAGE_FAULT"
    else if cause == 0x16 then "VIRTUAL_INSTRUCTION"
    else if cause == 0x17 then "STORE_GUEST_PAGE_FAULT"
    else if cause == CAUSE_UNKNOWN then "UNKNOWN_CAUSE"
    else "Unknown"
  }

  /** `ret` is recognised by the low twenty bits of the word. */
  predicate IsRet(word: nat) {
    word % 0x10_0000 == 0x8067
  }

  predicate IsBranch(uopcode: nat) { 24 <= uopcode <= 29 }
  predicate IsJump(uopcode: nat) { 36 <= uopcode <= 38 }

  function MispredictionLabel(c: Crash, x: Context): string {
    if IsBranch(c.flushInfo.inst.uopcode) then
      if c.flushInfo.taken then "Spectre_v1_static"
      else if c.taintInstr.pc in x.retiredPcs then "Spectre_v1_training"
      else "Spectre_v1_new"
    else if IsJump(c.flushInfo.inst.uopcode) then
      if IsRet(x.word(c.flushInfo.inst.pc)) then "Spectre_RSB" else "Spectre_v2"
    else "Spectre_Unknown"
  }

  /** The fields the label reads have been assigned. */
  predicate Readable(c: Crash) {
    c.flushFound ==> c.flushInfo.kind.Some? && (c.flushInfo.kind == Some(EXCEPTION) ==> c.flushInfo.cause.Some?)
  }

  function Classify(c: Crash, x: Context, source: TaintSource): string
    requires Readable(c)
  {
    if !c.taintFound then "No_taint"
    else if !c.flushFound then "No_flush"
    else if source != ALL && source != MEMORY then "MDS_" + SourceName(source)
    else
      match c.flushInfo.kind.value
      case MISPREDICTION => MispredictionLabel(c, x)
      case MEM_ORDERING => "Spectre_v4"
      case EXCEPTION =>
        (if c.flushInfo.inst.pc == c.taintInstr.pc then "Meltdown_" else "OOO_") + CauseName(c.flushInfo.cause.value)
      case FLUSH => "ArchFlush_" + if c.flushInfo.inst.pc == c.taintInstr.pc then "SameInst" else "DifferentInst"
      case UNKNOWN_FLUSH => "Flush_Unknown"
  }

  predicate StartsWith(s: string, prefix: string) {
    |prefix| <= |s| && s[..|prefix|] == prefix
  }

  /** The first and third letters tell the families of labels apart. */
  lemma LabelLetters(c: Crash, x: Context, source: TaintSource)
    requires Readable(c)
    ensures var l := Classify(c, x, source);
            && |l| >= 4
            && (l[0] == 'N' <==> !c.taintFound || !c.flushFound)
            && (l == "No_taint" <==> !c.taintFound)
            && (l == "No_flush" <==> c.taintFound && !c.flushFound)
            && (l[0] == 'A' <==> c.taintFound && c.flushFound && (source == ALL || source == MEMORY) && c.flushInfo.kind == Some(FLUSH))
            && (l[0] == 'M' && l[1] == 'e' <==>
                c.taintFound && c.flushFound && (source == ALL || source == MEMORY)
                && c.flushInfo.kind == Some(EXCEPTION) && c.flushInfo.inst.pc == c.taintInstr.pc)
  {
    assert "No_taint"[3] == 't' && "No_flush"[3] == 'f';
  }

  /** The label the outer loop looks for is given for an exception of the tainting instruction itself,
      when memory is a source, and for nothing else. */
  lemma MeltdownIff(c: Crash, x: Context, source: TaintSource)
    requires Readable(c)
    ensures StartsWith(Classify(c, x, source), "Meltdown_") <==>
            c.taintFound && c.flushFound && (source == ALL || source == MEMORY)
            && c.flushInfo.kind == Some(EXCEPTION) && c.flushInfo.inst.pc == c.taintInstr.pc
  {
    LabelLetters(c, x, source);
    var l, p := Classify(c, x, source), "Meltdown_";
    if StartsWith(l, p) {
      assert l[0] == l[..|p|][0] && l[1] == l[..|p|][1];
    }
  }

  /** Is memory a source, and a misprediction blamed for the taint? */
  predicate BlamesMisprediction(c: Crash, source: TaintSource) {
    c.taintFound && c.flushFound && (source == ALL || source == MEMORY) && c.flushInfo.kind == Some(MISPREDICTION)
  }

  /** The labels of mispredictions and memory orderings. A Spectre v1 is static when the branch was to be
      taken, and else counts as trained when the tainting address has been retired. */
  lemma SpectreIff(c: Crash, x: Context, source: TaintSource)
    requires Readable(c)
    ensures var l, op := Classify(c, x, source), c.flushInfo.inst.uopcode;
            var mispred, trained := BlamesMisprediction(c, source), c.taintInstr.pc in x.retiredPcs;
            var v4 := c.taintFound && c.flushFound && (source == ALL || source == MEMORY) && c.flushInfo.kind == Some(MEM_ORDERING);
            && (l[..1] == "S" <==> mispred || v4)
            && (l == "Spectre_v4" <==> v4)
            && (l == "Spectre_v1_static" <==> mispred && IsBranch(op) && c.flushInfo.taken)
            && (l == "Spectre_v1_training" <==> mispred && IsBranch(op) && !c.flushInfo.taken && trained)
            && (l == "Spectre_v1_new" <==> mispred && IsBranch(op) && !c.flushInfo.taken && !trained)
            && (l == "Spectre_RSB" <==> mispred && IsJump(op) && IsRet(x.word(c.flushInfo.inst.pc)))
            && (l == "Spectre_v2" <==> mispred && IsJump(op) && !IsRet(x.word(c.flushInfo.inst.pc)))
            && (l == "Spectre_Unknown" <==> mispred && !IsBranch(op) && !IsJump(op))
  {
    LabelLetters(c, x, source);
    var l := Classify(c, x, source);
    assert l[..1] == [l[0]];
    if BlamesMisprediction(c, source) {
      assert l == MispredictionLabel(c, x);
    }
  }

  /** The other families: exceptions of another instruction, passes over buffers alone, and the rest. */
  lemma OtherLabelsIff(c: Crash, x: Context, source: TaintSource)
    requires Readable(c)
    ensures var l := Classify(c, x, source);
            var explained, memory := c.taintFound && c.flushFound, source == ALL || source == MEMORY;
            && (StartsWith(l, "MDS_") <==> explained && !memory)
            && (l == "MDS_STORE_BUFFER" <==> explained && source == STORE_BUFFER)
            && (StartsWith(l, "OOO_") <==>
                explained && memory && c.flushInfo.kind == Some(EXCEPTION) && c.flushInfo.inst.pc != c.taintInstr.pc)
            && (l == "Flush_Unknown" <==> explained && memory && c.flushInfo.kind == Some(UNKNOWN_FLUSH))
  {
    LabelLetters(c, x, source);
    var l := Classify(c, x, source);
    if StartsWith(l, "MDS_") { assert l[1] == l[..4][1] == 'D'; }
    if StartsWith(l, "OOO_") { assert l[0] == l[..4][0] == 'O'; }
    assert SourceName(STORE_BUFFER) == "STORE_BUFFER";
    assert l == "MDS_STORE_BUFFER" ==> l[..4] == "MDS_" && l[4..] == "STORE_BUFFER";
    if c.taintFound && c.flushFound && source != ALL && source != MEMORY {
      assert l[..4] == "MDS_" && l[4..] == SourceName(source);
    }
  }

  /** The causes with a name of their own. */
  predicate IsKnownCause(cause: nat) {
    (cause <= 0x10 && cause != 0xe) || 0x14 <= cause <= 0x17 || cause == CAUSE_UNKNOWN
  }

  /** Labels tell exceptions apart by their cause. */
  lemma CauseNamesDiffer(a: nat, b: nat)
    requires IsKnownCause(a) && IsKnownCause(b) && CauseName(a) == CauseName(b)
    ensures a == b
  {}

  lemma ArchFlushIff(c: Crash, x: Context, source: TaintSource)
    requires Readable(c)
    ensures StartsWith(Classify(c, x, source), "ArchFlush_") <==>
            c.taintFound && c.flushFound && (source == ALL || source == MEMORY) && c.flushInfo.kind == Some(FLUSH)
  {
    LabelLetters(c, x, source);
    var l, p := Classify(c, x, source), "ArchFlush_";
    if StartsWith(l, p) {
      assert l[0] == l[..|p|][0];
    }
  }
}
