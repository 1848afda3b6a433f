/** What the pipeline's flush and misprediction signals say about a flush. */
module Flushes {
  import opened Rob
  import opened Wrappers

  datatype FlushType = FLUSH | EXCEPTION | MISPREDICTION | MEM_ORDERING | UNKNOWN_FLUSH

  const FETCH_ACCESS: nat := 0x1
  const ILLEGAL_INSTRUCTION: nat := 0x2
  const MINI_EXCEPTION_MEM_ORDERING: nat := 0x10
  const CAUSE_MISPREDICTION: nat := 0x18
  const CAUSE_MISPREDICTION_WITH_EXCEPTION: nat := 0x19
  const CAUSE_UNKNOWN: nat := 0x1a

  /** The signals of one cycle. */
  datatype Signals = Signals(
    flush: bool, xcptValid: bool, xcptCause: nat, badAddr: nat, flushOnCommit: bool, mispredMask: nat,
    br0Mispred: bool, br0Valid: bool, br0RobIdx: nat, br0Taken: bool,
    br1Mispred: bool, br1Valid: bool, br1RobIdx: nat, br1Taken: bool, useSecond: bool)

  /** None marks a field that was never assigned. */
  datatype FlushInfo = FlushInfo(
    kind: Option<FlushType>, cause: Option<nat>, inst: RobEntry, badAddr: nat, mispredMask: nat,
    robState: RobState, taken: bool)

  predicate IsFlushing(sg: Signals) {
    sg.flush || sg.mispredMask != 0
  }

  ghost predicate SignalsOk(sg: Signals, r: RobState) {
    r.Valid() && sg.br0RobIdx < 2 * |r.entry| && sg.br1RobIdx < 2 * |r.entry|
  }

  /** A port that reports a valid misprediction. */
  predicate FirstMispredicts(sg: Signals) { sg.br0Mispred && sg.br0Valid }
  predicate SecondMispredicts(sg: Signals) { sg.br1Mispred && sg.br1Valid }

  /** Read the signals: which kind of flush they mean, why, and which instruction it is blamed on. */
  function ReadFrom(sg: Signals, r: RobState): (info: FlushInfo)
    requires SignalsOk(sg, r)
    ensures info.robState == r
    // The kind, over the signals alone.
    ensures info.kind.Some? <==> IsFlushing(sg)
    ensures info.kind == Some(EXCEPTION) <==> sg.flush && sg.xcptValid
    ensures info.kind == Some(FLUSH) <==> sg.flush && !sg.xcptValid && sg.flushOnCommit
    ensures info.kind == Some(MEM_ORDERING) <==> sg.flush && !sg.xcptValid && !sg.flushOnCommit && sg.xcptCause == 0x10
    ensures info.kind == Some(UNKNOWN_FLUSH) <==> sg.flush && !sg.xcptValid && !sg.flushOnCommit && sg.xcptCause != 0x10
    ensures info.kind == Some(MISPREDICTION) <==> !sg.flush && sg.mispredMask != 0
    // The cause is assigned unless the kind is unknown.
    ensures info.cause.Some? <==> IsFlushing(sg) && info.kind != Some(UNKNOWN_FLUSH)
    ensures info.cause.Some? && sg.flush ==> info.cause.value == sg.xcptCause
    ensures info.kind == Some(MISPREDICTION) ==> info.cause == Some(CAUSE_MISPREDICTION)
    // The other fields.
    ensures info.badAddr == if info.kind == Some(EXCEPTION) then sg.badAddr else 0
    ensures info.mispredMask == if sg.flush then 0 else sg.mispredMask
    ensures sg.flush ==> info.inst == r.Head() && !info.taken
    ensures !sg.flush && !(IsFlushing(sg) && (FirstMispredicts(sg) || SecondMispredicts(sg))) ==> info.inst == NULL_ENTRY && !info.taken
  {
    var info := FlushInfo(None, None, NULL_ENTRY, 0, 0, r, false);
    if sg.flush then
      var info := info.(inst := r.Head());
      if sg.xcptValid then info.(cause := Some(sg.xcptCause), kind := Some(EXCEPTION), badAddr := sg.badAddr)
      else if sg.flushOnCommit then info.(kind := Some(FLUSH), cause := Some(sg.xcptCause))
      else if sg.xcptCause == MINI_EXCEPTION_MEM_ORDERING then info.(kind := Some(MEM_ORDERING), cause := Some(sg.xcptCause))
      else info.(kind := Some(UNKNOWN_FLUSH))
    else if sg.mispredMask != 0 then
      var info := info.(cause := Some(CAUSE_MISPREDICTION), kind := Some(MISPREDICTION), mispredMask := sg.mispredMask);
      var second := sg.br1Mispred && sg.br1Valid;
      if (sg.br0Mispred && sg.br0Valid) || second then
        var useSecond := second && sg.useSecond;
        var idx := if useSecond then sg.br1RobIdx else sg.br0RobIdx;
        info.(inst := r.entry[idx / 2][idx % 2], taken := if useSecond then sg.br1Taken else sg.br0Taken)
      else info
    else info
  }

  /** The slots of the buffer are numbered row by row. */
  function SlotNumber(e: RobEntry): nat {
    2 * e.robIdx + e.robBank
  }

  /** When some port mispredicts, entry and direction are those of one port, the second one if it
      mispredicts and the core selects it. They are those of a mispredicting port unless only the second
      one mispredicts and is not selected: then the first port's are taken. */
  lemma MispredictedBranch(sg: Signals, r: RobState)
    requires SignalsOk(sg, r) && !sg.flush && sg.mispredMask != 0 && (FirstMispredicts(sg) || SecondMispredicts(sg))
    ensures var info, second := ReadFrom(sg, r), SecondMispredicts(sg) && sg.useSecond;
            && info.inst == r.entry[info.inst.robIdx][info.inst.robBank]
            && SlotNumber(info.inst) == (if second then sg.br1RobIdx else sg.br0RobIdx)
            && info.taken == (if second then sg.br1Taken else sg.br0Taken)
            && ((if second then SecondMispredicts(sg) else FirstMispredicts(sg)) <==> FirstMispredicts(sg) || sg.useSecond)
  {
    var idx := if SecondMispredicts(sg) && sg.useSecond then sg.br1RobIdx else sg.br0RobIdx;
    assert r.entry[idx / 2][idx % 2].robIdx == idx / 2 && r.entry[idx / 2][idx % 2].robBank == idx % 2;
  }

  /** Only the second port mispredicts, on the branch in slot 3, and the core does not select it: the
      branch blamed is the one the first port happens to name, in slot 0. */
  lemma MispredictedBranchExample()
    ensures var e := (i: nat, j: nat) => NULL_ENTRY.(robIdx := i, robBank := j);
            var r := RobState(0, 1, [[e(0, 0), e(0, 1)], [e(1, 0), e(1, 1)]]);
            var sg := Signals(false, false, 0, 0, false, 1, false, false, 0, false, true, true, 3, true, false);
            SignalsOk(sg, r) && ReadFrom(sg, r).inst == e(0, 0) && SecondMispredicts(sg) && !FirstMispredicts(sg)
  {}
}
