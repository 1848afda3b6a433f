/** The architectural run: processor hooks that filter out unsuitable programs, recorders that watch the
    memory, the run loop around them, and the address lists handed to the set-up. */
module ArchSim {
  import opened Bits
  import opened Wrappers
  import opened Simulator
  import R = Recorders

  // ------------------------------------------------------------------ hooks

  datatype JumpKind = NONE | OUTSIDE_VALID_MEM | NEWPC_TOO_NEAR | NEWPC_UNALIGNED

  /** What one instruction does, as far as the simulator is told: hook calls, with physical jump targets;
      MMIO accesses; and memory accesses as the memory tracers hear of them. */
  datatype Event =
    | Jump(pc: nat, newpc: nat)
    | Store(pc: nat, addr: nat)
    | Load(pc: nat, addr: nat)
    | Trap(illegal: bool, mtvec: nat)
    | Mmio(allowed: bool, physical: bool, addr: nat, n: nat)
    | Access(addr: nat, n: nat, kind: R.AccessType)

  datatype Layout = Layout(initEnd: nat, codeRegions: seq<Region>, forbidden: seq<Region>)

  datatype Flags = Flags(
    illegalJump: bool, jumpKind: JumpKind, jumpPc: nat,
    selfModifying: bool, accessedForbidden: bool,
    illegalInst: bool, unhandledTrap: bool, trap: bool, illegalDevice: bool)

  const CLEAR := Flags(false, NONE, 0, false, false, false, false, false, false)

  ghost predicate Inside(regions: seq<Region>, addr: nat) {
    InCode(regions, |regions|, addr)
  }

  /** The two range tests of the jump hook, in 64-bit arithmetic. */
  predicate TooNear(pc: nat, newpc: nat) {
    || (newpc >= pc && newpc < (pc + 8) % TWO64)
    || (newpc < pc && newpc > (pc + TWO64 - 8) % TWO64)
  }

  ghost predicate LegalJump(y: Layout, pc: nat, newpc: nat)
    requires y.codeRegions != []
  {
    pc < y.codeRegions[0].first || (Inside(y.codeRegions, newpc) && newpc % 4 == 0 && !TooNear(pc, newpc))
  }

  ghost function AfterJump(y: Layout, f: Flags, pc: nat, newpc: nat): Flags
    requires y.codeRegions != []
  {
    if LegalJump(y, pc, newpc) then f
    else f.(illegalJump := true, jumpPc := newpc,
            jumpKind := if newpc % 4 != 0 then NEWPC_UNALIGNED else if TooNear(pc, newpc) then NEWPC_TOO_NEAR else OUTSIDE_VALID_MEM)
  }

  ghost function After(y: Layout, f: Flags, e: Event): Flags
    requires y.codeRegions != []
  {
    match e
    case Jump(pc, newpc) => AfterJump(y, f, pc, newpc)
    case Store(pc, addr) =>
      if pc < y.initEnd then f
      else f.(selfModifying := f.selfModifying || Inside(y.codeRegions, addr),
              accessedForbidden := f.accessedForbidden || Inside(y.forbidden, addr))
    case Load(pc, addr) =>
      if pc < y.initEnd then f else f.(accessedForbidden := f.accessedForbidden || Inside(y.forbidden, addr))
    case Trap(illegal, mtvec) =>
      f.(trap := true, illegalInst := f.illegalInst || illegal, unhandledTrap := f.unhandledTrap || mtvec == 0)
    case Mmio(allowed, _, _, _) => f.(illegalDevice := !allowed)
    case Access(_, _, _) => f
  }

  /** The processor, with the device flag of the simulator around it. */
  class Processor {
    var y: Layout
    var f: Flags

    constructor (uninitialised: bool)
      ensures y == Layout(0, [], []) && f == CLEAR.(illegalDevice := uninitialised)
    {
      y, f := Layout(0, [], []), CLEAR.(illegalDevice := uninitialised);
    }

    method IsInside(regions: seq<Region>, addr: nat) returns (b: bool)
      ensures b <==> Inside(regions, addr)
    {
      for i := 0 to |regions|
        invariant !InCode(regions, i, addr)
      {
        if regions[i].first <= addr < regions[i].second {
          InCodeIff(regions, |regions|, addr);
          return true;
        }
      }
      return false;
    }

    method JumpHook(pc: nat, newpc: nat)
      requires y.codeRegions != []
      modifies this`f
      ensures f == AfterJump(y, old(f), pc, newpc)
    {
      if pc < y.codeRegions[0].first {
        return;
      }
      var inside := IsInside(y.codeRegions, newpc);
      if !inside {
        f := f.(jumpPc := newpc, jumpKind := OUTSIDE_VALID_MEM, illegalJump := true);
      }
      if (newpc >= pc && newpc < (pc + 8) % TWO64) || (newpc < pc && newpc > (pc + TWO64 - 8) % TWO64) {
        f := f.(jumpPc := newpc, jumpKind := NEWPC_TOO_NEAR, illegalJump := true);
      }
      if newpc % 4 != 0 {
        f := f.(jumpPc := newpc, jumpKind := NEWPC_UNALIGNED, illegalJump := true);
      }
    }

    method StoreHook(pc: nat, addr: nat)
      requires y.codeRegions != []
      modifies this`f
      ensures f == After(y, old(f), Store(pc, addr))
    {
      if pc < y.initEnd {
        return;
      }
      var inside := IsInside(y.codeRegions, addr);
      if inside {
        f := f.(selfModifying := true);
      }
      inside := IsInside(y.forbidden, addr);
      if inside {
        f := f.(accessedForbidden := true);
      }
    }

    method LoadHook(pc: nat, addr: nat)
      requires y.codeRegions != []
      modifies this`f
      ensures f == After(y, old(f), Load(pc, addr))
    {
      if pc < y.initEnd {
        return;
      }
      var inside := IsInside(y.forbidden, addr);
      if inside {
        f := f.(accessedForbidden := true);
      }
    }

    method TrapHook(illegal: bool, mtvec: nat)
      requires y.codeRegions != []
      modifies this`f
      ensures f == After(y, old(f), Trap(illegal, mtvec))
    {
      f := f.(trap := true);
      if illegal {
        f := f.(illegalInst := true);
      }
      if mtvec == 0 {
        f := f.(unhandledTrap := true);
      }
    }
  }

  /** The near test means "less than eight bytes away" exactly where its sums do not wrap. */
  lemma TooNearIffWithinEight(pc: nat)
    requires pc < TWO64
    ensures (forall newpc: nat :: newpc < TWO64 ==> (TooNear(pc, newpc) <==> -8 < newpc - pc < 8))
            <==> (pc == 0 || 8 <= pc) && pc + 8 < TWO64
  {
    if pc + 8 >= TWO64 {
      assert !TooNear(pc, pc);
    } else if 0 < pc < 8 {
      assert !TooNear(pc, pc - 1);
    }
  }

  /** Where the near test means what it says, a jump of a program past the boot code is legal exactly when
      its target lies in a code region, is aligned, and is at least eight bytes away. */
  lemma LegalJumpIff(y: Layout, pc: nat, newpc: nat)
    requires y.codeRegions != [] && y.codeRegions[0].first <= pc && newpc < TWO64
    requires (pc == 0 || 8 <= pc) && pc + 8 < TWO64
    ensures LegalJump(y, pc, newpc) <==>
            && (exists i :: 0 <= i < |y.codeRegions| && y.codeRegions[i].first <= newpc < y.codeRegions[i].second)
            && newpc % 4 == 0 && (newpc + 8 <= pc || pc + 8 <= newpc)
  {
    InCodeIff(y.codeRegions, |y.codeRegions|, newpc);
    TooNearIffWithinEight(pc);
  }

  /** What an illegal jump is called: of several objections the last one tested, and for want of others that
      its target lies outside the code. */
  lemma IllegalJumpNamed(y: Layout, f: Flags, pc: nat, newpc: nat)
    requires y.codeRegions != [] && !LegalJump(y, pc, newpc)
    ensures var f' := AfterJump(y, f, pc, newpc);
            && f'.illegalJump && f'.jumpPc == newpc
            && (f'.jumpKind == NEWPC_UNALIGNED <==> newpc % 4 != 0)
            && (f'.jumpKind == NEWPC_TOO_NEAR <==> newpc % 4 == 0 && TooNear(pc, newpc))
            && (f'.jumpKind == OUTSIDE_VALID_MEM <==> newpc % 4 == 0 && !TooNear(pc, newpc))
            && (f'.jumpKind == OUTSIDE_VALID_MEM ==> !Inside(y.codeRegions, newpc))
  {}

  // ------------------------------------------------------------------ recorders

  /** What both recorders hold, and the MMIO accesses made, as address and length. */
  datatype Records = Records(fetch: R.FetchRecord, mem: R.MemRecord, mmio: seq<(nat, nat)>)

  const NO_RECORDS := Records(R.FetchAll([]), R.RecordAll([]), [])

  /** Recorders hear of memory accesses when they are attached to the processor; MMIO accesses to
      physical addresses are always noted. */
  function Noted(attached: bool, r: Records, e: Event): Records {
    match e
    case Access(addr, n, kind) =>
      if !attached then r
      else if kind == R.FETCH then r.(fetch := R.Fetched(r.fetch, addr, n)) else r.(mem := R.Recorded(r.mem, addr, n, kind))
    case Mmio(_, physical, addr, n) => if physical then r.(mmio := r.mmio + [(addr, n)]) else r
    case _ => r
  }

  function MmioBytes(mmio: seq<(nat, nat)>): set<nat> {
    if mmio == [] then {} else MmioBytes(mmio[..|mmio| - 1]) + R.Span(mmio[|mmio| - 1].0, mmio[|mmio| - 1].1)
  }

  /** Loads recorded, with the bytes of every MMIO access added. */
  function AccessedMem(loads: set<nat>, mmio: set<nat>): set<nat> {
    loads + mmio
  }

  /** Boot code lies outside the RAM and is left out. */
  function ExecutedInsts(fetches: set<nat>, memBase: nat, memSize: nat): set<nat> {
    set a | a in fetches && memBase <= a < memBase + memSize
  }

  // ------------------------------------------------------------------ whole runs

  /** One processor step: what happens in it, and whether the processor waits for an interrupt after it. */
  datatype Step = Step(events: seq<Event>, wfi: bool)

  type Trace = nat -> Step

  /** All that determines a run: where code lies, the flags and records it starts from, whether recorders
      are attached, and what the program does. */
  datatype Setting = Setting(y: Layout, f: Flags, attached: bool, r: Records, tr: Trace)

  function EventsUpTo(tr: Trace, k: nat): seq<Event> {
    if k == 0 then [] else EventsUpTo(tr, k - 1) + tr(k - 1).events
  }

  ghost function AfterAll(y: Layout, f: Flags, es: seq<Event>): Flags
    requires y.codeRegions != []
  {
    if es == [] then f else After(y, AfterAll(y, f, es[..|es| - 1]), es[|es| - 1])
  }

  function AllNoted(attached: bool, r: Records, es: seq<Event>): Records {
    if es == [] then r else Noted(attached, AllNoted(attached, r, es[..|es| - 1]), es[|es| - 1])
  }

  /** The flags after k steps. */
  ghost function FlagsAt(g: Setting, k: nat): Flags
    requires g.y.codeRegions != []
  {
    AfterAll(g.y, g.f, EventsUpTo(g.tr, k))
  }

  function RecordsAt(g: Setting, k: nat): Records {
    AllNoted(g.attached, g.r, EventsUpTo(g.tr, k))
  }

  ghost predicate EarlyExit(g: Setting, k: nat)
    requires g.y.codeRegions != [] && k > 0
  {
    FlagsAt(g, k).illegalInst || FlagsAt(g, k).unhandledTrap || g.tr(k - 1).wfi || RecordsAt(g, k).fetch.stuck
  }

  ghost predicate Discard(g: Setting, checkJumps: bool, k: nat)
    requires g.y.codeRegions != []
  {
    var f := FlagsAt(g, k);
    (f.illegalJump && checkJumps) || f.selfModifying || f.illegalDevice || f.accessedForbidden
  }

  /** Step k is reached and passed without leaving the loop. */
  ghost predicate Passed(g: Setting, filters: bool, checkJumps: bool, k: nat)
    requires g.y.codeRegions != [] && k > 0
  {
    !EarlyExit(g, k) && !(filters && Discard(g, checkJumps, k))
  }

  ghost predicate AllPassed(g: Setting, filters: bool, checkJumps: bool, k: nat)
    requires g.y.codeRegions != []
  {
    forall j :: 0 < j <= k ==> Passed(g, filters, checkJumps, j)
  }

  /** What a run returns: 0 exactly when nothing may run, or when a discard is seen at a step with no early
      exit there or before; otherwise the step of the early exit, or the limit. */
  ghost predicate IsResult(g: Setting, filters: bool, checkJumps: bool, maxCycles: nat, ticks: nat)
    requires g.y.codeRegions != []
  {
    && (ticks == 0 <==>
        maxCycles == 0 ||
        (filters && exists k :: 0 < k <= maxCycles && Discard(g, checkJumps, k) && forall j :: 0 < j <= k ==> !EarlyExit(g, j)))
    && (ticks > 0 ==>
        && ticks <= maxCycles && AllPassed(g, filters, checkJumps, ticks - 1)
        && (EarlyExit(g, ticks) || (ticks == maxCycles && Passed(g, filters, checkJumps, ticks))))
  }

  lemma EndedEarly(g: Setting, filters: bool, checkJumps: bool, maxCycles: nat, k: nat)
    requires g.y.codeRegions != [] && 0 < k <= maxCycles && AllPassed(g, filters, checkJumps, k - 1) && EarlyExit(g, k)
    ensures IsResult(g, filters, checkJumps, maxCycles, k)
  {
    forall j | 0 < j < k ensures !EarlyExit(g, j) && !(filters && Discard(g, checkJumps, j)) {
      assert Passed(g, filters, checkJumps, j);
    }
  }

  lemma Discarded(g: Setting, checkJumps: bool, maxCycles: nat, k: nat)
    requires g.y.codeRegions != [] && 0 < k <= maxCycles && AllPassed(g, true, checkJumps, k - 1)
    requires !EarlyExit(g, k) && Discard(g, checkJumps, k)
    ensures IsResult(g, true, checkJumps, maxCycles, 0)
  {
    forall j | 0 < j < k ensures !EarlyExit(g, j) {
      assert Passed(g, true, checkJumps, j);
    }
  }

  lemma RanToTheEnd(g: Setting, filters: bool, checkJumps: bool, maxCycles: nat)
    requires g.y.codeRegions != [] && AllPassed(g, filters, checkJumps, maxCycles)
    ensures IsResult(g, filters, checkJumps, maxCycles, maxCycles)
  {
    forall j | 0 < j <= maxCycles ensures !EarlyExit(g, j) && !(filters && Discard(g, checkJumps, j)) {
      assert Passed(g, filters, checkJumps, j);
    }
  }

  /** The result is determined by the run. */
  lemma ResultUnique(g: Setting, filters: bool, checkJumps: bool, maxCycles: nat, t: nat, t': nat)
    requires g.y.codeRegions != []
    requires IsResult(g, filters, checkJumps, maxCycles, t) && IsResult(g, filters, checkJumps, maxCycles, t')
    ensures t == t'
  {
    if t > 0 && t' > 0 {
      assert Passed(g, filters, checkJumps, t) ==> !EarlyExit(g, t);
      assert Passed(g, filters, checkJumps, t') ==> !EarlyExit(g, t');
    }
  }

  // ------------------------------------------------------------------ the object

  class ArchSim {
    const memBase: nat
    const filtersEnabled: bool
    const discardIllegalJumps: bool
    const mem: R.FileMem
    const fetchRecorder: R.FetchRecorder
    const memRecorder: R.MemRecorder
    var proc: Processor
    var attached: bool
    var mmio: seq<(nat, nat)>

    ghost function Recs(): Records
      reads this, fetchRecorder, memRecorder
    {
      Records(fetchRecorder.Abs(), memRecorder.Abs(), mmio)
    }

    /** The run that starts here. */
    ghost function Here(tr: Trace): Setting
      reads this, proc, fetchRecorder, memRecorder
    {
      Setting(proc.y, proc.f, attached, Recs(), tr)
    }

    /** The device flag starts as whatever stands in memory. */
    constructor (memBase: nat, memSize: nat, recordAddresses: bool, filtersEnabled: bool, discardIllegalJumps: bool,
                 uninitialised: bool)
      ensures fresh(proc) && fresh(mem) && fresh(mem.mem) && fresh(fetchRecorder) && fresh(memRecorder)
      ensures this.memBase == memBase && mem.mem.Length == memSize
      ensures this.filtersEnabled == filtersEnabled && this.discardIllegalJumps == discardIllegalJumps
      ensures proc.y == Layout(0, [], []) && proc.f == CLEAR.(illegalDevice := uninitialised)
      ensures attached == recordAddresses && Recs() == NO_RECORDS
    {
      this.memBase, this.filtersEnabled, this.discardIllegalJumps := memBase, filtersEnabled, discardIllegalJumps;
      mem := new R.FileMem(memSize);
      fetchRecorder := new R.FetchRecorder();
      memRecorder := new R.MemRecorder();
      mmio := [];
      proc := new Processor(uninitialised);
      attached := recordAddresses;
    }

    /** The reset replaces the processor and does not attach the recorders to the new one; nor does it
        clear the fetch recorder's repeat counter and verdict. */
    method Reset()
      modifies this`proc, this`attached, this`mmio, fetchRecorder, memRecorder
      ensures fresh(proc) && proc.y == Layout(0, [], []) && proc.f == CLEAR && !attached
      ensures Recs() == NO_RECORDS.(fetch := old(fetchRecorder.Abs()).(fetches := {}))
    {
      proc := new Processor(false);
      attached := false;
      fetchRecorder.Reset();
      memRecorder.Reset();
      mmio := [];
    }

    method SetForbiddenRegion(start: nat, end: nat)
      modifies proc`y
      ensures proc.y == old(proc.y).(forbidden := old(proc.y).forbidden + [Region(start, end)])
    {
      proc.y := proc.y.(forbidden := proc.y.forbidden + [Region(start, end)]);
    }

    method LoadProgram(buf: Option<seq<Byte>>, codeRegions: seq<Region>, initSize: nat)
      modifies proc`y, mem.mem
      ensures proc.y == old(proc.y).(codeRegions := codeRegions, initEnd := memBase + initSize)
      ensures forall k :: 0 <= k < mem.mem.Length ==> mem.mem[k] == if k < |buf.GetOr([])| then buf.GetOr([])[k] else old(mem.mem[k])
    {
      var _ := mem.LoadProgram(buf);
      proc.y := proc.y.(codeRegions := codeRegions, initEnd := memBase + initSize);
    }

    /** One event: the hook, the tracers or the device it concerns. */
    method Observe(e: Event)
      requires proc.y.codeRegions != []
      modifies proc`f, this`mmio, fetchRecorder, memRecorder
      ensures proc.f == After(proc.y, old(proc.f), e)
      ensures Recs() == Noted(attached, old(Recs()), e)
    {
      match e
      case Jump(pc, newpc) => proc.JumpHook(pc, newpc);
      case Store(pc, addr) => proc.StoreHook(pc, addr);
      case Load(pc, addr) => proc.LoadHook(pc, addr);
      case Trap(illegal, mtvec) => proc.TrapHook(illegal, mtvec);
      case Mmio(allowed, physical, addr, n) =>
        proc.f := proc.f.(illegalDevice := !allowed);
        if physical {
          mmio := mmio + [(addr, n)];
        }
      case Access(addr, n, kind) =>
        if attached {
          fetchRecorder.Trace(addr, n, kind);
          memRecorder.Trace(addr, n, kind);
        }
    }

    /** The events of one step, on top of those before it. */
    method StepOnce(events: seq<Event>, ghost before: seq<Event>, ghost g: Setting)
      requires g.y == proc.y && g.attached == attached && g.y.codeRegions != []
      requires proc.f == AfterAll(g.y, g.f, before) && Recs() == AllNoted(g.attached, g.r, before)
      modifies proc`f, this`mmio, fetchRecorder, memRecorder
      ensures proc.f == AfterAll(g.y, g.f, before + events) && Recs() == AllNoted(g.attached, g.r, before + events)
    {
      assert before + events[..0] == before;
      for i := 0 to |events|
        invariant proc.f == AfterAll(g.y, g.f, before + events[..i])
        invariant Recs() == AllNoted(g.attached, g.r, before + events[..i])
      {
        var seen := before + events[..i + 1];
        assert seen[..|seen| - 1] == before + events[..i];
        Observe(events[i]);
      }
      assert before + events[..|events|] == before + events;
    }

    /** Run until max_cycles or an early exit; 0 means the program is discarded. */
    method Run(tr: Trace, maxCycles: nat) returns (ticks: nat, ghost steps: nat)
      requires proc.y.codeRegions != []
      modifies proc`f, this`mmio, fetchRecorder, memRecorder
      ensures IsResult(old(Here(tr)), filtersEnabled, discardIllegalJumps, maxCycles, ticks)
      ensures ticks > 0 ==> steps == ticks
      ensures proc.f == FlagsAt(old(Here(tr)), steps) && Recs() == RecordsAt(old(Here(tr)), steps)
    {
      ghost var g := Here(tr);
      var tick := 0;
      steps := 0;
      while tick < maxCycles
        invariant tick == steps <= maxCycles
        invariant proc.f == FlagsAt(g, tick) && Recs() == RecordsAt(g, tick)
        invariant AllPassed(g, filtersEnabled, discardIllegalJumps, tick)
      {
        var step := tr(tick);
        StepOnce(step.events, EventsUpTo(tr, tick), g);
        tick := tick + 1;
        steps := tick;
        if proc.f.illegalInst || proc.f.unhandledTrap || step.wfi || fetchRecorder.stuck {
          EndedEarly(g, filtersEnabled, discardIllegalJumps, maxCycles, tick);
          return tick, steps;
        }
        var discard := (proc.f.illegalJump && discardIllegalJumps) || proc.f.selfModifying || proc.f.illegalDevice
                       || proc.f.accessedForbidden;
        if filtersEnabled && discard {
          Discarded(g, discardIllegalJumps, maxCycles, tick);
          return 0, steps;
        }
      }
      RanToTheEnd(g, filtersEnabled, discardIllegalJumps, maxCycles);
      return tick, steps;
    }

    /** Collecting the addresses drains the recorder. */
    method GetAccessedMem() returns (addresses: set<nat>)
      modifies memRecorder`loads
      ensures addresses == AccessedMem(old(memRecorder.loads), MmioBytes(mmio)) && memRecorder.loads == {}
    {
      addresses := memRecorder.loads;
      memRecorder.loads := {};
      for i := 0 to |mmio|
        invariant addresses == old(memRecorder.loads) + MmioBytes(mmio[..i]) && memRecorder.loads == {}
      {
        var (addr, size) := mmio[i];
        assert mmio[..i + 1][..i] == mmio[..i];
        for j := 0 to size
          invariant addresses == old(memRecorder.loads) + MmioBytes(mmio[..i]) + R.Span(addr, j) && memRecorder.loads == {}
        {
          R.SpanNext(addr, j);
          addresses := addresses + {R.At(addr, j)};
        }
      }
      assert mmio[..|mmio|] == mmio;
    }

    method GetExecutedInsts() returns (addresses: set<nat>)
      ensures addresses == ExecutedInsts(fetchRecorder.fetches, memBase, mem.mem.Length)
    {
      addresses := {};
      var rest := fetchRecorder.fetches;
      while rest != {}
        invariant rest <= fetchRecorder.fetches
        invariant addresses == ExecutedInsts(fetchRecorder.fetches - rest, memBase, mem.mem.Length)
      {
        var addr :| addr in rest;
        rest := rest - {addr};
        if addr < memBase || addr >= memBase + mem.mem.Length {
          continue;
        }
        addresses := addresses + {addr};
      }
      assert fetchRecorder.fetches - rest == fetchRecorder.fetches;
    }
  }

  // ------------------------------------------------------------------ what the flags tell

  datatype Sticky = ILLEGAL_JUMP | SELF_MODIFYING | FORBIDDEN | ILLEGAL_INST | UNHANDLED_TRAP | TRAP

  predicate Holds(f: Flags, flag: Sticky) {
    match flag
    case ILLEGAL_JUMP => f.illegalJump
    case SELF_MODIFYING => f.selfModifying
    case FORBIDDEN => f.accessedForbidden
    case ILLEGAL_INST => f.illegalInst
    case UNHANDLED_TRAP => f.unhandledTrap
    case TRAP => f.trap
  }

  /** The events each flag stands for. */
  ghost predicate Raises(y: Layout, flag: Sticky, e: Event)
    requires y.codeRegions != []
  {
    match flag
    case ILLEGAL_JUMP => e.Jump? && !LegalJump(y, e.pc, e.newpc)
    case SELF_MODIFYING => e.Store? && e.pc >= y.initEnd && Inside(y.codeRegions, e.addr)
    case FORBIDDEN => (e.Store? || e.Load?) && e.pc >= y.initEnd && Inside(y.forbidden, e.addr)
    case ILLEGAL_INST => e.Trap? && e.illegal
    case UNHANDLED_TRAP => e.Trap? && e.mtvec == 0
    case TRAP => e.Trap?
  }

  ghost predicate Occurs(tr: Trace, k: nat, e: Event) {
    e in EventsUpTo(tr, k)
  }

  /** Has one of the events raised the flag? */
  ghost predicate Raised(y: Layout, flag: Sticky, es: seq<Event>)
    requires y.codeRegions != []
  {
    exists e :: e in es && Raises(y, flag, e)
  }

  /** Each sticky flag holds exactly when it held at the start or an event it stands for has occurred. */
  lemma FlagsRemember(g: Setting, k: nat, flag: Sticky)
    requires g.y.codeRegions != []
    ensures Holds(FlagsAt(g, k), flag) <==> Holds(g.f, flag) || exists e :: Occurs(g.tr, k, e) && Raises(g.y, flag, e)
  {
    AfterAllRemembers(g.y, g.f, EventsUpTo(g.tr, k), flag);
  }

  lemma OneEvent(y: Layout, f: Flags, e: Event, flag: Sticky)
    requires y.codeRegions != []
    ensures Holds(After(y, f, e), flag) <==> Holds(f, flag) || Raises(y, flag, e)
  {}

  lemma RaisedNext(y: Layout, flag: Sticky, es: seq<Event>)
    requires y.codeRegions != [] && es != []
    ensures Raised(y, flag, es) <==> Raised(y, flag, es[..|es| - 1]) || Raises(y, flag, es[|es| - 1])
  {
    var init, last := es[..|es| - 1], es[|es| - 1];
    assert es == init + [last] && last in es;
  }

  lemma {:induction false} AfterAllRemembers(y: Layout, f: Flags, es: seq<Event>, flag: Sticky)
    requires y.codeRegions != []
    ensures Holds(AfterAll(y, f, es), flag) <==> Holds(f, flag) || Raised(y, flag, es)
  {
    if es != [] {
      var init, last := es[..|es| - 1], es[|es| - 1];
      AfterAllRemembers(y, f, init, flag);
      OneEvent(y, AfterAll(y, f, init), last, flag);
      RaisedNext(y, flag, es);
    }
  }

  /** The device flag is not sticky: it tells of the last MMIO access only, so a disallowed access is
      lost when an allowed one follows before the flag is looked at. */
  lemma {:induction false} DeviceFlagIsLastAccess(y: Layout, f: Flags, es: seq<Event>)
    requires y.codeRegions != []
    ensures (forall j :: 0 <= j < |es| ==> !es[j].Mmio?) ==> AfterAll(y, f, es).illegalDevice == f.illegalDevice
    ensures forall i :: 0 <= i < |es| && LastMmio(es, i) ==> AfterAll(y, f, es).illegalDevice == !es[i].allowed
  {
    if es != [] {
      var init := es[..|es| - 1];
      DeviceFlagIsLastAccess(y, f, init);
      forall i | 0 <= i < |init| && LastMmio(es, i) ensures LastMmio(init, i) && !es[|es| - 1].Mmio? {}
    }
  }

  ghost predicate LastMmio(es: seq<Event>, i: nat) {
    i < |es| && es[i].Mmio? && forall j :: i < j < |es| ==> !es[j].Mmio?
  }

  /** Is the event one a filter objects to, whatever comes after it? */
  ghost predicate Objectionable(y: Layout, e: Event)
    requires y.codeRegions != []
  {
    Raises(y, ILLEGAL_JUMP, e) || Raises(y, SELF_MODIFYING, e) || Raises(y, FORBIDDEN, e)
  }

  /** In a run kept with all filters on, no step but an early exit at the very end saw a jump outside
      the code, too near or unaligned, a store into the code after the initialisation, or an access to
      forbidden memory; and at the end of every step the last device access so far was an allowed one. */
  lemma KeptRunIsClean(g: Setting, k: nat)
    requires g.y.codeRegions != [] && k > 0 && Passed(g, true, true, k)
    ensures forall e :: Occurs(g.tr, k, e) ==> !Objectionable(g.y, e)
    ensures var es := EventsUpTo(g.tr, k);
            (forall j :: 0 <= j < |es| ==> !es[j].Mmio?) || exists i :: 0 <= i < |es| && LastMmio(es, i) && es[i].allowed
  {
    FlagsRemember(g, k, ILLEGAL_JUMP);
    FlagsRemember(g, k, SELF_MODIFYING);
    FlagsRemember(g, k, FORBIDDEN);
    var es := EventsUpTo(g.tr, k);
    DeviceFlagIsLastAccess(g.y, g.f, es);
    if i :| 0 <= i < |es| && es[i].Mmio? {
      LastMmioExists(es, i);
    }
  }

  lemma {:induction false} LastMmioExists(es: seq<Event>, i: nat)
    requires i < |es| && es[i].Mmio?
    ensures exists k :: 0 <= k < |es| && LastMmio(es, k)
    decreases |es| - i
  {
    if !LastMmio(es, i) {
      var j :| i < j < |es| && es[j].Mmio?;
      LastMmioExists(es, j);
    }
  }

  /** When a run from clear flags is to be discarded, by its events. */
  lemma DiscardIff(g: Setting, checkJumps: bool, k: nat)
    requires g.y.codeRegions != [] && g.f == CLEAR
    ensures var es := EventsUpTo(g.tr, k);
            Discard(g, checkJumps, k) <==>
            || (checkJumps && Raised(g.y, ILLEGAL_JUMP, es))
            || Raised(g.y, SELF_MODIFYING, es) || Raised(g.y, FORBIDDEN, es)
            || exists i :: 0 <= i < |es| && LastMmio(es, i) && !es[i].allowed
  {
    var es := EventsUpTo(g.tr, k);
    AfterAllRemembers(g.y, g.f, es, ILLEGAL_JUMP);
    AfterAllRemembers(g.y, g.f, es, SELF_MODIFYING);
    AfterAllRemembers(g.y, g.f, es, FORBIDDEN);
    DeviceFlagIsLastAccess(g.y, g.f, es);
    if i :| 0 <= i < |es| && es[i].Mmio? {
      LastMmioExists(es, i);
    }
  }

  /** The simulator never initialises the device flag. Left set, it discards every program whose first
      step neither ends the run nor accesses a device. */
  lemma UninitialisedFlagDiscards(g: Setting, checkJumps: bool)
    requires g.y.codeRegions != [] && g.f.illegalDevice && forall e :: e in g.tr(0).events ==> !e.Mmio?
    ensures Discard(g, checkJumps, 1)
  {
    assert EventsUpTo(g.tr, 0) == [];
    var es := EventsUpTo(g.tr, 1);
    assert es == g.tr(0).events;
    DeviceFlagIsLastAccess(g.y, g.f, es);
  }

  /** A store of n bytes writes into the code. */
  ghost predicate WritesCode(regions: seq<Region>, addr: nat, n: nat) {
    exists a: nat :: addr <= a < addr + n && Inside(regions, a)
  }

  /** The store hook looks at a store's first byte only. It sees the store whenever one into the code is made
      if and only if the first byte is in the code or no region starts at a later byte. */
  lemma StoreStartSuffices(regions: seq<Region>, addr: nat, n: nat)
    requires n > 0 && forall i :: 0 <= i < |regions| ==> regions[i].first < regions[i].second
    ensures (WritesCode(regions, addr, n) ==> Inside(regions, addr)) <==>
            Inside(regions, addr) || forall i :: 0 <= i < |regions| ==> !(addr < regions[i].first < addr + n)
  {
    InCodeIff(regions, |regions|, addr);
    if WritesCode(regions, addr, n) {
      var a: nat :| addr <= a < addr + n && Inside(regions, a);
      InCodeIff(regions, |regions|, a);
    }
    forall i | 0 <= i < |regions| && addr < regions[i].first < addr + n ensures WritesCode(regions, addr, n) {
      InCodeIff(regions, |regions|, regions[i].first);
      assert Inside(regions, regions[i].first);
    }
  }

  /** Hence a kept run has no store into the code at all, where no region starts in the middle of a store. */
  lemma KeptStoresMissCode(g: Setting, k: nat, e: Event, n: nat)
    requires g.y.codeRegions != [] && k > 0 && Passed(g, true, true, k)
    requires Occurs(g.tr, k, e) && e.Store? && e.pc >= g.y.initEnd && n > 0
    requires forall i :: 0 <= i < |g.y.codeRegions| ==> g.y.codeRegions[i].first < g.y.codeRegions[i].second
    ensures WritesCode(g.y.codeRegions, e.addr, n) <==>
            exists i :: 0 <= i < |g.y.codeRegions| && e.addr < g.y.codeRegions[i].first < e.addr + n
  {
    KeptRunIsClean(g, k);
    assert !Raises(g.y, SELF_MODIFYING, e);
    StoreStartSuffices(g.y.codeRegions, e.addr, n);
  }

  // ------------------------------------------------------------------ what the records tell

  /** The loads and stores among the events; the values stored do not matter to the recorders. */
  function Ops(es: seq<Event>): seq<R.MemOp> {
    if es == [] then []
    else
      var init, e := Ops(es[..|es| - 1]), es[|es| - 1];
      if e.Access? && e.kind == R.LOAD then init + [R.Load(e.addr, e.n)]
      else if e.Access? && e.kind == R.STORE then init + [R.Store(e.addr, seq(e.n, _ => 0))]
      else init
  }

  /** The fetches among them. */
  function Fetches(es: seq<Event>): seq<(nat, nat)> {
    if es == [] then []
    else
      var init, e := Fetches(es[..|es| - 1]), es[|es| - 1];
      if e.Access? && e.kind == R.FETCH then init + [(e.addr, e.n)] else init
  }

  lemma {:induction false} NotedIsRecorded(es: seq<Event>)
    ensures AllNoted(true, NO_RECORDS, es).mem == R.RecordAll(Ops(es))
    ensures AllNoted(true, NO_RECORDS, es).fetch == R.FetchAll(Fetches(es))
  {
    if es != [] {
      var init, e := es[..|es| - 1], es[|es| - 1];
      NotedIsRecorded(init);
      if e.Access? {
        match e.kind
        case LOAD => RecordNext(Ops(init), R.Load(e.addr, e.n));
        case STORE => RecordNext(Ops(init), R.Store(e.addr, seq(e.n, _ => 0)));
        case FETCH => FetchNext(Fetches(init), e.addr, e.n);
      }
    }
  }

  lemma RecordNext(ops: seq<R.MemOp>, op: R.MemOp)
    ensures R.RecordAll(ops + [op]) == R.RecordOp(R.RecordAll(ops), op)
  {
    assert (ops + [op])[..|ops|] == ops;
  }

  lemma FetchNext(hist: seq<(nat, nat)>, addr: nat, n: nat)
    ensures R.FetchAll(hist + [(addr, n)]) == R.Fetched(R.FetchAll(hist), addr, n)
  {
    assert (hist + [(addr, n)])[..|hist|] == hist;
  }

  /** The records of a run from a new simulator: a byte is among the loads exactly when its first access
      was a load, and the run is found stuck exactly when twelve equal fetches follow each other. */
  lemma RunRecordsAreExact(g: Setting, k: nat, b: nat)
    requires g.attached && g.r == NO_RECORDS
    ensures var es := EventsUpTo(g.tr, k);
            && (b in RecordsAt(g, k).mem.loads <==> R.FirstAccessIsLoad(Ops(es), b))
            && (RecordsAt(g, k).fetch.stuck <==> R.HasRepeat(R.FetchAddrs(Fetches(es))))
  {
    var es := EventsUpTo(g.tr, k);
    NotedIsRecorded(es);
    R.RecorderIsExact(Ops(es), b);
    R.FetchStuckIffRepeat(Fetches(es));
  }

  /** When such a run ends early: after an illegal instruction or a trap without a handler, when the processor
      waits for an interrupt, or after twelve equal fetches in a row. */
  lemma EarlyExitIff(g: Setting, k: nat)
    requires g.y.codeRegions != [] && k > 0 && g.f == CLEAR && g.attached && g.r == NO_RECORDS
    ensures var es := EventsUpTo(g.tr, k);
            EarlyExit(g, k) <==>
            || (exists e :: e in es && e.Trap? && (e.illegal || e.mtvec == 0))
            || g.tr(k - 1).wfi || R.HasRepeat(R.FetchAddrs(Fetches(es)))
  {
    var es := EventsUpTo(g.tr, k);
    AfterAllRemembers(g.y, g.f, es, ILLEGAL_INST);
    AfterAllRemembers(g.y, g.f, es, UNHANDLED_TRAP);
    assert Raised(g.y, ILLEGAL_INST, es) || Raised(g.y, UNHANDLED_TRAP, es) <==>
           exists e :: e in es && e.Trap? && (e.illegal || e.mtvec == 0);
    NotedIsRecorded(es);
    R.FetchStuckIffRepeat(Fetches(es));
  }

  /** Is the byte one of an MMIO access to a physical address? */
  predicate DeviceByte(e: Event, b: nat) {
    e.Mmio? && e.physical && R.InSpan(b, e.addr, e.n)
  }

  predicate FetchedByte(e: Event, b: nat) {
    e.Access? && e.kind == R.FETCH && R.InSpan(b, e.addr, e.n)
  }

  /** The two address lists of a run from a new simulator, by its events: bytes first accessed by a load
      and bytes of devices, and bytes of the RAM that were fetched. */
  lemma RunAddresses(g: Setting, k: nat, memBase: nat, memSize: nat, b: nat)
    requires g.attached && g.r == NO_RECORDS
    ensures var es, r := EventsUpTo(g.tr, k), RecordsAt(g, k);
            && (b in AccessedMem(r.mem.loads, MmioBytes(r.mmio)) <==>
                R.FirstAccessIsLoad(Ops(es), b) || exists e :: e in es && DeviceByte(e, b))
            && (b in ExecutedInsts(r.fetch.fetches, memBase, memSize) <==>
                memBase <= b < memBase + memSize && exists e :: e in es && FetchedByte(e, b))
  {
    var es := EventsUpTo(g.tr, k);
    RunRecordsAreExact(g, k, b);
    NotedIsRecorded(es);
    DeviceBytesAre(es, b);
    R.FetchesIff(Fetches(es), b);
    FetchesAre(es, b);
  }

  lemma {:induction false} DeviceBytesAre(es: seq<Event>, b: nat)
    ensures b in MmioBytes(AllNoted(true, NO_RECORDS, es).mmio) <==> exists e :: e in es && DeviceByte(e, b)
  {
    if es != [] {
      var init, e := es[..|es| - 1], es[|es| - 1];
      DeviceBytesAre(init, b);
      var before := AllNoted(true, NO_RECORDS, init).mmio;
      if e.Mmio? && e.physical {
        assert (before + [(e.addr, e.n)])[..|before|] == before;
        R.SpanIff(b, e.addr, e.n);
      }
      assert es == init + [e] && e in es;
    }
  }

  lemma {:induction false} FetchesAre(es: seq<Event>, b: nat)
    ensures (exists i :: 0 <= i < |Fetches(es)| && R.InSpan(b, Fetches(es)[i].0, Fetches(es)[i].1)) <==>
            exists e :: e in es && FetchedByte(e, b)
  {
    if es != [] {
      var init, e := es[..|es| - 1], es[|es| - 1];
      FetchesAre(init, b);
      var before, after := Fetches(init), Fetches(es);
      assert forall i :: 0 <= i < |before| ==> after[i] == before[i];
      if FetchedByte(e, b) { assert after[|before|] == (e.addr, e.n); }
      assert es == init + [e] && e in es;
    }
  }

  /** Does the event add a byte to the MMIO accesses? */
  predicate TouchesDevice(e: Event) {
    e.Mmio? && e.physical && e.n > 0
  }

  /** After a reset the recorders hear nothing, so a run finds addresses exactly when it touches a device:
      without that, the driver drops the program, whatever memory it accessed. */
  lemma ResetRunFindsDevicesOnly(g: Setting, k: nat)
    requires !g.attached && g.r.mem.loads == {} && g.r.mmio == []
    ensures var r := RecordsAt(g, k);
            AccessedMem(r.mem.loads, MmioBytes(r.mmio)) == {} <==> forall e :: Occurs(g.tr, k, e) ==> !TouchesDevice(e)
  {
    DetachedNotes(g.r, EventsUpTo(g.tr, k));
  }

  lemma {:induction false} DetachedNotes(r: Records, es: seq<Event>)
    requires r.mmio == []
    ensures AllNoted(false, r, es).mem == r.mem && AllNoted(false, r, es).fetch == r.fetch
    ensures MmioBytes(AllNoted(false, r, es).mmio) == {} <==> forall e :: e in es ==> !TouchesDevice(e)
  {
    if es != [] {
      var init, e := es[..|es| - 1], es[|es| - 1];
      DetachedNotes(r, init);
      if e.Mmio? { MmioNext(AllNoted(false, r, init).mmio, e.addr, e.n); }
      TouchNext(es);
    }
  }

  lemma MmioNext(mmio: seq<(nat, nat)>, addr: nat, n: nat)
    ensures MmioBytes(mmio + [(addr, n)]) == {} <==> MmioBytes(mmio) == {} && n == 0
  {
    assert (mmio + [(addr, n)])[..|mmio|] == mmio;
    if n > 0 { assert R.At(addr, 0) in R.Span(addr, n); }
  }

  lemma TouchNext(es: seq<Event>)
    requires es != []
    ensures (forall e :: e in es ==> !TouchesDevice(e)) <==>
            (forall e :: e in es[..|es| - 1] ==> !TouchesDevice(e)) && !TouchesDevice(es[|es| - 1])
  {
    assert es == es[..|es| - 1] + [es[|es| - 1]] && es[|es| - 1] in es;
  }

  /** And a run that starts with the recorder's verdict from an earlier one ends after its first step. */
  lemma {:induction false} StuckStays(attached: bool, r: Records, es: seq<Event>)
    requires r.fetch.stuck
    ensures AllNoted(attached, r, es).fetch.stuck
  {
    if es != [] { StuckStays(attached, r, es[..|es| - 1]); }
  }

  // ------------------------------------------------------------------ results

  ghost predicate Ascending(a: seq<nat>) {
    forall i, j :: 0 <= i < j < |a| ==> a[i] < a[j]
  }

  /** An ordered set copied into a result array: ordered and unique. */
  method ToArray(s: set<nat>) returns (a: array<nat>)
    ensures fresh(a) && a.Length == |s| && Ascending(a[..]) && forall x :: x in a[..] <==> x in s
  {
    a := new nat[|s|];
    var rest, index := s, 0;
    while rest != {}
      invariant index + |rest| == a.Length && rest <= s
      invariant Ascending(a[..index]) && forall x :: x in a[..index] <==> x in s - rest
      invariant forall i, x :: 0 <= i < index && x in rest ==> a[i] < x
      decreases |rest|
    {
      var least := Least(rest);
      a[index] := least;
      assert a[..index + 1] == a[..index] + [least];
      rest, index := rest - {least}, index + 1;
    }
    assert a[..index] == a[..];
  }

  method Least(s: set<nat>) returns (least: nat)
    requires s != {}
    ensures least in s && forall x :: x in s ==> least <= x
  {
    least :| least in s;
    var rest := s - {least};
    while rest != {}
      invariant rest <= s && least in s
      invariant forall x :: x in s && x !in rest ==> least <= x
      decreases |rest|
    {
      var x :| x in rest;
      if x < least { least := x; }
      rest := rest - {x};
    }
  }

  /** The whole architectural run. A discarded program has no results; nor has one that is kept but
      records no access to data, which the driver therefore drops as well. */
  method RunSpikeSim(sim: ArchSim, program: Option<seq<Byte>>, maxCycles: nat, codeRegions: seq<Region>, initSize: nat, tr: Trace)
    returns (numRetired: nat, addrs: seq<nat>, insts: seq<nat>)
    requires codeRegions != []
    modifies sim.proc, sim`mmio, sim.mem.mem, sim.fetchRecorder, sim.memRecorder
    ensures var y := old(sim.proc.y).(codeRegions := codeRegions, initEnd := sim.memBase + initSize);
            var g := old(sim.Here(tr)).(y := y);
            var r := RecordsAt(g, numRetired);
            && sim.proc.y == y
            && IsResult(g, sim.filtersEnabled, sim.discardIllegalJumps, maxCycles, numRetired)
            && (numRetired == 0 ==> addrs == [] && insts == [])
            && (numRetired > 0 ==>
                && Ascending(addrs) && (forall a :: a in addrs <==> a in AccessedMem(r.mem.loads, MmioBytes(r.mmio)))
                && Ascending(insts) && (forall a :: a in insts <==> a in ExecutedInsts(r.fetch.fetches, sim.memBase, sim.mem.mem.Length)))
            && (addrs == [] <==> numRetired == 0 || AccessedMem(r.mem.loads, MmioBytes(r.mmio)) == {})
  {
    sim.LoadProgram(program, codeRegions, initSize);
    ghost var g := sim.Here(tr);
    ghost var steps;
    numRetired, steps := sim.Run(tr, maxCycles);
    if numRetired == 0 {
      return numRetired, [], [];
    }
    ghost var r := RecordsAt(g, numRetired);
    var accessed := sim.GetAccessedMem();
    var executed := sim.GetExecutedInsts();
    var a := ToArray(accessed);
    var b := ToArray(executed);
    addrs, insts := a[..], b[..];
    if addrs == [] {
      assert forall x :: x in accessed ==> x in addrs;
    }
  }
}
