/**
 The claim the set-up rests on: bytes left tainted after it cannot influence the architectural run.

 A program is any deterministic machine whose next access may depend on everything it has fetched and
 loaded so far; the two recorders watch it run over a flat memory.
 */
module SecretInference {
  import opened Bits
  import opened Repeats
  import opened Recorders
  import Simulator
  import ArchSim

  datatype Action = Fetch(addr: nat, n: nat) | Load(addr: nat, n: nat) | Store(addr: nat, data: seq<Byte>) | Halt

  /** What the machine learns from an action: the bytes read, if any. */
  type Observation = seq<Byte>

  type Program = seq<Observation> -> Action

  datatype Machine = Machine(
    overlay: Overlay, hist: seq<Observation>, actions: seq<Action>, mem: MemRecord, fetched: FetchRecord)

  function Start(): Machine {
    Machine(map[], [], [], MemRecord({}, {}), FetchRecord(Counter(0, 0), false, {}))
  }

  function Next(p: Program, img: Image, m: Machine): Machine {
    var a := p(m.hist);
    var m' := m.(actions := m.actions + [a]);
    match a
    case Fetch(addr, n) =>
      m'.(hist := m.hist + [ReadSpan(img, m.overlay, addr, n)], fetched := Fetched(m.fetched, addr, n))
    case Load(addr, n) =>
      m'.(hist := m.hist + [ReadSpan(img, m.overlay, addr, n)], mem := Recorded(m.mem, addr, n, LOAD))
    case Store(addr, data) =>
      m'.(hist := m.hist + [[]], mem := Recorded(m.mem, addr, |data|, STORE), overlay := StoreSpan(m.overlay, addr, data))
    case Halt => m
  }

  function Exec(p: Program, img: Image, steps: nat): Machine {
    if steps == 0 then Start() else Next(p, img, Exec(p, img, steps - 1))
  }

  /** The bytes the set-up takes to be public: those loaded before being stored, and all those fetched. */
  function Observed(m: Machine): set<nat> {
    m.mem.loads + m.fetched.fetches
  }

  lemma {:induction false} ExecInv(p: Program, img: Image, steps: nat)
    ensures var m := Exec(p, img, steps);
            && m.overlay.Keys == m.mem.stores
            && |m.hist| == |m.actions| <= steps
            && (!p(m.hist).Halt? ==> |m.hist| == steps)
  {
    if steps > 0 { ExecInv(p, img, steps - 1); }
  }

  /** Images that agree on what one run observed give the very same run: accesses, values read, memory
      written and both recorders, at every step. */
  lemma {:induction false} SameRun(p: Program, img: Image, img': Image, steps: nat)
    requires AgreeOn(img, img', Observed(Exec(p, img, steps)))
    ensures Exec(p, img', steps) == Exec(p, img, steps)
  {
    if steps > 0 {
      var m := Exec(p, img, steps - 1);
      ExecInv(p, img, steps - 1);
      var a := p(m.hist);
      if a.Fetch? || a.Load? {
        AgreeOnUnion(img, img', Observed(m), Span(a.addr, a.n) - m.overlay.Keys);
        SameRead(img, img', m.overlay, a.addr, a.n);
        NextObserves(p, img, m);
      }
      SameRun(p, img, img', steps - 1);
    }
  }

  /** Each step only adds to what was observed, and a read adds its bytes not yet stored to. */
  lemma NextObserves(p: Program, img: Image, m: Machine)
    requires m.overlay.Keys == m.mem.stores
    ensures Observed(m) <= Observed(Next(p, img, m))
    ensures var a := p(m.hist);
            a.Fetch? || a.Load? ==> Observed(m) + (Span(a.addr, a.n) - m.overlay.Keys) <= Observed(Next(p, img, m))
  {}

  /** No fetched byte had been stored to: the program does not modify its own code. */
  ghost predicate NotSelfModifying(m: Machine) {
    m.fetched.fetches !! m.mem.stores
  }

  /** The converse, for programs that do not modify their own code: the observed bytes are exactly those
      on which the values read depend, so no larger set of bytes is secret. */
  lemma {:induction false} ObservedIsExact(p: Program, img: Image, img': Image, steps: nat)
    requires NotSelfModifying(Exec(p, img, steps))
    ensures Exec(p, img', steps).hist == Exec(p, img, steps).hist <==> AgreeOn(img, img', Observed(Exec(p, img, steps)))
  {
    var n, n' := Exec(p, img, steps), Exec(p, img', steps);
    if AgreeOn(img, img', Observed(n)) {
      SameRun(p, img, img', steps);
    }
    if n'.hist == n.hist {
      SameHistoryAgrees(p, img, img', steps);
    }
  }

  lemma {:induction false} SameHistoryAgrees(p: Program, img: Image, img': Image, steps: nat)
    requires NotSelfModifying(Exec(p, img, steps)) && Exec(p, img', steps).hist == Exec(p, img, steps).hist
    ensures AgreeOn(img, img', Observed(Exec(p, img, steps)))
    ensures Exec(p, img', steps) == Exec(p, img, steps)
  {
    if steps > 0 {
      var m := Exec(p, img, steps - 1);
      ExecInv(p, img, steps - 1);
      HistoryPrefix(p, img, img', steps);
      NextKeeps(p, img, m);
      SameHistoryAgrees(p, img, img', steps - 1);
      assert Exec(p, img', steps) == Next(p, img', m) && Exec(p, img, steps) == Next(p, img, m);
      SameNext(p, img, img', m);
    }
  }

  /** Equal histories were equal one step earlier: a machine that has halted is too short to be mistaken
      for one that has not. */
  lemma HistoryPrefix(p: Program, img: Image, img': Image, steps: nat)
    requires steps > 0 && Exec(p, img', steps).hist == Exec(p, img, steps).hist
    ensures Exec(p, img', steps - 1).hist == Exec(p, img, steps - 1).hist
  {
    var m, m', h := Exec(p, img, steps - 1), Exec(p, img', steps - 1), Exec(p, img, steps).hist;
    ExecInv(p, img, steps - 1);
    ExecInv(p, img', steps - 1);
    HistoryGrows(p, img, m);
    HistoryGrows(p, img', m');
  }

  lemma HistoryGrows(p: Program, img: Image, m: Machine)
    ensures var h := Next(p, img, m).hist; m.hist == if p(m.hist).Halt? then h else h[..|h| - 1]
    ensures !p(m.hist).Halt? ==> |Next(p, img, m).hist| == |m.hist| + 1
  {}

  lemma NextKeeps(p: Program, img: Image, m: Machine)
    ensures NotSelfModifying(Next(p, img, m)) ==> NotSelfModifying(m)
  {}

  /** One step from the same machine: equal histories mean the images agree on what the step observed. */
  lemma SameNext(p: Program, img: Image, img': Image, m: Machine)
    requires m.overlay.Keys == m.mem.stores && NotSelfModifying(Next(p, img, m)) && AgreeOn(img, img', Observed(m))
    requires Next(p, img', m).hist == Next(p, img, m).hist
    ensures AgreeOn(img, img', Observed(Next(p, img, m))) && Next(p, img', m) == Next(p, img, m)
  {
    var a := p(m.hist);
    if a.Fetch? || a.Load? {
      assert ReadSpan(img, m.overlay, a.addr, a.n) == Next(p, img, m).hist[|m.hist|];
      assert ReadSpan(img', m.overlay, a.addr, a.n) == Next(p, img', m).hist[|m.hist|];
      SameRead(img, img', m.overlay, a.addr, a.n);
      AgreeOnUnion(img, img', Observed(m), Span(a.addr, a.n) - m.overlay.Keys);
      assert Observed(Next(p, img, m)) == Observed(m) + (Span(a.addr, a.n) - m.overlay.Keys);
    }
  }

  // ------------------------------------------------------------------ end to end

  /** DRAM contents within a fixed surrounding memory. */
  function InDram(dram: seq<Byte>, baseAddr: nat, outside: Image): Image {
    (a: nat) => if baseAddr <= a < baseAddr + |dram| then dram[a - baseAddr] else outside(a)
  }

  /** The two address lists handed to the set-up, in any order: the DRAM bytes fetched, and the bytes
      loaded together with those of any MMIO access. */
  ghost predicate ArchAddresses(m: Machine, baseAddr: nat, memSize: nat, mmio: set<nat>, insts: seq<nat>, addrs: seq<nat>) {
    && (forall a :: a in insts <==> a in ArchSim.ExecutedInsts(m.fetched.fetches, baseAddr, memSize))
    && (forall a :: a in addrs <==> a in ArchSim.AccessedMem(m.mem.loads, mmio))
  }

  /** What the memory tracers hear of an action. */
  function Heard(a: Action): seq<ArchSim.Event> {
    match a
    case Fetch(addr, n) => [ArchSim.Access(addr, n, FETCH)]
    case Load(addr, n) => [ArchSim.Access(addr, n, LOAD)]
    case Store(addr, data) => [ArchSim.Access(addr, |data|, STORE)]
    case Halt => []
  }

  function HeardAll(actions: seq<Action>): seq<ArchSim.Event> {
    if actions == [] then [] else HeardAll(actions[..|actions| - 1]) + Heard(actions[|actions| - 1])
  }

  /** The memory accesses among the events. */
  function Accesses(es: seq<ArchSim.Event>): seq<ArchSim.Event> {
    if es == [] then []
    else
      var init, e := Accesses(es[..|es| - 1]), es[|es| - 1];
      if e.Access? then init + [e] else init
  }

  lemma NotedNext(es: seq<ArchSim.Event>, e: ArchSim.Event)
    ensures ArchSim.AllNoted(true, ArchSim.NO_RECORDS, es + [e])
            == ArchSim.Noted(true, ArchSim.AllNoted(true, ArchSim.NO_RECORDS, es), e)
  {
    assert (es + [e])[..|es|] == es;
  }

  lemma {:induction false} OnlyAccessesAreNoted(es: seq<ArchSim.Event>)
    ensures var r, r' := ArchSim.AllNoted(true, ArchSim.NO_RECORDS, es), ArchSim.AllNoted(true, ArchSim.NO_RECORDS, Accesses(es));
            r.mem == r'.mem && r.fetch == r'.fetch
  {
    if es != [] {
      var init, e := es[..|es| - 1], es[|es| - 1];
      OnlyAccessesAreNoted(init);
      if e.Access? { NotedNext(Accesses(init), e); }
    }
  }

  lemma HeardNext(actions: seq<Action>, a: Action)
    ensures HeardAll(actions + [a]) == HeardAll(actions) + Heard(a)
  {
    assert (actions + [a])[..|actions|] == actions;
  }

  /** The recorders attached to a machine are those of a simulator that hears its actions. */
  ghost predicate IsNoted(m: Machine) {
    var r := ArchSim.AllNoted(true, ArchSim.NO_RECORDS, HeardAll(m.actions));
    m.mem == r.mem && m.fetched == r.fetch
  }

  lemma ActionIsNoted(p: Program, img: Image, m: Machine, r: ArchSim.Records)
    requires m.mem == r.mem && m.fetched == r.fetch && !p(m.hist).Halt?
    ensures var m', r' := Next(p, img, m), ArchSim.Noted(true, r, Heard(p(m.hist))[0]);
            m'.actions == m.actions + [p(m.hist)] && m'.mem == r'.mem && m'.fetched == r'.fetch
  {}

  lemma StepIsNoted(p: Program, img: Image, m: Machine)
    requires IsNoted(m)
    ensures IsNoted(Next(p, img, m))
  {
    var a := p(m.hist);
    if !a.Halt? {
      var heard := HeardAll(m.actions);
      ActionIsNoted(p, img, m, ArchSim.AllNoted(true, ArchSim.NO_RECORDS, heard));
      HeardNext(m.actions, a);
      NotedNext(heard, Heard(a)[0]);
      assert heard + Heard(a) == heard + [Heard(a)[0]];
    }
  }

  lemma {:induction false} RunIsNoted(p: Program, img: Image, steps: nat)
    ensures IsNoted(Exec(p, img, steps))
  {
    if steps > 0 {
      RunIsNoted(p, img, steps - 1);
      StepIsNoted(p, img, Exec(p, img, steps - 1));
    }
  }

  /** When the tracers of a new simulator hear exactly the accesses of the program, the address lists its
      run reports are those of the program. */
  lemma ReportedAddresses(p: Program, img: Image, steps: nat, g: ArchSim.Setting, k: nat,
                          baseAddr: nat, memSize: nat, insts: seq<nat>, addrs: seq<nat>)
    requires g.attached && g.r == ArchSim.NO_RECORDS
    requires Accesses(ArchSim.EventsUpTo(g.tr, k)) == HeardAll(Exec(p, img, steps).actions)
    requires var r := ArchSim.RecordsAt(g, k);
             && (forall a :: a in insts <==> a in ArchSim.ExecutedInsts(r.fetch.fetches, baseAddr, memSize))
             && (forall a :: a in addrs <==> a in ArchSim.AccessedMem(r.mem.loads, ArchSim.MmioBytes(r.mmio)))
    ensures ArchAddresses(Exec(p, img, steps), baseAddr, memSize, ArchSim.MmioBytes(ArchSim.RecordsAt(g, k).mmio), insts, addrs)
  {
    OnlyAccessesAreNoted(ArchSim.EventsUpTo(g.tr, k));
    RunIsNoted(p, img, steps);
  }

  /** Secret inference is sound, for every deterministic program: two DRAM images that differ only in
      bytes left tainted by the set-up give the same run. */
  lemma SecretsDoNotFlow(p: Program, baseAddr: nat, dram: seq<Byte>, dram': seq<Byte>, outside: Image, steps: nat,
                         mmio: set<nat>, insts: seq<nat>, addrs: seq<nat>)
    requires |dram| == |dram'|
    requires ArchAddresses(Exec(p, InDram(dram, baseAddr, outside), steps), baseAddr, |dram|, mmio, insts, addrs)
    requires forall k :: 0 <= k < |dram| && !Simulator.Secret(baseAddr, |dram|, insts, addrs, k) ==> dram[k] == dram'[k]
    ensures Exec(p, InDram(dram', baseAddr, outside), steps) == Exec(p, InDram(dram, baseAddr, outside), steps)
  {
    var img, img' := InDram(dram, baseAddr, outside), InDram(dram', baseAddr, outside);
    var m := Exec(p, img, steps);
    forall a | a in Observed(m) ensures img(a) == img'(a) {
      if baseAddr <= a < baseAddr + |dram| {
        NotSecret(m, baseAddr, |dram|, mmio, insts, addrs, a);
      }
    }
    SameRun(p, img, img', steps);
  }

  lemma NotSecret(m: Machine, baseAddr: nat, memSize: nat, mmio: set<nat>, insts: seq<nat>, addrs: seq<nat>, a: nat)
    requires ArchAddresses(m, baseAddr, memSize, mmio, insts, addrs)
    requires a in Observed(m) && baseAddr <= a < baseAddr + memSize
    ensures !Simulator.Secret(baseAddr, memSize, insts, addrs, a - baseAddr)
  {
    Simulator.ArchGroupIff(baseAddr, memSize, insts, |insts|, a - baseAddr);
    Simulator.ArchGroupIff(baseAddr, memSize, addrs, |addrs|, a - baseAddr);
    if a in m.mem.loads {
      assert a in addrs;
    } else {
      assert a in insts;
    }
  }
}
