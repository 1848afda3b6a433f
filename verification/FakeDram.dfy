/** The registered wrapper between the AXI port and the memory: one `memory_tick` per clock, its
    results visible to the master one clock later. */
module FakeDram {
  import opened Bits
  import opened SimMemory
  import opened AxiRuns

  const ID_LIMIT := 32  // five id bits

  /** Signals driven by the bus master in one clock. */
  datatype Master = Master(
    arValid: bool, arAddr: nat, arId: nat, arSize: nat, arLen: nat,
    awValid: bool, awAddr: nat, awId: nat, awSize: nat, awLen: nat,
    wValid: bool, wStrb: nat, wData: seq<Byte>, wLast: bool,
    rReady: bool, bReady: bool)

  /** Registered outputs: what the master sees during the clock. */
  datatype Regs = Regs(arReady: bool, awReady: bool, wReady: bool,
                       rValid: bool, rId: nat, rData: seq<Byte>, rLast: bool,
                       bValid: bool, bId: nat)

  datatype Wrapper = Wrapper(regs: Regs, s: State)

  datatype Edge = Edge(reset: bool, m: Master)

  ghost predicate ValidMaster(c: Config, m: Master) {
    && m.arAddr < TWO32 && m.awAddr < TWO32
    && m.arId < ID_LIMIT && m.awId < ID_LIMIT
    && m.arLen < 256 && m.awLen < 256 && m.awSize < 8
    && |m.wData| >= c.wordSize
  }

  /** A 32-bit `int` argument widened to an unsigned 64-bit address: the same signed number. */
  function SignExtend32(a: nat): (r: nat)
    requires a < TWO32
    ensures r < TWO64
    ensures (if r < TWO64 / 2 then r else r - TWO64) == (if a < TWO31 then a else a - TWO32)
  {
    if a < TWO31 then a else a + (TWO64 - TWO32)
  }

  function BusInputs(m: Master): Inputs
    requires m.arAddr < TWO32 && m.awAddr < TWO32
  {
    Inputs(false, m.arValid, SignExtend32(m.arAddr), m.arId, m.arSize, m.arLen,
           m.awValid, SignExtend32(m.awAddr), m.awId, m.awSize, m.awLen,
           m.wValid, m.wStrb, m.wData, m.wLast, m.rReady, m.bReady)
  }

  /** The outputs of `memory_tick`, read after the tick; an empty queue shows the dummy word. */
  function Outputs(c: Config, cur: InFlightStore, readQ: seq<MemReadResponse>, respQ: seq<nat>): Regs {
    Regs(true, !cur.inFlight, cur.inFlight,
         readQ != [],
         if readQ != [] then readQ[0].id % ID_LIMIT else 0,
         if readQ != [] then readQ[0].data else seq(c.wordSize, _ => 0),
         readQ != [] && readQ[0].last,
         respQ != [],
         if respQ != [] then respQ[0] % ID_LIMIT else 0)
  }

  function Sample(c: Config, s: State): Regs {
    Outputs(c, s.cur, s.readQ, s.respQ)
  }

  ghost predicate WrapperOk(c: Config, w: Wrapper) {
    ValidConfig(c) && |w.s.mem| == c.memSize && StoreInv(w.s)
  }

  function Clock(c: Config, w: Wrapper, e: Edge): (w': Wrapper)
    requires WrapperOk(c, w) && ValidMaster(c, e.m)
    ensures WrapperOk(c, w')
  {
    if e.reset then
      w.(regs := w.regs.(arReady := false, awReady := false, wReady := false, rValid := false, bValid := false))
    else
      var s' := Step(c, w.s, BusInputs(e.m));
      Wrapper(Sample(c, s'), s')
  }

  class FakeDram {
    var regs: Regs
    const memory: SimMem

    constructor (memory: SimMem, regs: Regs)
      ensures this.memory == memory && this.regs == regs
    {
      this.memory, this.regs := memory, regs;
    }

    ghost function Abs(): Wrapper
      reads this, memory, memory.data
    {
      Wrapper(regs, memory.Abs())
    }

    /** One rising clock edge. */
    method Posedge(e: Edge)
      requires memory.Valid() && WrapperOk(memory.c, Abs()) && ValidMaster(memory.c, e.m)
      // The asserts inside the memory, as demands on the master.
      requires !e.reset && WFire(memory.Abs(), BusInputs(e.m)) ==>
                 BeatAccepted(memory.c, memory.curStore.size, e.m.wStrb)
      requires !e.reset && WFire(memory.Abs(), BusInputs(e.m)) && memory.curStore.count == 1 ==> e.m.wLast
      modifies this, memory, memory.data
      ensures memory.Valid()
      ensures Abs() == Clock(memory.c, old(Abs()), e)
    {
      if e.reset {
        regs := regs.(arReady := false, awReady := false, wReady := false, rValid := false, bValid := false);
      } else {
        memory.Tick(BusInputs(e.m));
        regs := Outputs(memory.c, memory.curStore, memory.readQueue, memory.writeRespQueue);
      }
    }
  }

  // ------------------------------------------------------------------ handshakes

  /** A channel moves inside the tick exactly when the master sees valid and ready together. */
  ghost predicate Agrees(w: Wrapper, m: Master)
    requires m.arAddr < TWO32 && m.awAddr < TWO32
  {
    var x := BusInputs(m);
    && (ArFire(w.s, x) <==> m.arValid && w.regs.arReady)
    && (AwFire(w.s, x) <==> m.awValid && w.regs.awReady)
    && (WFire(w.s, x) <==> m.wValid && w.regs.wReady)
    && (RFire(w.s, x) <==> w.regs.rValid && m.rReady)
    && (BFire(w.s, x) <==> w.regs.bValid && m.bReady)
  }

  ghost predicate EdgesOk(c: Config, w: Wrapper, es: seq<Edge>) {
    WrapperOk(c, w) && forall i :: 0 <= i < |es| ==> ValidMaster(c, es[i].m)
  }

  function Clocks(c: Config, w: Wrapper, es: seq<Edge>): (w': Wrapper)
    requires EdgesOk(c, w, es)
    ensures WrapperOk(c, w')
    decreases |es|
  {
    if es == [] then w else Clock(c, Clocks(c, w, Front(es)), Last(es))
  }

  /** From the second clock after a reset on, whatever happened before. */
  lemma HandshakesAgree(c: Config, w: Wrapper, es: seq<Edge>, m: Master)
    requires EdgesOk(c, w, es) && es != [] && !Last(es).reset && ValidMaster(c, m)
    ensures Clocks(c, w, es).regs == Sample(c, Clocks(c, w, es).s)
    ensures Agrees(Clocks(c, w, es), m)
  {}

  /** On the first clock after a reset the registers still say "not ready, not valid" while the memory
      behind them answers, so the two sides agree exactly when the master offers nothing the memory
      would take. */
  lemma FirstClockAfterReset(c: Config, w: Wrapper, e: Edge, m: Master)
    requires WrapperOk(c, w) && e.reset && ValidMaster(c, e.m) && ValidMaster(c, m)
    ensures Agrees(Clock(c, w, e), m) <==>
            && !m.arValid
            && !(m.awValid && !w.s.cur.inFlight) && !(m.wValid && w.s.cur.inFlight)
            && !(m.rReady && w.s.readQ != []) && !(m.bReady && w.s.respQ != [])
  {}

  /** A wrapper reset hides the memory's queues for one clock but does not empty them: the first quiet
      clock after it presents a read response exactly when one was pending before the reset. */
  lemma ResetKeepsPending(c: Config, w: Wrapper, e: Edge, m: Master)
    requires WrapperOk(c, w) && e.reset && ValidMaster(c, e.m) && ValidMaster(c, m)
    requires !m.arValid && !m.rReady && !m.wValid && !m.bReady
    ensures var w' := Clock(c, Clock(c, w, e), Edge(false, m));
            && (w'.regs.rValid <==> w.s.readQ != []) && (w'.regs.bValid <==> w.s.respQ != [])
            && (w'.regs.rValid ==> w'.regs.rData == w.s.readQ[0].data)
  {
    assert Clock(c, w, e).s == w.s;
  }

  /** A request held from the first clock after a reset on is served twice: the memory takes it before
      the master sees it accepted. */
  lemma FirstClockExample()
    ensures var c := Config(16, 8, 64, Documented);
            var w := Wrapper(Regs(false, false, false, false, 0, [], false, false, 0),
                             State(seq(16, _ => 0), InFlightStore(false, 0, 0, 0, 0), [], []));
            var m := Master(true, 0, 5, 3, 0, false, 0, 0, 0, 0, false, 0, seq(8, _ => 0), false, false, false);
            && WrapperOk(c, w) && ValidMaster(c, m)
            && var w1 := Clock(c, w, Edge(true, m));
               !w1.regs.arReady && !Agrees(w1, m)
               && |Clock(c, Clock(c, w1, Edge(false, m)), Edge(false, m)).s.readQ| == 2
  {
    assert TWO64 % 64 == 0;
  }

  // ------------------------------------------------------------------ what the master receives

  datatype ReadPayload = ReadPayload(id: nat, data: seq<Byte>, last: bool)

  ghost predicate InSync(c: Config, w: Wrapper) {
    w.regs == Sample(c, w.s)
  }

  predicate Hidden(r: Regs) {
    !r.arReady && !r.awReady && !r.wReady && !r.rValid && !r.bValid
  }

  predicate Idle(m: Master) {
    !m.arValid && !m.awValid && !m.wValid && !m.rReady && !m.bReady
  }

  /** A run, with any number of resets, in which the master is idle on the first clock after each. */
  ghost predicate Calm(c: Config, w: Wrapper, es: seq<Edge>) {
    && EdgesOk(c, w, es) && InSync(c, w)
    && forall i :: 0 < i < |es| && es[i - 1].reset && !es[i].reset ==> Idle(es[i].m)
  }

  /** What the memory sees of it: the wrapper does not tick the memory in a reset. */
  function BusTrace(es: seq<Edge>): (xs: seq<Inputs>)
    requires forall i :: 0 <= i < |es| ==> es[i].m.arAddr < TWO32 && es[i].m.awAddr < TWO32
    ensures |xs| <= |es|
  {
    if es == [] then [] else BusTrace(Front(es)) + if Last(es).reset then [] else [BusInputs(Last(es).m)]
  }

  lemma TraceNext(es: seq<Edge>)
    requires es != [] && forall i :: 0 <= i < |es| ==> es[i].m.arAddr < TWO32 && es[i].m.awAddr < TWO32
    ensures var xs, xs' := BusTrace(Front(es)), BusTrace(es);
            if Last(es).reset then xs' == xs else xs' != [] && Front(xs') == xs && Last(xs') == BusInputs(Last(es).m)
  {}

  function SeenR(w: Wrapper, e: Edge): seq<ReadPayload> {
    if !e.reset && w.regs.rValid && e.m.rReady then [ReadPayload(w.regs.rId, w.regs.rData, w.regs.rLast)] else []
  }

  function SeenAw(w: Wrapper, e: Edge): seq<nat> {
    if !e.reset && e.m.awValid && w.regs.awReady then [e.m.awId] else []
  }

  function SeenB(w: Wrapper, e: Edge): seq<nat> {
    if !e.reset && w.regs.bValid && e.m.bReady then [w.regs.bId] else []
  }

  /** The read beats the master takes, as it sees them on the wires. */
  function MasterReads(c: Config, w: Wrapper, es: seq<Edge>): seq<ReadPayload>
    requires EdgesOk(c, w, es)
    decreases |es|
  {
    if es == [] then [] else MasterReads(c, w, Front(es)) + SeenR(Clocks(c, w, Front(es)), Last(es))
  }

  /** The ids of the write addresses it sees accepted. */
  function MasterAws(c: Config, w: Wrapper, es: seq<Edge>): seq<nat>
    requires EdgesOk(c, w, es)
    decreases |es|
  {
    if es == [] then [] else MasterAws(c, w, Front(es)) + SeenAw(Clocks(c, w, Front(es)), Last(es))
  }

  /** The ids of the write responses it takes. */
  function MasterBs(c: Config, w: Wrapper, es: seq<Edge>): seq<nat>
    requires EdgesOk(c, w, es)
    decreases |es|
  {
    if es == [] then [] else MasterBs(c, w, Front(es)) + SeenB(Clocks(c, w, Front(es)), Last(es))
  }

  function Payloads(rs: seq<MemReadResponse>): (ps: seq<ReadPayload>)
    ensures |ps| == |rs|
  {
    seq(|rs|, i requires 0 <= i < |rs| => ReadPayload(rs[i].id % ID_LIMIT, rs[i].data, rs[i].last))
  }

  /** Ids as they fit the port. */
  function ShortIds(ids: seq<nat>): (short: seq<nat>)
    ensures |short| == |ids|
  {
    seq(|ids|, i requires 0 <= i < |ids| => ids[i] % ID_LIMIT)
  }

  /** What an edge finds: registers that show the memory, or a master that does not look at them. */
  ghost predicate Coherent(c: Config, w: Wrapper, e: Edge) {
    InSync(c, w) || e.reset || (Hidden(w.regs) && Idle(e.m))
  }

  /** A run seen through the registers is a run of the memory; only after a reset are the registers not
      its picture, but hide everything. */
  lemma {:induction false} ClocksAreRun(c: Config, w: Wrapper, es: seq<Edge>)
    requires Calm(c, w, es)
    ensures RunOk(c, w.s, BusTrace(es)) && Clocks(c, w, es).s == Run(c, w.s, BusTrace(es))
    ensures if es != [] && Last(es).reset then Hidden(Clocks(c, w, es).regs) else InSync(c, Clocks(c, w, es))
    decreases |es|
  {
    if es != [] {
      var init, e := Front(es), Last(es);
      ClocksAreRun(c, w, init);
      TraceNext(es);
      if !e.reset { ClockIsStep(c, Clocks(c, w, init), e); }
    }
  }

  lemma ClockIsStep(c: Config, w: Wrapper, e: Edge)
    requires WrapperOk(c, w) && ValidMaster(c, e.m) && !e.reset
    ensures Clock(c, w, e).s == Step(c, w.s, BusInputs(e.m)) && InSync(c, Clock(c, w, e))
  {}

  lemma EdgesCoherent(c: Config, w: Wrapper, es: seq<Edge>)
    requires Calm(c, w, es) && es != []
    ensures Calm(c, w, Front(es)) && Coherent(c, Clocks(c, w, Front(es)), Last(es))
  {
    var init := Front(es);
    assert forall i :: 0 <= i < |init| ==> init[i] == es[i];
    ClocksAreRun(c, w, init);
  }

  lemma SeenIsTaken(c: Config, w: Wrapper, e: Edge)
    requires Coherent(c, w, e) && ValidMaster(c, e.m) && !e.reset
    ensures SeenR(w, e) == Payloads(PopR(w.s, BusInputs(e.m)))
    ensures SeenAw(w, e) == Ids(TakeAw(w.s, BusInputs(e.m)))
    ensures SeenB(w, e) == ShortIds(PopB(w.s, BusInputs(e.m)))
  {}

  /** On every channel, the master sees exactly what the memory takes and gives. */
  lemma {:induction false} SeenIsRun(c: Config, w: Wrapper, es: seq<Edge>)
    requires Calm(c, w, es)
    ensures RunOk(c, w.s, BusTrace(es))
    ensures MasterReads(c, w, es) == Payloads(Popped(c, w.s, BusTrace(es)))
    ensures MasterAws(c, w, es) == Ids(AcceptedAw(c, w.s, BusTrace(es)))
    ensures MasterBs(c, w, es) == ShortIds(PoppedB(c, w.s, BusTrace(es)))
    decreases |es|
  {
    ClocksAreRun(c, w, es);
    if es != [] {
      var init, e := Front(es), Last(es);
      EdgesCoherent(c, w, es);
      SeenIsRun(c, w, init);
      TraceNext(es);
      ClocksAreRun(c, w, init);
      var pre, xs := Clocks(c, w, init), BusTrace(init);
      if !e.reset {
        var x := BusInputs(e.m);
        SeenIsTaken(c, pre, e);
        PayloadsAppend(Popped(c, w.s, xs), PopR(pre.s, x));
        IdsAppend(AcceptedAw(c, w.s, xs), TakeAw(pre.s, x), PoppedB(c, w.s, xs), PopB(pre.s, x));
      } else {
        assert MasterReads(c, w, es) == MasterReads(c, w, init) && MasterAws(c, w, es) == MasterAws(c, w, init);
        assert MasterBs(c, w, es) == MasterBs(c, w, init);
      }
    }
  }

  lemma IdsAppend(a: seq<Inputs>, b: seq<Inputs>, p: seq<nat>, q: seq<nat>)
    ensures Ids(a + b) == Ids(a) + Ids(b)
    ensures ShortIds(p + q) == ShortIds(p) + ShortIds(q)
  {}

  /** End to end, over any calm run: what the master takes off the R channel, followed by what is still
      queued, is what was queued at the start followed by one atomic burst per request. */
  lemma MasterSeesAtomicMemory(c: Config, w: Wrapper, es: seq<Edge>)
    requires Calm(c, w, es)
    ensures RunOk(c, w.s, BusTrace(es))
    ensures MasterReads(c, w, es) + Payloads(Clocks(c, w, es).s.readQ)
            == Payloads(w.s.readQ + Served(c, w.s, BusTrace(es)))
  {
    ClocksAreRun(c, w, es);
    SeenIsRun(c, w, es);
    ReadsRefineAtomicMemory(c, w.s, BusTrace(es));
    PayloadsAppend(Popped(c, w.s, BusTrace(es)), Clocks(c, w, es).s.readQ);
  }

  /** And on the write channels: the ids answered to the master, followed by those waiting and the one
      in flight, are those open at the start followed by those the master saw accepted, in order. */
  lemma MasterSeesEveryWriteAnswered(c: Config, w: Wrapper, es: seq<Edge>)
    requires Calm(c, w, es)
    ensures var s, s' := w.s, Clocks(c, w, es).s;
            MasterBs(c, w, es) + ShortIds(s'.respQ + InFlightId(s')) == ShortIds(s.respQ + InFlightId(s)) + MasterAws(c, w, es)
  {
    var xs, s' := BusTrace(es), Clocks(c, w, es).s;
    ClocksAreRun(c, w, es);
    SeenIsRun(c, w, es);
    WriteConservation(c, w.s, xs);
    AwIdsFit(c, w, es);
    IdsAppend([], [], PoppedB(c, w.s, xs), s'.respQ + InFlightId(s'));
    IdsAppend([], [], w.s.respQ + InFlightId(w.s), MasterAws(c, w, es));
  }

  lemma {:induction false} AwIdsFit(c: Config, w: Wrapper, es: seq<Edge>)
    requires EdgesOk(c, w, es)
    ensures ShortIds(MasterAws(c, w, es)) == MasterAws(c, w, es)
    decreases |es|
  {
    if es != [] {
      AwIdsFit(c, w, Front(es));
      var pre := Clocks(c, w, Front(es));
      IdsAppend([], [], MasterAws(c, w, Front(es)), SeenAw(pre, Last(es)));
      assert ShortIds(SeenAw(pre, Last(es))) == SeenAw(pre, Last(es));
    }
  }

  lemma PayloadsAppend(a: seq<MemReadResponse>, b: seq<MemReadResponse>)
    ensures Payloads(a) + Payloads(b) == Payloads(a + b)
  {}

  // ------------------------------------------------------------------ transfers, signal by signal

  predicate ArSeen(w: Wrapper, e: Edge) {
    !e.reset && e.m.arValid && w.regs.arReady
  }

  predicate AwSeen(w: Wrapper, e: Edge) {
    !e.reset && e.m.awValid && w.regs.awReady
  }

  predicate WSeen(w: Wrapper, e: Edge) {
    !e.reset && e.m.wValid && w.regs.wReady
  }

  /** Where beat k of a read from a bus address stands in the byte array. */
  function WireOffset(c: Config, arAddr: nat, k: nat): (o: nat)
    requires ValidConfig(c) && arAddr < TWO32
    ensures o + c.wordSize <= c.memSize
    ensures o == (SignExtend32(arAddr) / c.wordSize * c.wordSize + k * c.wordSize) % TWO64 % c.memSize
  {
    BeatOffset(c, SignExtend32(arAddr), k)
  }

  /** The beats a read of these bytes presents. */
  function WireBurst(c: Config, mem: seq<Byte>, m: Master): (ps: seq<ReadPayload>)
    requires ValidConfig(c) && |mem| == c.memSize && m.arAddr < TWO32
    ensures |ps| == m.arLen + 1
    ensures forall k :: 0 <= k <= m.arLen ==>
              ps[k] == ReadPayload(m.arId, mem[WireOffset(c, m.arAddr, k)..][..c.wordSize], k == m.arLen)
  {
    seq(m.arLen + 1, k requires 0 <= k =>
      ReadPayload(m.arId, mem[WireOffset(c, m.arAddr, k)..][..c.wordSize], k == m.arLen))
  }

  /** What one clock does to the read queue, in terms of the master's signals. */
  ghost predicate ReadEffect(c: Config, w: Wrapper, e: Edge, w': Wrapper)
    requires WrapperOk(c, w) && ValidMaster(c, e.m)
  {
    SeenR(w, e) + Payloads(w'.s.readQ) == Payloads(w.s.readQ) + if ArSeen(w, e) then WireBurst(c, w.s.mem, e.m) else []
  }

  /** And what it does to the burst in flight and to the bytes. */
  ghost predicate WriteEffect(c: Config, w: Wrapper, e: Edge, w': Wrapper)
    requires WrapperOk(c, w) && ValidMaster(c, e.m)
  {
    var cur := w.s.cur;
    && !(AwSeen(w, e) && WSeen(w, e)) && (WSeen(w, e) ==> cur.count > 0)
    && w'.s.cur == (if AwSeen(w, e) then InFlightStore(true, SignExtend32(e.m.awAddr), e.m.awId, Pow2(e.m.awSize), e.m.awLen + 1)
                    else if WSeen(w, e) then cur.(addr := NthAddr(cur.addr, cur.size, 1), count := cur.count - 1, inFlight := cur.count > 1)
                    else cur)
    && w'.s.mem == if WSeen(w, e) then BeatWritten(c, w.s.mem, cur.addr, e.m.wData, cur.size, e.m.wStrb) else w.s.mem
  }

  lemma ReadClock(c: Config, w: Wrapper, e: Edge)
    requires WrapperOk(c, w) && ValidMaster(c, e.m) && Coherent(c, w, e)
    ensures ReadEffect(c, w, e, Clock(c, w, e))
  {
    if !e.reset {
      var x := BusInputs(e.m);
      SeenIsTaken(c, w, e);
      StepReads(c, w.s, x);
      PayloadsAppend(PopR(w.s, x), Clock(c, w, e).s.readQ);
      PayloadsAppend(w.s.readQ, ServeR(c, w.s, x));
      if e.m.arValid {
        BurstOnTheWires(c, w.s.mem, e.m);
      }
    }
  }

  lemma BurstOnTheWires(c: Config, mem: seq<Byte>, m: Master)
    requires ValidConfig(c) && |mem| == c.memSize && ValidMaster(c, m)
    ensures Payloads(Burst(c, mem, BusInputs(m))) == WireBurst(c, mem, m)
  {
    var b := Burst(c, mem, BusInputs(m));
    forall k | 0 <= k <= m.arLen ensures Payloads(b)[k] == WireBurst(c, mem, m)[k] {
      var o := WireOffset(c, m.arAddr, k);
      assert mem[o..][..c.wordSize] == mem[o..o + c.wordSize];
    }
  }

  lemma WriteClock(c: Config, w: Wrapper, e: Edge)
    requires WrapperOk(c, w) && ValidMaster(c, e.m) && Coherent(c, w, e)
    ensures WriteEffect(c, w, e, Clock(c, w, e))
  {}

  /** The wrapper before each edge, and after the last. */
  function States(c: Config, w: Wrapper, es: seq<Edge>): (ws: seq<Wrapper>)
    requires EdgesOk(c, w, es)
    ensures |ws| == |es| + 1
  {
    seq(|es| + 1, j requires 0 <= j <= |es| => Clocks(c, w, es[..j]))
  }

  ghost predicate IsHistory(c: Config, es: seq<Edge>, ws: seq<Wrapper>) {
    && |ws| == |es| + 1
    && (forall j :: 0 <= j <= |es| ==> WrapperOk(c, ws[j]))
    && (forall j :: 0 <= j < |es| ==> ValidMaster(c, es[j].m))
    && (forall j: nat :: j < |es| ==> Linked(c, es, ws, j))
  }

  ghost predicate Linked(c: Config, es: seq<Edge>, ws: seq<Wrapper>, j: nat)
    requires j < |es| < |ws| && WrapperOk(c, ws[j]) && ValidMaster(c, es[j].m)
  {
    ReadEffect(c, ws[j], es[j], ws[j + 1]) && WriteEffect(c, ws[j], es[j], ws[j + 1])
  }

  lemma StatesAreHistory(c: Config, w: Wrapper, es: seq<Edge>)
    requires Calm(c, w, es)
    ensures IsHistory(c, es, States(c, w, es))
  {
    var ws := States(c, w, es);
    forall j: nat | j < |es| ensures Linked(c, es, ws, j) {
      NextState(c, w, es, j);
      ReadClock(c, ws[j], es[j]);
      WriteClock(c, ws[j], es[j]);
    }
  }

  lemma NextState(c: Config, w: Wrapper, es: seq<Edge>, j: nat)
    requires Calm(c, w, es) && j < |es|
    ensures var ws := States(c, w, es); ws[j + 1] == Clock(c, ws[j], es[j]) && Coherent(c, ws[j], es[j])
  {
    assert Front(es[..j + 1]) == es[..j];
    EdgesCoherent(c, w, es[..j + 1]);
  }

  /** Read beats the master asked for in the first j clocks. */
  function BeatsAsked(es: seq<Edge>, ws: seq<Wrapper>, j: nat): nat
    requires j <= |es| < |ws|
  {
    if j == 0 then 0 else BeatsAsked(es, ws, j - 1) + if ArSeen(ws[j - 1], es[j - 1]) then es[j - 1].m.arLen + 1 else 0
  }

  /** W beats it saw accepted. */
  function BeatsSent(es: seq<Edge>, ws: seq<Wrapper>, j: nat): nat
    requires j <= |es| < |ws|
  {
    if j == 0 then 0 else BeatsSent(es, ws, j - 1) + if WSeen(ws[j - 1], es[j - 1]) then 1 else 0
  }

  /** The read beats it took. */
  function BeatsTaken(es: seq<Edge>, ws: seq<Wrapper>, j: nat): seq<ReadPayload>
    requires j <= |es| < |ws|
  {
    if j == 0 then [] else BeatsTaken(es, ws, j - 1) + SeenR(ws[j - 1], es[j - 1])
  }

  /** The read beats taken in the first j clocks and those then queued. */
  function AllReads(es: seq<Edge>, ws: seq<Wrapper>, j: nat): seq<ReadPayload>
    requires j <= |es| < |ws|
  {
    BeatsTaken(es, ws, j) + Payloads(ws[j].s.readQ)
  }

  lemma AllReadsNext(c: Config, es: seq<Edge>, ws: seq<Wrapper>, j: nat)
    requires IsHistory(c, es, ws) && j < |es|
    ensures AllReads(es, ws, j + 1) == AllReads(es, ws, j) + if ArSeen(ws[j], es[j]) then WireBurst(c, ws[j].s.mem, es[j].m) else []
  {
    assert Linked(c, es, ws, j);
    var taken, seen, q' := BeatsTaken(es, ws, j), SeenR(ws[j], es[j]), Payloads(ws[j + 1].s.readQ);
    assert (taken + seen) + q' == taken + (seen + q');
  }

  lemma {:induction false} AllReadsLength(c: Config, es: seq<Edge>, ws: seq<Wrapper>, j: nat)
    requires IsHistory(c, es, ws) && j <= |es|
    ensures |AllReads(es, ws, j)| == |ws[0].s.readQ| + BeatsAsked(es, ws, j)
  {
    if j > 0 {
      AllReadsLength(c, es, ws, j - 1);
      AllReadsNext(c, es, ws, j - 1);
    }
  }

  /** Is entry n of these reads beat k of this read, from these bytes? */
  ghost predicate Presents(c: Config, all: seq<ReadPayload>, n: nat, mem: seq<Byte>, m: Master, k: nat)
    requires ValidConfig(c) && |mem| == c.memSize && m.arAddr < TWO32
  {
    n < |all| && all[n] == ReadPayload(m.arId, mem[WireOffset(c, m.arAddr, k)..][..c.wordSize], k == m.arLen)
  }

  /** Is entry n of one sequence entry k of another? */
  ghost predicate SameAt(all: seq<ReadPayload>, n: nat, burst: seq<ReadPayload>, k: nat) {
    n < |all| && k < |burst| && all[n] == burst[k]
  }

  lemma SameAtAppend(all: seq<ReadPayload>, more: seq<ReadPayload>, n: nat, burst: seq<ReadPayload>, k: nat)
    ensures SameAt(all, n, burst, k) ==> SameAt(all + more, n, burst, k)
    ensures k < |burst| ==> SameAt(all + burst, |all| + k, burst, k)
  {}

  lemma {:induction false} ReadsOfHistory(c: Config, es: seq<Edge>, ws: seq<Wrapper>, j: nat, i: nat, k: nat)
    requires IsHistory(c, es, ws) && i < j <= |es| && ArSeen(ws[i], es[i]) && k <= es[i].m.arLen
    ensures SameAt(AllReads(es, ws, j), |ws[0].s.readQ| + BeatsAsked(es, ws, i) + k, WireBurst(c, ws[i].s.mem, es[i].m), k)
  {
    AllReadsNext(c, es, ws, j - 1);
    var n, burst, before := |ws[0].s.readQ| + BeatsAsked(es, ws, i) + k, WireBurst(c, ws[i].s.mem, es[i].m), AllReads(es, ws, j - 1);
    if i < j - 1 {
      ReadsOfHistory(c, es, ws, j - 1, i, k);
      var more := if ArSeen(ws[j - 1], es[j - 1]) then WireBurst(c, ws[j - 1].s.mem, es[j - 1].m) else [];
      SameAtAppend(before, more, n, burst, k);
    } else {
      AllReadsLength(c, es, ws, i);
      SameAtAppend(before, burst, n, burst, k);
    }
  }

  lemma Presented(c: Config, all: seq<ReadPayload>, n: nat, mem: seq<Byte>, m: Master, k: nat)
    requires ValidConfig(c) && |mem| == c.memSize && m.arAddr < TWO32 && k <= m.arLen && SameAt(all, n, WireBurst(c, mem, m), k)
    ensures Presents(c, all, n, mem, m, k)
  {}

  /** End to end on the read channels, in the master's own signals, where ws are the wrapper's states: the
      k-th beat of the read it saw accepted in clock i comes after all beats asked for before, with its id,
      last at its end, and carries the k-th word from its address, as the bytes stood before that clock. */
  lemma ReadsOnTheWires(c: Config, w: Wrapper, es: seq<Edge>, ws: seq<Wrapper>, i: nat, k: nat)
    requires Calm(c, w, es) && ws == States(c, w, es)
    requires i < |es| && ArSeen(ws[i], es[i]) && k <= es[i].m.arLen
    ensures |AllReads(es, ws, |es|)| == |w.s.readQ| + BeatsAsked(es, ws, |es|)
    ensures |ws[i].s.mem| == c.memSize
    ensures Presents(c, AllReads(es, ws, |es|), |w.s.readQ| + BeatsAsked(es, ws, i) + k, ws[i].s.mem, es[i].m, k)
  {
    StatesAreHistory(c, w, es);
    FirstState(c, w, es);
    HistoryPresents(c, es, ws, i, k);
  }

  lemma FirstState(c: Config, w: Wrapper, es: seq<Edge>)
    requires EdgesOk(c, w, es)
    ensures States(c, w, es)[0] == w
  {
    assert es[..0] == [];
  }

  lemma HistoryPresents(c: Config, es: seq<Edge>, ws: seq<Wrapper>, i: nat, k: nat)
    requires IsHistory(c, es, ws) && i < |es| && ArSeen(ws[i], es[i]) && k <= es[i].m.arLen
    ensures |AllReads(es, ws, |es|)| == |ws[0].s.readQ| + BeatsAsked(es, ws, |es|)
    ensures Presents(c, AllReads(es, ws, |es|), |ws[0].s.readQ| + BeatsAsked(es, ws, i) + k, ws[i].s.mem, es[i].m, k)
  {
    AllReadsLength(c, es, ws, |es|);
    ReadsOfHistory(c, es, ws, |es|, i, k);
    Presented(c, AllReads(es, ws, |es|), |ws[0].s.readQ| + BeatsAsked(es, ws, i) + k, ws[i].s.mem, es[i].m, k);
  }

  /** A write address is seen accepted in clock i, and none in the clocks between i and j. */
  ghost predicate OneBurst(es: seq<Edge>, ws: seq<Wrapper>, i: nat, j: nat)
    requires i < j <= |es| < |ws|
  {
    AwSeen(ws[i], es[i]) && forall h :: i < h < j ==> !AwSeen(ws[h], es[h])
  }

  /** The burst a write address asks for, once n of its beats were sent. */
  function InFlightAfter(m: Master, n: nat): InFlightStore
    requires m.awAddr < TWO32 && n <= m.awLen + 1
  {
    InFlightStore(n <= m.awLen, NthAddr(SignExtend32(m.awAddr), Pow2(m.awSize), n), m.awId, Pow2(m.awSize), m.awLen + 1 - n)
  }

  lemma NextInFlight(m: Master, n: nat)
    requires m.awAddr < TWO32 && n <= m.awLen
    ensures var cur := InFlightAfter(m, n);
            InFlightAfter(m, n + 1) == cur.(addr := NthAddr(cur.addr, cur.size, 1), count := cur.count - 1, inFlight := cur.count > 1)
  {
    NextAddress(SignExtend32(m.awAddr), Pow2(m.awSize), n);
  }

  lemma FirstInFlight(m: Master)
    requires m.awAddr < TWO32
    ensures InFlightAfter(m, 0) == InFlightStore(true, SignExtend32(m.awAddr), m.awId, Pow2(m.awSize), m.awLen + 1)
  {}

  /** Beats sent after clock i and before clock j. */
  function SentBetween(es: seq<Edge>, ws: seq<Wrapper>, i: nat, j: nat): int
    requires i < j <= |es| < |ws|
  {
    BeatsSent(es, ws, j) - BeatsSent(es, ws, i + 1)
  }

  lemma {:induction false} BurstInFlight(c: Config, es: seq<Edge>, ws: seq<Wrapper>, i: nat, j: nat)
    requires IsHistory(c, es, ws) && i < j <= |es| && OneBurst(es, ws, i, j)
    ensures 0 <= SentBetween(es, ws, i, j) <= es[i].m.awLen + 1
    ensures ws[j].s.cur == InFlightAfter(es[i].m, SentBetween(es, ws, i, j))
  {
    var h := j - 1;
    assert Linked(c, es, ws, h);
    if i < h {
      BurstInFlight(c, es, ws, i, h);
      if WSeen(ws[h], es[h]) { NextInFlight(es[i].m, SentBetween(es, ws, i, h)); }
    } else {
      FirstInFlight(es[i].m);
    }
  }

  /** The bytes mem' are mem with beat n of the burst that aw asks for written over them, with the data and
      the strobe of m. */
  ghost predicate StoredBeat(c: Config, mem: seq<Byte>, aw: Master, n: nat, m: Master, mem': seq<Byte>)
    requires ValidConfig(c) && |mem| == c.memSize && aw.awAddr < TWO32 && |m.wData| >= c.wordSize
  {
    mem' == BeatWritten(c, mem, (SignExtend32(aw.awAddr) + n * Pow2(aw.awSize)) % TWO64, m.wData, Pow2(aw.awSize), m.wStrb)
  }

  /** End to end on the write channels, likewise: the n-th beat the master sees accepted after the write address of
      clock i, with no other write address between, is stored at the n-th address of that burst, in its
      size, with the data and strobe the master drives; the burst is over after as many beats as it asked for. */
  lemma WritesOnTheWires(c: Config, w: Wrapper, es: seq<Edge>, ws: seq<Wrapper>, i: nat, j: nat)
    requires Calm(c, w, es) && ws == States(c, w, es)
    requires i < j < |es| && OneBurst(es, ws, i, j) && WSeen(ws[j], es[j])
    ensures 0 <= SentBetween(es, ws, i, j) <= es[i].m.awLen
    ensures ws[j + 1].s.cur.inFlight <==> SentBetween(es, ws, i, j) < es[i].m.awLen
    ensures |ws[j].s.mem| == c.memSize
    ensures StoredBeat(c, ws[j].s.mem, es[i].m, SentBetween(es, ws, i, j), es[j].m, ws[j + 1].s.mem)
  {
    StatesAreHistory(c, w, es);
    BurstInFlight(c, es, ws, i, j);
    assert Linked(c, es, ws, j);
    BeatIsStored(c, ws[j], es[j], ws[j + 1], es[i].m, SentBetween(es, ws, i, j));
  }

  lemma BeatIsStored(c: Config, w: Wrapper, e: Edge, w': Wrapper, aw: Master, n: nat)
    requires WrapperOk(c, w) && ValidMaster(c, e.m) && WriteEffect(c, w, e, w') && WSeen(w, e)
    requires aw.awAddr < TWO32 && n <= aw.awLen + 1 && w.s.cur == InFlightAfter(aw, n)
    ensures n <= aw.awLen && (w'.s.cur.inFlight <==> n < aw.awLen) && StoredBeat(c, w.s.mem, aw, n, e.m, w'.s.mem)
  {}

  /** Nothing else changes the bytes. */
  lemma OnlyWritesStore(c: Config, w: Wrapper, es: seq<Edge>, ws: seq<Wrapper>, j: nat)
    requires Calm(c, w, es) && ws == States(c, w, es)
    requires j < |es| && !WSeen(ws[j], es[j])
    ensures ws[j + 1].s.mem == ws[j].s.mem
  {
    StatesAreHistory(c, w, es);
    assert Linked(c, es, ws, j);
  }

  /** The beats taken are those counted along the run. */
  lemma {:induction false} BeatsTakenAre(c: Config, w: Wrapper, es: seq<Edge>, j: nat)
    requires EdgesOk(c, w, es) && j <= |es|
    ensures BeatsTaken(es, States(c, w, es), j) == MasterReads(c, w, es[..j])
  {
    if j > 0 {
      BeatsTakenAre(c, w, es, j - 1);
      assert Front(es[..j]) == es[..j - 1] && Last(es[..j]) == es[j - 1];
    }
  }

  // ------------------------------------------------------------------ stability

  ghost predicate Quiet(c: Config, w: Wrapper, es: seq<Edge>) {
    EdgesOk(c, w, es) && InSync(c, w) && forall i :: 0 <= i < |es| ==> !es[i].reset
  }

  lemma StaysInSync(c: Config, w: Wrapper, es: seq<Edge>)
    requires Quiet(c, w, es)
    ensures InSync(c, Clocks(c, w, es))
  {
    ClocksAreRun(c, w, es);
  }

  /** Section A3.2.1 of ARM IHI 0022E: a response presented stays valid, payload unchanged, until it is accepted. */
  lemma {:induction false} ResponsesAreStable(c: Config, w: Wrapper, es: seq<Edge>)
    requires Quiet(c, w, es)
    ensures w.regs.rValid && (forall i :: 0 <= i < |es| ==> !es[i].m.rReady) ==>
              var r := Clocks(c, w, es).regs;
              r.rValid && r.rId == w.regs.rId && r.rData == w.regs.rData && r.rLast == w.regs.rLast
    ensures w.regs.bValid && (forall i :: 0 <= i < |es| ==> !es[i].m.bReady) ==>
              Clocks(c, w, es).regs.bValid && Clocks(c, w, es).regs.bId == w.regs.bId
    decreases |es|
  {
    if es != [] {
      ResponsesAreStable(c, w, Front(es));
      StaysInSync(c, w, Front(es));
      ClockKeepsHeads(c, Clocks(c, w, Front(es)), Last(es));
    }
  }

  lemma ClockKeepsHeads(c: Config, w: Wrapper, e: Edge)
    requires WrapperOk(c, w) && ValidMaster(c, e.m) && InSync(c, w) && !e.reset
    ensures var r := Clock(c, w, e).regs;
            && (w.regs.rValid && !e.m.rReady ==> r.rValid && r.rId == w.regs.rId && r.rData == w.regs.rData && r.rLast == w.regs.rLast)
            && (w.regs.bValid && !e.m.bReady ==> r.bValid && r.bId == w.regs.bId)
  {
    var s' := Step(c, w.s, BusInputs(e.m));
    if w.s.readQ != [] && !e.m.rReady { assert s'.readQ[0] == w.s.readQ[0]; }
    if w.s.respQ != [] && !e.m.bReady { assert s'.respQ[0] == w.s.respQ[0]; }
  }

  // ------------------------------------------------------------------ addresses

  /** For a DRAM address the simulation driver and the bus name the same byte: the sign-extended bus
      address falls, modulo the memory size, on the driver's offset, in the word the burst reads. */
  lemma DriverAndBusAgree(c: Config, baseAddr: nat, addr: nat)
    requires ValidConfig(c) && baseAddr % c.memSize == 0 && TWO32 % c.memSize == 0
    requires baseAddr <= addr < baseAddr + c.memSize && addr < TWO32
    ensures SignExtend32(addr) % c.memSize == addr - baseAddr
    ensures BeatOffset(c, SignExtend32(addr), 0) == Align(c, addr - baseAddr)
    ensures Align(c, SignExtend32(addr) % c.memSize) == Align(c, addr - baseAddr)
  {
    var m, x, off := c.memSize, SignExtend32(addr), addr - baseAddr;
    var k := SignBitsAreMultiple(m, baseAddr, addr);
    ModAddMultiple(off, k, m);
    AlignShift(c, off, k);
    ModAddMultiple(Align(c, off), k, m);
    AlignFacts(c, off);
    AlignFacts(c, x);
    DivModUnique(0, off, m);
    DivModUnique(0, Align(c, off), m);
  }

  /** Over all DRAM addresses the two sides agree exactly when the memory size divides the base address. */
  lemma DriverAndBusAgreeIff(c: Config, baseAddr: nat)
    requires ValidConfig(c) && TWO32 % c.memSize == 0 && baseAddr + c.memSize <= TWO32
    ensures (forall addr: nat :: baseAddr <= addr < baseAddr + c.memSize ==> SignExtend32(addr) % c.memSize == addr - baseAddr)
            <==> baseAddr % c.memSize == 0
  {
    if baseAddr % c.memSize == 0 {
      forall addr: nat | baseAddr <= addr < baseAddr + c.memSize ensures SignExtend32(addr) % c.memSize == addr - baseAddr {
        DriverAndBusAgree(c, baseAddr, addr);
      }
    } else {
      assert SignExtend32(baseAddr) % c.memSize == baseAddr % c.memSize by {
        if baseAddr >= TWO31 { HighBitsVanish(c.memSize, baseAddr); }
      }
    }
  }

  lemma HighBitsVanish(m: nat, a: nat)
    requires 0 < m && TWO32 % m == 0
    ensures (a + (TWO64 - TWO32)) % m == a % m
  {
    var t, signs: nat := TWO32 / m, TWO32 - 1;
    assert TWO32 == t * m && TWO64 - TWO32 == signs * TWO32;
    MulAssoc(signs, t, m);
    ModAddMultiple(a, signs * t, m);
  }

  /** A bus address is its DRAM offset plus a multiple of the memory size. */
  lemma SignBitsAreMultiple(m: nat, baseAddr: nat, addr: nat) returns (k: nat)
    requires 0 < m && baseAddr % m == 0 && TWO32 % m == 0 && baseAddr <= addr < TWO32
    ensures SignExtend32(addr) == addr - baseAddr + k * m
  {
    var b, t := baseAddr / m, TWO32 / m;
    var signs: nat := TWO32 - 1;
    assert baseAddr == b * m && TWO32 == t * m;
    assert TWO64 - TWO32 == signs * TWO32;
    MulAssoc(signs, t, m);
    if addr < TWO31 {
      k := b;
    } else {
      k := b + signs * t;
      Distribute(b, signs * t, m);
    }
  }
}
