/**
 The byte memory behind the AXI port of the simulated core: a clocked state machine with an
 unbounded queue of read beats, a queue of write responses and one in-flight write burst.
 */
module SimMemory {
  import opened Bits

  /** Which bytes a write beat stores: those of the bus, as the declaration of the write documents,
      or those the shipped body and call produce. */
  datatype WriteRule = Documented | AsCoded

  datatype Config = Config(memSize: nat, wordSize: nat, lineSize: nat, rule: WriteRule)

  /** The asserts of the constructor (a 64-bit power of two is a divisor of 2^64), and whole words. */
  ghost predicate ValidConfig(c: Config) {
    && 0 < c.wordSize
    && 0 < c.lineSize && TWO64 % c.lineSize == 0
    && c.lineSize % c.wordSize == 0
    && 0 < c.memSize && c.memSize % c.wordSize == 0
  }

  datatype InFlightStore = InFlightStore(inFlight: bool, addr: nat, id: nat, size: nat, count: nat)

  datatype MemReadResponse = MemReadResponse(id: nat, data: seq<Byte>, last: bool)

  datatype Inputs = Inputs(
    reset: bool,
    arValid: bool, arAddr: nat, arId: nat, arSize: nat, arLen: nat,
    awValid: bool, awAddr: nat, awId: nat, awSize: nat, awLen: nat,
    wValid: bool, wStrb: nat, wData: seq<Byte>, wLast: bool,
    rReady: bool, bReady: bool)

  datatype State = State(mem: seq<Byte>, cur: InFlightStore, readQ: seq<MemReadResponse>, respQ: seq<nat>)

  // ------------------------------------------------------------------ one clock tick

  function Align(c: Config, addr: nat): nat
    requires c.wordSize > 0
  {
    (addr / c.wordSize) * c.wordSize
  }

  /** Does byte lane i belong to a transfer of this size at dst? A 64-byte transfer is not masked. */
  predicate InTransfer(c: Config, dst: nat, size: nat, i: nat)
    requires c.wordSize > 0
  {
    size == 64 || dst % c.wordSize <= i < dst % c.wordSize + size
  }

  /** Does a write to dst store byte lane i of its word? */
  predicate Lane(c: Config, dst: nat, size: nat, strb: nat, i: nat)
    requires c.wordSize > 0
  {
    Bit(strb, i) && InTransfer(c, dst, size, i)
  }

  /** The memory after a strobed write: selected lanes take the bus byte, or, as coded, a byte of
      the memory's own first word; every other byte is kept. */
  function Written(c: Config, mem: seq<Byte>, dst: nat, src: seq<Byte>, size: nat, strb: nat): (mem': seq<Byte>)
    requires ValidConfig(c) && |mem| == c.memSize && |src| >= c.wordSize
    ensures |mem'| == |mem|
  {
    var base := Align(c, dst % c.memSize);
    WordInBounds(c, base);
    seq(|mem|, m requires 0 <= m < |mem| =>
      if base <= m < base + c.wordSize && Lane(c, dst, size, strb, m - base)
      then (if c.rule.Documented? then src[m - base] else mem[m - base])
      else mem[m])
  }

  /** The write a W beat asks for. As coded, strobe and size change places in the call. */
  function BeatWritten(c: Config, mem: seq<Byte>, dst: nat, src: seq<Byte>, size: nat, strb: nat): (mem': seq<Byte>)
    requires ValidConfig(c) && |mem| == c.memSize && |src| >= c.wordSize
    ensures |mem'| == |mem|
  {
    if c.rule.Documented? then Written(c, mem, dst, src, size, strb) else Written(c, mem, dst, src, strb, size)
  }

  /** The assertion at the head of the write, as reached from a W beat. */
  predicate BeatAccepted(c: Config, size: nat, strb: nat) {
    if c.rule.Documented? then size <= 64 else strb <= 64
  }

  lemma AlignFacts(c: Config, addr: nat)
    requires 0 < c.wordSize
    ensures Align(c, addr) % c.wordSize == 0
    ensures Align(c, addr) == addr - addr % c.wordSize
    ensures Align(c, addr) <= addr < Align(c, addr) + c.wordSize
  {
    MultipleMod(addr / c.wordSize, c.wordSize);
  }

  /** Aligning commutes with adding a multiple of the memory size. */
  lemma AlignShift(c: Config, off: nat, k: nat)
    requires ValidConfig(c)
    ensures Align(c, off + k * c.memSize) == Align(c, off) + k * c.memSize
  {
    var w, n := c.wordSize, c.memSize / c.wordSize;
    assert c.memSize == n * w;
    MulAssoc(k, n, w);
    ModAddMultiple(off, k * n, w);
    AlignFacts(c, off);
    AlignFacts(c, off + k * c.memSize);
  }

  /** An aligned word that starts inside the memory ends inside it. */
  lemma WordInBounds(c: Config, base: nat)
    requires ValidConfig(c)
    ensures forall a: nat :: a < c.memSize && a % c.wordSize == 0 ==> a + c.wordSize <= c.memSize
    ensures Align(c, base % c.memSize) % c.wordSize == 0
    ensures Align(c, base % c.memSize) + c.wordSize <= c.memSize
  {
    forall a: nat | a < c.memSize && a % c.wordSize == 0 ensures a + c.wordSize <= c.memSize {
      MultipleGap(a, c.memSize, c.wordSize);
    }
    AlignFacts(c, base % c.memSize);
  }

  /** Where beat k of a read burst starts in the byte array. */
  function BeatOffset(c: Config, arAddr: nat, k: nat): (o: nat)
    requires ValidConfig(c)
    ensures o % c.wordSize == 0 && o + c.wordSize <= c.memSize
  {
    var a := Align(c, arAddr) + k * c.wordSize;
    AlignFacts(c, arAddr);
    ModAddMultiple(Align(c, arAddr), k, c.wordSize);
    ModOfMod(TWO64, c.lineSize, c.wordSize);
    ModOfMod(a, TWO64, c.wordSize);
    ModOfMod(a % TWO64, c.memSize, c.wordSize);
    WordInBounds(c, 0);
    a % TWO64 % c.memSize
  }

  /** The beats queued for one accepted AR. */
  function Burst(c: Config, mem: seq<Byte>, x: Inputs): (b: seq<MemReadResponse>)
    requires ValidConfig(c) && |mem| == c.memSize
    ensures |b| == x.arLen + 1
  {
    seq(x.arLen + 1, k requires 0 <= k =>
      var o := BeatOffset(c, x.arAddr, k);
      MemReadResponse(x.arId, mem[o..o + c.wordSize], k == x.arLen))
  }

  predicate ArFire(s: State, x: Inputs) { !x.reset && x.arValid }
  predicate AwFire(s: State, x: Inputs) { !x.reset && x.awValid && !s.cur.inFlight }
  predicate WFire(s: State, x: Inputs) { !x.reset && x.wValid && s.cur.inFlight }
  predicate RFire(s: State, x: Inputs) { !x.reset && s.readQ != [] && x.rReady }
  predicate BFire(s: State, x: Inputs) { !x.reset && s.respQ != [] && x.bReady }

  /** The bus carries a full word, and addresses and lengths fit the port (burst lengths are 8 bits wide). */
  ghost predicate ValidInputs(c: Config, x: Inputs) {
    |x.wData| >= c.wordSize && x.awAddr < TWO64 && x.awLen + 1 < TWO64
  }

  ghost predicate WellSized(c: Config, s: State, x: Inputs) {
    ValidConfig(c) && |s.mem| == c.memSize && ValidInputs(c, x)
  }

  function Step(c: Config, s: State, x: Inputs): (s': State)
    requires WellSized(c, s, x)
    ensures |s'.mem| == |s.mem|
  {
    var readQ := if ArFire(s, x) then s.readQ + Burst(c, s.mem, x) else s.readQ;
    var mem := if WFire(s, x) then BeatWritten(c, s.mem, s.cur.addr, x.wData, s.cur.size, x.wStrb) else s.mem;
    var count := (s.cur.count + TWO64 - 1) % TWO64;
    var cur :=
      if AwFire(s, x) then InFlightStore(true, x.awAddr, x.awId, Pow2(x.awSize), x.awLen + 1)
      else if WFire(s, x) then
        s.cur.(addr := (s.cur.addr + s.cur.size) % TWO64, count := count, inFlight := count != 0)
      else s.cur;
    var respQ := if WFire(s, x) && count == 0 then s.respQ + [s.cur.id] else s.respQ;
    if x.reset then State(mem, cur, [], [])
    else State(mem, cur,
               if RFire(s, x) then readQ[1..] else readQ,
               if BFire(s, x) then respQ[1..] else respQ)
  }

  // ------------------------------------------------------------------ the object

  class SimMem {
    const c: Config
    const data: array<Byte>
    var curStore: InFlightStore
    var readQueue: seq<MemReadResponse>
    var writeRespQueue: seq<nat>
    var cycle: nat

    ghost predicate Valid()
      reads this
    {
      ValidConfig(c) && data.Length == c.memSize
    }

    ghost function Abs(): State
      reads this, data
    {
      State(data[..], curStore, readQueue, writeRespQueue)
    }

    constructor (c: Config)
      requires ValidConfig(c)
      ensures Valid() && this.c == c && fresh(data)
      ensures curStore == InFlightStore(false, 0, 0, 0, 0) && readQueue == [] && writeRespQueue == []
    {
      this.c := c;
      data := new Byte[c.memSize];
      curStore := InFlightStore(false, 0, 0, 0, 0);
      readQueue, writeRespQueue, cycle := [], [], 0;
    }

    method Write(dst: nat, src: seq<Byte>, size: nat, strb: nat)
      requires Valid() && |src| >= c.wordSize
      requires size <= 64
      modifies data
      ensures data[..] == Written(c, old(data[..]), dst, src, size, strb)
    {
      var s: nat := if size != 64 then And(strb, LaneMask(size, dst % c.wordSize)) else strb;
      var base := Align(c, dst % c.memSize);
      WordInBounds(c, dst);
      forall j: nat ensures Bit(s, j) <==> Lane(c, dst, size, strb, j) {
        if size != 64 {
          BitAnd(strb, LaneMask(size, dst % c.wordSize), j);
          BitLaneMask(size, dst % c.wordSize, j);
        }
      }
      ghost var was := data[..];
      ghost var want := Written(c, was, dst, src, size, strb);
      var i := 0;
      while i < c.wordSize
        invariant 0 <= i <= c.wordSize
        invariant forall j: nat :: Bit(s, j) <==> Lane(c, dst, size, strb, i + j)
        invariant forall m :: base <= m < base + i ==> data[m] == want[m]
        invariant forall m :: 0 <= m < c.memSize && !(base <= m < base + i) ==> data[m] == was[m]
      {
        assert Bit(s, 0) <==> Lane(c, dst, size, strb, i + 0);
        if s % 2 == 1 {
          FirstWordApart(c, base, i);
          data[base + i] := if c.rule.Documented? then src[i] else data[i];
        }
        forall j: nat ensures Bit(s / 2, j) <==> Lane(c, dst, size, strb, i + 1 + j) {
          assert Bit(s, j + 1) <==> Lane(c, dst, size, strb, i + (j + 1));
        }
        s := s / 2;
        i := i + 1;
      }
      assert data[..] == want;
    }

    /** The address-read part of a tick: one queued response per beat of the burst. */
    method QueueBurst(x: Inputs)
      requires Valid()
      modifies `readQueue
      ensures readQueue == old(readQueue) + Burst(c, data[..], x)
    {
      ghost var burst := Burst(c, data[..], x);
      for i := 0 to x.arLen + 1
        invariant readQueue == old(readQueue) + burst[..i]
      {
        var start := BeatOffset(c, x.arAddr, i);
        readQueue := readQueue + [MemReadResponse(x.arId, data[start..start + c.wordSize], i == x.arLen)];
        assert burst[..i + 1] == burst[..i] + [burst[i]];
      }
      assert burst[..x.arLen + 1] == burst;
    }

    /** The data-write part of a tick: store one beat, and respond after the last one. */
    method AcceptBeat(x: Inputs)
      requires Valid() && |x.wData| >= c.wordSize
      requires 0 < curStore.count < TWO64
      requires BeatAccepted(c, curStore.size, x.wStrb)
      requires curStore.count == 1 ==> x.wLast
      modifies `curStore, `writeRespQueue, data
      ensures data[..] == BeatWritten(c, old(data[..]), old(curStore.addr), x.wData, old(curStore.size), x.wStrb)
      ensures curStore == old(curStore).(addr := (old(curStore.addr) + old(curStore.size)) % TWO64,
                                         count := old(curStore.count) - 1,
                                         inFlight := old(curStore.inFlight) && old(curStore.count) != 1)
      ensures writeRespQueue == old(writeRespQueue) + if old(curStore.count) == 1 then [old(curStore.id)] else []
    {
      if c.rule.Documented? {
        Write(curStore.addr, x.wData, curStore.size, x.wStrb);
      } else {
        Write(curStore.addr, x.wData, x.wStrb, curStore.size);
      }
      curStore := curStore.(addr := (curStore.addr + curStore.size) % TWO64, count := curStore.count - 1);
      if curStore.count == 0 {
        curStore := curStore.(inFlight := false);
        writeRespQueue := writeRespQueue + [curStore.id];
        assert x.wLast;
      }
    }

    /** The three channels driven by the master: AR, AW and W. */
    method Accept(x: Inputs)
      requires Valid() && ValidInputs(c, x)
      requires curStore.inFlight ==> 0 < curStore.count < TWO64
      requires WFire(Abs(), x) ==> BeatAccepted(c, curStore.size, x.wStrb)
      requires WFire(Abs(), x) && curStore.count == 1 ==> x.wLast
      modifies `curStore, `readQueue, `writeRespQueue, data
      ensures var s := old(Abs());
              && readQueue == (if ArFire(s, x) then s.readQ + Burst(c, s.mem, x) else s.readQ)
              && data[..] == Step(c, s, x).mem && curStore == Step(c, s, x).cur
              && writeRespQueue == if WFire(s, x) && s.cur.count == 1 then s.respQ + [s.cur.id] else s.respQ
    {
      var arFire := !x.reset && x.arValid;
      var awFire := !x.reset && x.awValid && !curStore.inFlight;
      var wFire := !x.reset && x.wValid && curStore.inFlight;
      if arFire {
        QueueBurst(x);
      }
      if awFire {
        curStore := InFlightStore(true, x.awAddr, x.awId, Pow2(x.awSize), x.awLen + 1);
      }
      if wFire {
        AcceptBeat(x);
      }
    }

    method DropQueues()
      modifies `readQueue, `writeRespQueue
      ensures readQueue == [] && writeRespQueue == []
    {
      while writeRespQueue != []
        decreases |writeRespQueue|
      {
        writeRespQueue := writeRespQueue[1..];
      }
      while readQueue != []
        invariant writeRespQueue == []
        decreases |readQueue|
      {
        readQueue := readQueue[1..];
      }
    }

    method Tick(x: Inputs)
      requires Valid() && ValidInputs(c, x)
      requires curStore.inFlight ==> 0 < curStore.count < TWO64
      // The two asserts of the source, as demands on the bus master.
      requires WFire(Abs(), x) ==> BeatAccepted(c, curStore.size, x.wStrb)
      requires WFire(Abs(), x) && curStore.count == 1 ==> x.wLast
      modifies this, data
      ensures Valid()
      ensures Abs() == Step(c, old(Abs()), x)
      ensures cycle == if x.reset then 0 else old(cycle) + 1
    {
      ghost var s := Abs();
      var rFire := !x.reset && readQueue != [] && x.rReady;
      var bFire := !x.reset && writeRespQueue != [] && x.bReady;
      Accept(x);
      if bFire {
        writeRespQueue := writeRespQueue[1..];
      }
      if rFire {
        readQueue := readQueue[1..];
      }
      cycle := cycle + 1;
      if x.reset {
        DropQueues();
        cycle := 0;
      }
    }
  }

  /** As coded, the bytes copied come from the first word, which a write reaches only onto itself. */
  lemma FirstWordApart(c: Config, base: nat, i: nat)
    requires ValidConfig(c) && base % c.wordSize == 0 && i < c.wordSize
    ensures base == 0 || c.wordSize <= base
  {
    if base != 0 { MultipleGap(0, base, c.wordSize); }
  }
}
