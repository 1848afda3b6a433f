/** Write bursts read back, against the address and byte-lane rules of AMBA AXI (ARM IHI 0022E, section A3.4),
    and what the write as coded stores instead. */
module AxiBursts {
  import opened Bits
  import opened SimMemory
  import opened AxiRuns

  // ------------------------------------------------------------------ round trip

  /** A word-sized burst from an aligned address that stays below 2^64 and is no longer than the memory. */
  ghost predicate WordBurst(c: Config, a: nat, len: nat) {
    && ValidConfig(c) && c.wordSize <= 64
    && a % c.wordSize == 0
    && a + (len + 1) * c.wordSize <= TWO64
    && (len + 1) * c.wordSize <= c.memSize
  }

  lemma OffsetOfBeat(c: Config, a: nat, len: nat, k: nat)
    requires WordBurst(c, a, len) && k <= len
    ensures NthAddr(a, c.wordSize, k) == a + k * c.wordSize
    ensures BeatOffset(c, a, k) == NthAddr(a, c.wordSize, k) % c.memSize
    ensures NthAddr(a, c.wordSize, k) % c.wordSize == 0
  {
    TimesMonotone(k + 1, len + 1, c.wordSize);
    assert (k + 1) * c.wordSize == k * c.wordSize + c.wordSize;
    AlignFacts(c, a);
    ModAddMultiple(a, k, c.wordSize);
  }

  /** Different beats of one burst land in different words. */
  lemma BeatsApart(c: Config, a: nat, len: nat, j: nat, k: nat)
    requires WordBurst(c, a, len) && j < k <= len
    ensures BeatOffset(c, a, j) != BeatOffset(c, a, k)
  {
    OffsetOfBeat(c, a, len, j);
    OffsetOfBeat(c, a, len, k);
    StepsApart(c.wordSize, c.memSize, len, j, k);
    ModApart(a + j * c.wordSize, a + k * c.wordSize, c.memSize);
  }

  lemma StepsApart(w: int, size: int, len: int, j: int, k: int)
    requires 0 < w && (len + 1) * w <= size && 0 <= j < k <= len
    ensures 0 < k * w - j * w < size
  {
    Distribute(k, -j, w);
    MulMonotone(k - j, w);
    TimesMonotone(k - j, len, w);
    assert (len + 1) * w == len * w + w;
  }

  /** The beats of a word-sized burst, as the run lemmas describe them. */
  ghost predicate IsBurst(c: Config, a: nat, len: nat, bs: seq<Beat>) {
    |bs| == len + 1 && BeatsOk(c, bs) && Successive(bs, a, c.wordSize)
  }

  /** The k-th beat asks for a whole word, at the k-th offset of a read burst. */
  lemma BeatBase(c: Config, a: nat, len: nat, bs: seq<Beat>, k: nat)
    requires WordBurst(c, a, len) && IsBurst(c, a, len, bs) && k <= len
    ensures WholeWord(c, bs[k], BeatOffset(c, a, k))
  {
    OffsetOfBeat(c, a, len, k);
    AlignFacts(c, bs[k].addr % c.memSize);
  }

  ghost predicate WholeWord(c: Config, b: Beat, o: nat)
    requires c.wordSize > 0 && c.memSize > 0
  {
    b.size == c.wordSize && b.addr % c.wordSize == 0 && Align(c, b.addr % c.memSize) == o
  }

  lemma LaneCovered(c: Config, b: Beat, o: nat, i: nat)
    requires ValidConfig(c) && |b.data| >= c.wordSize && WholeWord(c, b, o) && i < c.wordSize
    ensures Covers(c, b, o + i) <==> Bit(b.strb, i)
    ensures Covers(c, b, o + i) ==> StoredByte(c, b, o + i) == b.data[i]
  {
    assert o + i - o == i;
  }

  lemma OnlyBeatForByte(c: Config, mem: seq<Byte>, bs: seq<Beat>, k: nat, m: nat)
    requires ValidConfig(c) && c.rule.Documented? && |mem| == c.memSize && m < c.memSize && BeatsOk(c, bs) && k < |bs|
    requires forall j :: 0 <= j < |bs| && j != k ==> !Covers(c, bs[j], m)
    ensures ApplyBeats(c, mem, bs)[m] == if Covers(c, bs[k], m) then StoredByte(c, bs[k], m) else mem[m]
  {
    ByteAfterBeats(c, mem, bs, m);
  }

  /** No other beat stores a byte of the k-th beat's word. */
  lemma OtherBeatsMiss(c: Config, a: nat, len: nat, bs: seq<Beat>, k: nat, m: nat)
    requires WordBurst(c, a, len) && IsBurst(c, a, len, bs) && k <= len
    requires BeatOffset(c, a, k) <= m < BeatOffset(c, a, k) + c.wordSize
    ensures forall j :: 0 <= j < |bs| && j != k ==> !Covers(c, bs[j], m)
  {
    forall j | 0 <= j < |bs| && j != k ensures !Covers(c, bs[j], m) {
      BeatBase(c, a, len, bs, j);
      if j < k { BeatsApart(c, a, len, j, k); } else { BeatsApart(c, a, len, k, j); }
      WordsApart(c.wordSize, BeatOffset(c, a, j), BeatOffset(c, a, k), m);
    }
  }

  lemma WordsApart(w: nat, o: nat, o': nat, m: nat)
    requires 0 < w && o % w == 0 && o' % w == 0 && o != o' && o' <= m < o' + w
    ensures !(o <= m < o + w)
  {
    if o < o' { MultipleGap(o, o', w); } else { MultipleGap(o', o, w); }
  }

  lemma LaneAfterBeats(c: Config, mem: seq<Byte>, bs: seq<Beat>, k: nat, o: nat, i: nat)
    requires ValidConfig(c) && c.rule.Documented? && |mem| == c.memSize && BeatsOk(c, bs) && k < |bs|
    requires WholeWord(c, bs[k], o) && i < c.wordSize && o + i < c.memSize
    requires forall j :: 0 <= j < |bs| && j != k ==> !Covers(c, bs[j], o + i)
    ensures ApplyBeats(c, mem, bs)[o + i] == if Bit(bs[k].strb, i) then bs[k].data[i] else mem[o + i]
  {
    LaneCovered(c, bs[k], o, i);
    if Bit(bs[k].strb, i) {
      assert Covers(c, bs[k], o + i);
    } else {
      assert !Covers(c, bs[k], o + i);
    }
    OnlyBeatForByte(c, mem, bs, k, o + i);
  }

  lemma BurstBytes(c: Config, mem: seq<Byte>, a: nat, len: nat, bs: seq<Beat>, k: nat, i: nat)
    requires WordBurst(c, a, len) && IsBurst(c, a, len, bs) && c.rule.Documented? && |mem| == c.memSize
    requires k <= len && i < c.wordSize
    ensures var o := BeatOffset(c, a, k);
            ApplyBeats(c, mem, bs)[o + i] == if Bit(bs[k].strb, i) then bs[k].data[i] else mem[o + i]
  {
    var o := BeatOffset(c, a, k);
    assert WholeWord(c, bs[k], o) by { BeatBase(c, a, len, bs, k); }
    assert forall j :: 0 <= j < |bs| && j != k ==> !Covers(c, bs[j], o + i) by { OtherBeatsMiss(c, a, len, bs, k, o + i); }
    LaneAfterBeats(c, mem, bs, k, o, i);
  }

  /** A read burst over memory mem' carries, lane by lane, the bytes the beats strobed onto the bus and
      the bytes of mem elsewhere; and mem' differs from mem in strobed bytes only. */
  ghost predicate ReadsBack(c: Config, mem: seq<Byte>, mem': seq<Byte>, bs: seq<Beat>, ar: Inputs)
    requires ValidConfig(c) && |mem| == |mem'| == c.memSize && |bs| == ar.arLen + 1
  {
    && BeatsOk(c, bs)
    && (forall k, i :: 0 <= k < |bs| && 0 <= i < c.wordSize ==>
          Burst(c, mem', ar)[k].data[i] ==
          if Bit(bs[k].strb, i) then bs[k].data[i] else mem[BeatOffset(c, ar.arAddr, k) + i])
    && (forall m :: 0 <= m < c.memSize && (forall k :: 0 <= k < |bs| ==> !Covers(c, bs[k], m)) ==> mem'[m] == mem[m])
  }

  lemma BurstReadBack(c: Config, mem: seq<Byte>, bs: seq<Beat>, ar: Inputs)
    requires WordBurst(c, ar.arAddr, ar.arLen) && IsBurst(c, ar.arAddr, ar.arLen, bs) && c.rule.Documented? && |mem| == c.memSize
    ensures ReadsBack(c, mem, ApplyBeats(c, mem, bs), bs, ar)
  {
    var mem' := ApplyBeats(c, mem, bs);
    forall k, i | 0 <= k < |bs| && 0 <= i < c.wordSize
      ensures Burst(c, mem', ar)[k].data[i] ==
              if Bit(bs[k].strb, i) then bs[k].data[i] else mem[BeatOffset(c, ar.arAddr, k) + i]
    {
      BurstBytes(c, mem, ar.arAddr, ar.arLen, bs, k, i);
    }
    forall m | 0 <= m < c.memSize && (forall k :: 0 <= k < |bs| ==> !Covers(c, bs[k], m)) ensures mem'[m] == mem[m] {
      ByteAfterBeats(c, mem, bs, m);
    }
  }

  lemma AwStep(c: Config, s: State, aw: Inputs)
    requires WellSized(c, s, aw) && !aw.reset && AwFire(s, aw)
    ensures Step(c, s, aw).cur == InFlightStore(true, aw.awAddr, aw.awId, Pow2(aw.awSize), aw.awLen + 1)
    ensures Step(c, s, aw).mem == s.mem
  {}

  /** The inputs after an accepted AW that bring its burst, and no other, to its end. */
  ghost predicate CompletesBurst(c: Config, s: State, ws: seq<Inputs>) {
    RunOk(c, s, ws) && AcceptedAw(c, s, ws) == [] && !Run(c, s, ws).cur.inFlight
  }

  /** Write a word-sized burst beat by beat, whatever else the bus does meanwhile, then read at the
      same address. */
  lemma BurstRoundTrip(c: Config, s: State, aw: Inputs, ws: seq<Inputs>, ar: Inputs)
    requires WellSized(c, s, aw) && StoreInv(s) && c.rule.Documented?
    requires !aw.reset && AwFire(s, aw) && Pow2(aw.awSize) == c.wordSize && WordBurst(c, aw.awAddr, aw.awLen)
    requires CompletesBurst(c, Step(c, s, aw), ws)
    requires ar.arAddr == aw.awAddr && ar.arLen == aw.awLen
    ensures var s1 := Step(c, s, aw);
            && |Beats(c, s1, ws)| == aw.awLen + 1
            && ReadsBack(c, s.mem, Run(c, s1, ws).mem, Beats(c, s1, ws), ar)
  {
    AwStep(c, s, aw);
    RoundTripFrom(c, Step(c, s, aw), ws, ar);
  }

  lemma RoundTripFrom(c: Config, s: State, ws: seq<Inputs>, ar: Inputs)
    requires CompletesBurst(c, s, ws) && c.rule.Documented?
    requires s.cur.size == c.wordSize && s.cur.addr == ar.arAddr && s.cur.count == ar.arLen + 1
    requires WordBurst(c, ar.arAddr, ar.arLen)
    ensures |Beats(c, s, ws)| == ar.arLen + 1
    ensures ReadsBack(c, s.mem, Run(c, s, ws).mem, Beats(c, s, ws), ar)
  {
    BeatAddresses(c, s, ws);
    MemoryIsBeats(c, s, ws);
    BurstReadBack(c, s.mem, Beats(c, s, ws), ar);
  }

  // ------------------------------------------------------------------ unaligned bursts

  /** Section A3.4.1: the n-th transfer of an incrementing burst covers the bytes [AxiLow, AxiHigh). */
  function AxiLow(start: nat, size: nat, n: nat): nat
    requires size > 0
  {
    if n == 0 then start else start - start % size + n * size
  }

  function AxiHigh(start: nat, size: nat, n: nat): nat
    requires size > 0
  {
    start - start % size + n * size + size
  }

  /** May a beat of this address and size store absolute byte m, given a strobe that selects its lane? */
  ghost predicate BeatReaches(c: Config, a: nat, size: nat, m: nat)
    requires c.wordSize > 0
  {
    var i := m - Align(c, a);
    0 <= i < c.wordSize && InTransfer(c, a, size, i)
  }

  /** May the n-th beat of a burst? */
  ghost predicate CodeReaches(c: Config, start: nat, size: nat, n: nat, m: nat)
    requires c.wordSize > 0
  {
    BeatReaches(c, start + n * size, size, m)
  }

  /** The beat addresses advance from the unaligned start. Every byte a legal master may strobe is
      reached exactly when the start is aligned to the transfer size or there is a single beat
      (or the transfer is 64 bytes wide, where no lane is masked). */
  lemma BurstFollowsAxi(c: Config, start: nat, size: nat, len: nat)
    requires ValidConfig(c) && 0 < size && c.wordSize % size == 0
    ensures (forall n: nat, m: nat :: n <= len && AxiLow(start, size, n) <= m < AxiHigh(start, size, n)
                                      ==> CodeReaches(c, start, size, n, m))
            <==> start % size == 0 || len == 0 || size == 64
  {
    if start % size == 0 || len == 0 || size == 64 {
      forall n: nat, m: nat | n <= len && AxiLow(start, size, n) <= m < AxiHigh(start, size, n)
        ensures CodeReaches(c, start, size, n, m)
      {
        ReachesAxi(c, start, size, n, m);
      }
    } else {
      var m := AxiLow(start, size, 1);
      assert AxiLow(start, size, 1) <= m < AxiHigh(start, size, 1);
      assert start + 1 * size > m;
      AlignFacts(c, start + 1 * size);
      assert !CodeReaches(c, start, size, 1, m);
    }
  }

  lemma ReachesAxi(c: Config, start: nat, size: nat, n: nat, m: nat)
    requires ValidConfig(c) && 0 < size && c.wordSize % size == 0
    requires start % size == 0 || n == 0 || size == 64
    requires AxiLow(start, size, n) <= m < AxiHigh(start, size, n)
    ensures CodeReaches(c, start, size, n, m)
  {
    var q, t := start - start % size, n * size;
    FloorMultiple(start, size, n);
    assert n == 0 ==> t == 0;
    LaneOfTransfer(c, size, q + t, start + t, m);
  }

  lemma FloorMultiple(start: nat, size: nat, n: nat)
    requires 0 < size
    ensures (start - start % size + n * size) % size == 0
  {
    assert start - start % size == (start / size) * size;
    MultipleMod(start / size, size);
    ModAddMultiple(start - start % size, n, size);
  }

  lemma LaneOfTransfer(c: Config, size: nat, floor: nat, a: nat, m: nat)
    requires ValidConfig(c) && 0 < size && c.wordSize % size == 0
    requires floor % size == 0 && floor <= a < floor + size && floor <= m < floor + size
    requires size == 64 || a <= m
    ensures var i := m - Align(c, a);
            0 <= i < c.wordSize && InTransfer(c, a, size, i)
  {
    TransferInWord(c, size, floor, a);
    AlignFacts(c, a);
  }

  /** An aligned transfer lies within the word of any of its bytes. */
  lemma TransferInWord(c: Config, size: nat, floor: nat, a: nat)
    requires ValidConfig(c) && 0 < size && c.wordSize % size == 0
    requires floor % size == 0 && floor <= a < floor + size
    ensures Align(c, a) <= floor && floor + size <= Align(c, a) + c.wordSize
  {
    var w := c.wordSize;
    AlignFacts(c, a);
    var word := Align(c, a);
    ModOfMod(word, w, size);
    ModAddMultiple(word, 1, w);
    ModOfMod(word + w, w, size);
    if floor < word { MultipleGap(floor, word, size); }
    MultipleGap(floor, word + w, size);
  }

  /** What reaching means: a beat stores a byte, of all those at most one memory size behind its word,
      if and only if it reaches the byte and the strobe bit of its lane is set. */
  lemma CoversIffReaches(c: Config, b: Beat, m: nat)
    requires ValidConfig(c) && Align(c, b.addr) <= m < Align(c, b.addr) + c.memSize
    ensures Covers(c, b, m % c.memSize) <==> BeatReaches(c, b.addr, b.size, m) && Bit(b.strb, m - Align(c, b.addr))
  {
    WordOfAddress(c, b.addr, m);
    SameLane(c, b, Align(c, b.addr % c.memSize), m % c.memSize, Align(c, b.addr), m);
  }

  lemma SameLane(c: Config, b: Beat, base: nat, off: nat, word: nat, m: nat)
    requires ValidConfig(c) && base == Align(c, b.addr % c.memSize) && word == Align(c, b.addr)
    requires base <= off < base + c.wordSize <==> word <= m < word + c.wordSize
    requires base <= off < base + c.wordSize ==> off - base == m - word
    requires word <= m
    ensures Covers(c, b, off) <==> BeatReaches(c, b.addr, b.size, m) && Bit(b.strb, m - word)
  {
    if base <= off < base + c.wordSize {
      assert Lane(c, b.addr, b.size, b.strb, off - base) == Lane(c, b.addr, b.size, b.strb, m - word);
    }
  }

  lemma WordOfAddress(c: Config, a: nat, m: nat)
    requires ValidConfig(c) && Align(c, a) <= m < Align(c, a) + c.memSize
    ensures var base := Align(c, a % c.memSize);
            && (base <= m % c.memSize < base + c.wordSize <==> m - Align(c, a) < c.wordSize)
            && (m - Align(c, a) < c.wordSize ==> m % c.memSize - base == m - Align(c, a))
  {
    var q, low := a / c.memSize, a % c.memSize;
    assert a == low + q * c.memSize;
    AlignShift(c, low, q);
    AddressInWord(c, a);
    OffsetInWord(c, Align(c, low), q, m);
  }

  /** Where an address less than one memory size behind an aligned word falls in the byte array. */
  lemma OffsetInWord(c: Config, base: nat, q: nat, m: nat)
    requires ValidConfig(c) && base < c.memSize && base % c.wordSize == 0
    requires base + q * c.memSize <= m < base + q * c.memSize + c.memSize
    ensures base <= m % c.memSize < base + c.wordSize <==> m - (base + q * c.memSize) < c.wordSize
    ensures m - (base + q * c.memSize) < c.wordSize ==> m % c.memSize == m - q * c.memSize
  {
    var i := m - q * c.memSize;
    WordInBounds(c, base);
    if i < c.memSize {
      DivModUnique(q, i, c.memSize);
    } else {
      Distribute(q, 1, c.memSize);
      DivModUnique(q + 1, i - c.memSize, c.memSize);
    }
  }

  lemma AddressInWord(c: Config, a: nat)
    requires ValidConfig(c)
    ensures (a % c.memSize) % c.wordSize == a % c.wordSize
    ensures Align(c, a % c.memSize) < c.memSize && Align(c, a % c.memSize) % c.wordSize == 0
  {
    ModOfMod(a, c.memSize, c.wordSize);
    AlignFacts(c, a % c.memSize);
  }

  lemma BeatStoresTransfer(c: Config, b: Beat, start: nat, n: nat, m: nat)
    requires ValidConfig(c) && 0 < b.size && c.wordSize % b.size == 0 && b.addr == start + n * b.size
    requires start % b.size == 0 || n == 0 || b.size == 64
    requires AxiLow(start, b.size, n) <= m < AxiHigh(start, b.size, n)
    ensures Covers(c, b, m % c.memSize) <==> Bit(b.strb, m % c.wordSize)
  {
    ReachesAxi(c, start, b.size, n, m);
    assert BeatReaches(c, b.addr, b.size, m);
    LaneOfByte(c, Align(c, b.addr), b.addr, m);
    CoversIffReaches(c, b, m);
  }

  /** Over a run: while one burst is in flight, and where the code follows the specification, each of its
      beats stores exactly those bytes of its transfer whose lanes are strobed. */
  lemma BurstStoresTransfers(c: Config, s: State, xs: seq<Inputs>, n: nat, m: nat)
    requires RunOk(c, s, xs) && AcceptedAw(c, s, xs) == []
    requires 0 < s.cur.size && c.wordSize % s.cur.size == 0 && s.cur.addr + s.cur.count * s.cur.size <= TWO64
    requires s.cur.addr % s.cur.size == 0 || s.cur.count == 1 || s.cur.size == 64
    requires n < |Beats(c, s, xs)| && AxiLow(s.cur.addr, s.cur.size, n) <= m < AxiHigh(s.cur.addr, s.cur.size, n)
    ensures Covers(c, Beats(c, s, xs)[n], m % c.memSize) <==> Bit(Beats(c, s, xs)[n].strb, m % c.wordSize)
  {
    BeatAddresses(c, s, xs);
    AddressBelow(s.cur.addr, s.cur.size, s.cur.count, n);
    BeatStoresTransfer(c, Beats(c, s, xs)[n], s.cur.addr, n, m);
  }

  lemma AddressBelow(start: nat, size: nat, count: nat, n: nat)
    requires 0 < size && n < count && start + count * size <= TWO64
    ensures NthAddr(start, size, n) == start + n * size
  {
    TimesMonotone(n + 1, count, size);
    Distribute(n, 1, size);
  }

  lemma LaneOfByte(c: Config, word: nat, a: nat, m: nat)
    requires ValidConfig(c) && word == Align(c, a) && word <= m < word + c.wordSize
    ensures m % c.wordSize == m - word && c.wordSize <= c.memSize
  {
    DivModUnique(a / c.wordSize, m - word, c.wordSize);
    MultipleGap(0, c.memSize, c.wordSize);
  }

  /** Two beats of eight bytes from address 4: the second transfer starts at 8, which the code misses. */
  lemma UnalignedExample()
    ensures var c := Config(16, 8, 64, Documented);
            ValidConfig(c) && AxiLow(4, 8, 1) == 8 < AxiHigh(4, 8, 1) && !CodeReaches(c, 4, 8, 1, 8) && CodeReaches(c, 4, 8, 1, 12)
  {
    assert TWO64 % 64 == 0;
  }

  // ------------------------------------------------------------------ the write as coded

  /** The two departures of the code one at a time, first the bytes copied: with its arguments in order,
      the write would meet its documented contract exactly when the bytes it should store already stand,
      lane by lane, in the first word of the memory. */
  lemma CodedBodyMeetsContract(c: Config, mem: seq<Byte>, dst: nat, src: seq<Byte>, size: nat, strb: nat)
    requires ValidConfig(c) && c.rule.AsCoded? && |mem| == c.memSize && |src| >= c.wordSize
    ensures c.wordSize <= |mem|
    ensures var coded, documented := Written(c, mem, dst, src, size, strb), Written(c.(rule := Documented), mem, dst, src, size, strb);
            coded == documented <==> (forall i :: 0 <= i < c.wordSize && Lane(c, dst, size, strb, i) ==> src[i] == mem[i])
  {
    var d := c.(rule := Documented);
    var coded, documented := Written(c, mem, dst, src, size, strb), Written(d, mem, dst, src, size, strb);
    var base := Align(c, dst % c.memSize);
    WordInBounds(c, dst);
    if coded == documented {
      forall i | 0 <= i < c.wordSize && Lane(c, dst, size, strb, i) ensures src[i] == mem[i] {
        CodedByte(c, mem, dst, src, size, strb, base + i);
      }
    }
    if forall i :: 0 <= i < c.wordSize && Lane(c, dst, size, strb, i) ==> src[i] == mem[i] {
      forall m | 0 <= m < |mem| ensures coded[m] == documented[m] {
        CodedByte(c, mem, dst, src, size, strb, m);
      }
    }
  }

  lemma CodedByte(c: Config, mem: seq<Byte>, dst: nat, src: seq<Byte>, size: nat, strb: nat, m: nat)
    requires ValidConfig(c) && c.rule.AsCoded? && |mem| == c.memSize && |src| >= c.wordSize && m < c.memSize
    ensures var base := Align(c, dst % c.memSize);
            Written(c, mem, dst, src, size, strb)[m] == Written(c.(rule := Documented), mem, dst, src, size, strb)[m]
            <==> (base <= m < base + c.wordSize && Lane(c, dst, size, strb, m - base) ==> src[m - base] == mem[m - base])
  {
    var d := c.(rule := Documented);
    var base := Align(c, dst % c.memSize);
    WordInBounds(c, dst);
    if base <= m < base + c.wordSize {
      assert Lane(c, dst, size, strb, m - base) == Lane(d, dst, size, strb, m - base);
    }
  }

  /** The byte a coded beat leaves in lane i of its word at base: strobe and size have changed places,
      and what is copied stands in the memory's first word. */
  function CodedLane(c: Config, mem: seq<Byte>, dst: nat, size: nat, strb: nat, base: nat, i: nat): Byte
    requires c.wordSize > 0 && i < c.wordSize <= |mem| && base + i < |mem|
  {
    if Lane(c, dst, strb, size, i) then mem[i] else mem[base + i]
  }

  /** The byte it should leave there. */
  function DocumentedLane(c: Config, mem: seq<Byte>, dst: nat, src: seq<Byte>, size: nat, strb: nat, base: nat, i: nat): Byte
    requires c.wordSize > 0 && i < c.wordSize <= |src| && base + i < |mem|
  {
    if Lane(c, dst, size, strb, i) then src[i] else mem[base + i]
  }

  lemma BeatBytes(c: Config, mem: seq<Byte>, dst: nat, src: seq<Byte>, size: nat, strb: nat, m: nat)
    requires ValidConfig(c) && c.rule.AsCoded? && c.wordSize <= |mem| == c.memSize && |src| >= c.wordSize && m < c.memSize
    ensures var base := Align(c, dst % c.memSize);
            var coded, documented := BeatWritten(c, mem, dst, src, size, strb)[m], BeatWritten(c.(rule := Documented), mem, dst, src, size, strb)[m];
            if base <= m < base + c.wordSize
            then coded == CodedLane(c, mem, dst, size, strb, base, m - base)
                 && documented == DocumentedLane(c, mem, dst, src, size, strb, base, m - base)
            else coded == mem[m] && documented == mem[m]
  {
    var d := c.(rule := Documented);
    var base := Align(c, dst % c.memSize);
    WordInBounds(c, dst);
    if base <= m < base + c.wordSize {
      assert Lane(c, dst, size, strb, m - base) == Lane(d, dst, size, strb, m - base);
    }
  }

  /** A W beat as coded, the swapped call included, does what a documented one does exactly when every
      lane of its word comes out the same. */
  lemma CodedBeatMeetsContract(c: Config, mem: seq<Byte>, dst: nat, src: seq<Byte>, size: nat, strb: nat)
    requires ValidConfig(c) && c.rule.AsCoded? && |mem| == c.memSize && |src| >= c.wordSize
    ensures var base := Align(c, dst % c.memSize);
            base + c.wordSize <= c.memSize &&
            (BeatWritten(c, mem, dst, src, size, strb) == BeatWritten(c.(rule := Documented), mem, dst, src, size, strb) <==>
             forall i :: 0 <= i < c.wordSize ==>
               CodedLane(c, mem, dst, size, strb, base, i) == DocumentedLane(c, mem, dst, src, size, strb, base, i))
  {
    var base := Align(c, dst % c.memSize);
    WordInBounds(c, dst);
    var coded, documented := BeatWritten(c, mem, dst, src, size, strb), BeatWritten(c.(rule := Documented), mem, dst, src, size, strb);
    forall m | 0 <= m < c.memSize
      ensures coded[m] == documented[m] <==>
              (base <= m < base + c.wordSize ==>
                 CodedLane(c, mem, dst, size, strb, base, m - base) == DocumentedLane(c, mem, dst, src, size, strb, base, m - base))
    {
      BeatBytes(c, mem, dst, src, size, strb, m);
    }
    if coded == documented {
      forall i | 0 <= i < c.wordSize
        ensures CodedLane(c, mem, dst, size, strb, base, i) == DocumentedLane(c, mem, dst, src, size, strb, base, i)
      {
        assert coded[base + i] == documented[base + i];
      }
    }
  }

  /** A transfer size is a power of two, so the swapped call takes it for a strobe with one lane set: a
      coded beat of size 2^k touches lane k of its word only, and copies lane k of the first word to it. */
  lemma CodedBeatChangesOneLane(c: Config, mem: seq<Byte>, dst: nat, src: seq<Byte>, k: nat, strb: nat, m: nat)
    requires ValidConfig(c) && c.rule.AsCoded? && |mem| == c.memSize && |src| >= c.wordSize && m < c.memSize
    ensures BeatWritten(c, mem, dst, src, Pow2(k), strb)[m] ==
            if m == Align(c, dst % c.memSize) + k && k < c.wordSize && InTransfer(c, dst, strb, k) then mem[k] else mem[m]
  {
    WordInBounds(c, dst);
    BeatBytes(c, mem, dst, src, Pow2(k), strb, m);
    var base := Align(c, dst % c.memSize);
    if base <= m < base + c.wordSize {
      BitPow2(k, m - base);
    }
  }

  /** As coded, no accepted beat, with any strobe or size, carries bus data into the memory. */
  lemma CodedBeatIgnoresBus(c: Config, mem: seq<Byte>, dst: nat, src: seq<Byte>, src': seq<Byte>, size: nat, strb: nat)
    requires ValidConfig(c) && c.rule.AsCoded? && |mem| == c.memSize && |src| >= c.wordSize && |src'| >= c.wordSize
    ensures BeatWritten(c, mem, dst, src, size, strb) == BeatWritten(c, mem, dst, src', size, strb)
  {}

  /** Concretely: one full word 1,1,1,1,1,1,1,1 written at offset 8 of a zeroed 16-byte memory with
      lane 0 strobed is stored under the documented rule and lost as coded; with all eight lanes strobed the
      coded call trips its own assertion. */
  lemma CodedBeatExample()
    ensures var d := Config(16, 8, 64, Documented);
            var mem, word := seq(16, _ => 0 as Byte), seq(8, _ => 1 as Byte);
            && ValidConfig(d)
            && BeatWritten(d, mem, 8, word, 8, 1)[8] == 1
            && BeatWritten(d.(rule := AsCoded), mem, 8, word, 8, 1) == mem
            && !BeatAccepted(d.(rule := AsCoded), 8, 255)
  {
    var d := Config(16, 8, 64, Documented);
    assert TWO64 % 64 == 0;
    var mem, word := seq(16, _ => 0 as Byte), seq(8, _ => 1 as Byte);
    assert Bit(1, 0) && Lane(d, 8, 8, 1, 0);
  }

  /** The swapped call alone loses a beat: the bytes to store already stand in the first word, so the
      coded body would do, and no assertion trips, but lane 0 is not stored. */
  lemma SwappedCallExample()
    ensures var c := Config(16, 8, 64, AsCoded);
            var d := c.(rule := Documented);
            var mem, word := seq(16, i => if i < 8 then 1 as Byte else 0), seq(8, _ => 1 as Byte);
            && ValidConfig(c) && BeatAccepted(c, 8, 1)
            && Written(c, mem, 8, word, 8, 1) == Written(d, mem, 8, word, 8, 1)
            && BeatWritten(d, mem, 8, word, 8, 1)[8] == 1 && BeatWritten(c, mem, 8, word, 8, 1)[8] == 0
  {
    var c := Config(16, 8, 64, AsCoded);
    assert TWO64 % 64 == 0;
    var mem, word := seq(16, i => if i < 8 then 1 as Byte else 0), seq(8, _ => 1 as Byte);
    CodedBodyMeetsContract(c, mem, 8, word, 8, 1);
    BeatBytes(c, mem, 8, word, 8, 1, 8);
    assert Bit(1, 0) && Lane(c, 8, 8, 1, 0) && !Bit(8, 0);
  }
}
