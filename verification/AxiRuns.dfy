/** Whole runs of the memory: what its queues and its bytes owe to the transfers accepted so far. */
module AxiRuns {
  import opened Bits
  import opened SimMemory

  /** `inFlight` tells exactly whether beats of the current write burst are outstanding. */
  ghost predicate StoreInv(s: State) {
    && (s.cur.inFlight <==> s.cur.count > 0)
    && s.cur.count < TWO64 && s.cur.addr < TWO64
  }

  ghost predicate RunOk(c: Config, s: State, xs: seq<Inputs>) {
    && ValidConfig(c) && |s.mem| == c.memSize && StoreInv(s)
    && forall i :: 0 <= i < |xs| ==> ValidInputs(c, xs[i]) && !xs[i].reset
  }

  function Front<T>(xs: seq<T>): seq<T>
    requires xs != []
  {
    xs[..|xs| - 1]
  }

  function Last<T>(xs: seq<T>): T
    requires xs != []
  {
    xs[|xs| - 1]
  }

  function Run(c: Config, s: State, xs: seq<Inputs>): (s': State)
    requires RunOk(c, s, xs)
    ensures |s'.mem| == c.memSize
    ensures StoreInv(s')
    decreases |xs|
  {
    if xs == [] then s else Step(c, Run(c, s, Front(xs)), Last(xs))
  }

  lemma Regroup<T>(popped: seq<T>, pop: seq<T>, q': seq<T>, q: seq<T>, serve: seq<T>, q0: seq<T>, served: seq<T>)
    requires pop + q' == q + serve
    requires popped + q == q0 + served
    ensures (popped + pop) + q' == q0 + (served + serve)
  {
    calc {
      (popped + pop) + q';
      popped + (pop + q');
      (popped + q) + serve;
      (q0 + served) + serve;
      q0 + (served + serve);
    }
  }

  // ------------------------------------------------------------------ write channel

  /** A W beat as the memory saw it. */
  datatype Beat = Beat(addr: nat, size: nat, data: seq<Byte>, strb: nat)

  function TakeAw(s: State, x: Inputs): seq<Inputs> {
    if AwFire(s, x) then [x] else []
  }

  function TakeW(s: State, x: Inputs): seq<Beat> {
    if WFire(s, x) then [Beat(s.cur.addr, s.cur.size, x.wData, x.wStrb)] else []
  }

  function PopB(s: State, x: Inputs): seq<nat> {
    if BFire(s, x) then [s.respQ[0]] else []
  }

  function AcceptedAw(c: Config, s: State, xs: seq<Inputs>): seq<Inputs>
    requires RunOk(c, s, xs)
    decreases |xs|
  {
    if xs == [] then [] else AcceptedAw(c, s, Front(xs)) + TakeAw(Run(c, s, Front(xs)), Last(xs))
  }

  function Beats(c: Config, s: State, xs: seq<Inputs>): (bs: seq<Beat>)
    requires RunOk(c, s, xs)
    ensures BeatsOk(c, bs)
    decreases |xs|
  {
    if xs == [] then [] else Beats(c, s, Front(xs)) + TakeW(Run(c, s, Front(xs)), Last(xs))
  }

  function PoppedB(c: Config, s: State, xs: seq<Inputs>): seq<nat>
    requires RunOk(c, s, xs)
    decreases |xs|
  {
    if xs == [] then [] else PoppedB(c, s, Front(xs)) + PopB(Run(c, s, Front(xs)), Last(xs))
  }

  ghost predicate BeatsOk(c: Config, bs: seq<Beat>) {
    forall k :: 0 <= k < |bs| ==> |bs[k].data| >= c.wordSize
  }

  function Ids(aws: seq<Inputs>): (ids: seq<nat>)
    ensures |ids| == |aws|
  {
    seq(|aws|, i requires 0 <= i < |aws| => aws[i].awId)
  }

  function BeatsOwed(aws: seq<Inputs>): nat {
    if aws == [] then 0 else BeatsOwed(Front(aws)) + Last(aws).awLen + 1
  }

  function InFlightId(s: State): seq<nat> {
    if s.cur.inFlight then [s.cur.id] else []
  }

  /** The address and the data channel are never accepted in the same tick. */
  lemma AwAndWExclude(s: State, x: Inputs)
    ensures !(AwFire(s, x) && WFire(s, x))
  {}

  lemma StepWrites(c: Config, s: State, x: Inputs)
    requires WellSized(c, s, x) && StoreInv(s) && !x.reset
    ensures var s' := Step(c, s, x);
            && s.respQ + InFlightId(s) + Ids(TakeAw(s, x)) == PopB(s, x) + (s'.respQ + InFlightId(s'))
            && s.cur.count + BeatsOwed(TakeAw(s, x)) == |TakeW(s, x)| + s'.cur.count
  {
    var s' := Step(c, s, x);
    var q := if WFire(s, x) && s.cur.count == 1 then s.respQ + [s.cur.id] else s.respQ;
    assert q + InFlightId(s') == s.respQ + InFlightId(s) + Ids(TakeAw(s, x));
    if BFire(s, x) {
      assert q == [s.respQ[0]] + s'.respQ;
    }
  }

  lemma OwedAndIdsAppend(a: seq<Inputs>, b: seq<Inputs>)
    requires |b| <= 1
    ensures Ids(a + b) == Ids(a) + Ids(b)
    ensures BeatsOwed(a + b) == BeatsOwed(a) + BeatsOwed(b)
  {
    if b == [] {
      assert a + b == a;
    } else {
      assert Front(a + b) == a;
    }
  }

  /** No write response is lost, invented, reordered, or sent before its last beat: the accepted ids
      are those answered, those waiting in the queue and the one still in flight, in this order; and
      every beat owed by the accepted bursts has been stored except those still counted. */
  lemma {:induction false} WriteConservation(c: Config, s: State, xs: seq<Inputs>)
    requires RunOk(c, s, xs)
    ensures var s' := Run(c, s, xs);
            && PoppedB(c, s, xs) + (s'.respQ + InFlightId(s'))
               == (s.respQ + InFlightId(s)) + Ids(AcceptedAw(c, s, xs))
            && |Beats(c, s, xs)| + s'.cur.count == s.cur.count + BeatsOwed(AcceptedAw(c, s, xs))
    decreases |xs|
  {
    if xs != [] {
      var ys, x, post := Front(xs), Last(xs), Run(c, s, xs);
      WriteConservation(c, s, ys);
      var pre := Run(c, s, ys);
      StepWrites(c, pre, x);
      OwedAndIdsAppend(AcceptedAw(c, s, ys), TakeAw(pre, x));
      Regroup(PoppedB(c, s, ys), PopB(pre, x), post.respQ + InFlightId(post),
              pre.respQ + InFlightId(pre), Ids(TakeAw(pre, x)),
              s.respQ + InFlightId(s), Ids(AcceptedAw(c, s, ys)));
    }
  }

  // ------------------------------------------------------------------ bytes

  function ApplyBeats(c: Config, mem: seq<Byte>, bs: seq<Beat>): (mem': seq<Byte>)
    requires ValidConfig(c) && |mem| == c.memSize
    requires BeatsOk(c, bs)
    ensures |mem'| == |mem|
    decreases |bs|
  {
    if bs == [] then mem
    else
      var b := Last(bs);
      BeatWritten(c, ApplyBeats(c, mem, Front(bs)), b.addr, b.data, b.size, b.strb)
  }

  lemma StepMem(c: Config, s: State, x: Inputs)
    requires WellSized(c, s, x) && !x.reset
    ensures Step(c, s, x).mem == ApplyBeats(c, s.mem, TakeW(s, x))
  {
    if WFire(s, x) { assert Front(TakeW(s, x)) == []; }
  }

  lemma ApplyAppend(c: Config, mem: seq<Byte>, bs: seq<Beat>, b: seq<Beat>)
    requires ValidConfig(c) && |mem| == c.memSize && BeatsOk(c, bs) && BeatsOk(c, b) && |b| <= 1
    ensures BeatsOk(c, bs + b) && ApplyBeats(c, mem, bs + b) == ApplyBeats(c, ApplyBeats(c, mem, bs), b)
  {
    if b == [] {
      assert bs + b == bs;
    } else {
      assert Front(bs + b) == bs && Front(b) == [];
    }
  }

  /** The bytes of the memory are those of the start with the accepted beats written over them. */
  lemma {:induction false} MemoryIsBeats(c: Config, s: State, xs: seq<Inputs>)
    requires RunOk(c, s, xs)
    ensures Run(c, s, xs).mem == ApplyBeats(c, s.mem, Beats(c, s, xs))
    decreases |xs|
  {
    if xs != [] {
      var ys := Front(xs);
      MemoryIsBeats(c, s, ys);
      StepMem(c, Run(c, s, ys), Last(xs));
      ApplyAppend(c, s.mem, Beats(c, s, ys), TakeW(Run(c, s, ys), Last(xs)));
    }
  }

  /** Does beat b store memory byte m? */
  predicate Covers(c: Config, b: Beat, m: nat)
    requires ValidConfig(c)
  {
    var base := Align(c, b.addr % c.memSize);
    base <= m < base + c.wordSize && Lane(c, b.addr, b.size, b.strb, m - base)
  }

  function StoredByte(c: Config, b: Beat, m: nat): Byte
    requires ValidConfig(c) && |b.data| >= c.wordSize && Covers(c, b, m)
  {
    b.data[m - Align(c, b.addr % c.memSize)]
  }

  lemma BeatByte(c: Config, mem: seq<Byte>, b: Beat, m: nat)
    requires ValidConfig(c) && c.rule.Documented? && |mem| == c.memSize && m < c.memSize && |b.data| >= c.wordSize
    ensures BeatWritten(c, mem, b.addr, b.data, b.size, b.strb)[m] == if Covers(c, b, m) then StoredByte(c, b, m) else mem[m]
  {}

  /** A byte holds what the last beat covering it stored, or its old value if none covers it. */
  lemma {:induction false} ByteAfterBeats(c: Config, mem: seq<Byte>, bs: seq<Beat>, m: nat)
    requires ValidConfig(c) && c.rule.Documented? && |mem| == c.memSize && m < c.memSize
    requires BeatsOk(c, bs)
    ensures (forall k :: 0 <= k < |bs| ==> !Covers(c, bs[k], m)) ==> ApplyBeats(c, mem, bs)[m] == mem[m]
    ensures forall k :: 0 <= k < |bs| && Covers(c, bs[k], m) && (forall j :: k < j < |bs| ==> !Covers(c, bs[j], m))
                        ==> ApplyBeats(c, mem, bs)[m] == StoredByte(c, bs[k], m)
    decreases |bs|
  {
    if bs != [] {
      var init := Front(bs);
      ByteAfterBeats(c, mem, init, m);
      BeatByte(c, ApplyBeats(c, mem, init), Last(bs), m);
      assert forall k :: 0 <= k < |init| ==> init[k] == bs[k];
    }
  }

  /** Address of the n-th beat, in the 64-bit arithmetic of the in-flight store. */
  function NthAddr(a: nat, size: nat, n: nat): nat {
    (a + n * size) % TWO64
  }

  /** At most one beat took the in-flight store from pre to post. */
  ghost predicate OneBeat(pre: InFlightStore, w: seq<Beat>, post: InFlightStore) {
    && |w| <= 1 && |w| + post.count == pre.count && post.size == pre.size && post.id == pre.id
    && post.addr == (if w == [] then pre.addr else NthAddr(pre.addr, pre.size, 1))
    && (w != [] ==> w[0].addr == pre.addr && w[0].size == pre.size)
  }

  lemma StepAddress(c: Config, s: State, x: Inputs)
    requires WellSized(c, s, x) && StoreInv(s) && !x.reset && TakeAw(s, x) == []
    ensures OneBeat(s.cur, TakeW(s, x), Step(c, s, x).cur)
  {}

  /** The beats go to successive addresses, one transfer size apart. */
  ghost predicate Successive(bs: seq<Beat>, addr: nat, size: nat) {
    forall k :: 0 <= k < |bs| ==> bs[k].size == size && bs[k].addr == NthAddr(addr, size, k)
  }

  /** The beats bs took the in-flight store from cur to cur'. */
  ghost predicate BurstProgress(cur: InFlightStore, bs: seq<Beat>, cur': InFlightStore) {
    && |bs| + cur'.count == cur.count && cur'.size == cur.size && cur'.id == cur.id
    && cur'.addr == NthAddr(cur.addr, cur.size, |bs|)
    && Successive(bs, cur.addr, cur.size)
  }

  /** While one burst is in flight and no new address is accepted, its beats go to successive
      addresses, one transfer size apart. */
  lemma {:induction false} BeatAddresses(c: Config, s: State, xs: seq<Inputs>)
    requires RunOk(c, s, xs) && AcceptedAw(c, s, xs) == []
    ensures BurstProgress(s.cur, Beats(c, s, xs), Run(c, s, xs).cur)
    decreases |xs|
  {
    if xs != [] {
      var ys, x := Front(xs), Last(xs);
      BeatAddresses(c, s, ys);
      var pre := Run(c, s, ys);
      StepAddress(c, pre, x);
      ExtendBurst(s.cur, Beats(c, s, ys), pre.cur, TakeW(pre, x), Run(c, s, xs).cur);
    }
  }

  lemma ExtendBurst(cur: InFlightStore, bs: seq<Beat>, pre: InFlightStore, w: seq<Beat>, post: InFlightStore)
    requires BurstProgress(cur, bs, pre) && OneBeat(pre, w, post)
    ensures BurstProgress(cur, bs + w, post)
  {
    NextAddress(cur.addr, cur.size, |bs|);
    SuccessiveAppend(bs, w, cur.addr, cur.size);
  }

  lemma SuccessiveAppend(bs: seq<Beat>, w: seq<Beat>, addr: nat, size: nat)
    requires Successive(bs, addr, size) && |w| <= 1
    requires w != [] ==> w[0].size == size && w[0].addr == NthAddr(addr, size, |bs|)
    ensures Successive(bs + w, addr, size)
  {}

  lemma NextAddress(a: nat, size: nat, n: nat)
    ensures NthAddr(NthAddr(a, size, n), size, 1) == NthAddr(a, size, n + 1)
  {
    var b := a + n * size;
    assert a + (n + 1) * size == b + size;
    ModAddMultiple(b % TWO64 + size, b / TWO64, TWO64);
  }

  // ------------------------------------------------------------------ reads

  function PopR(s: State, x: Inputs): seq<MemReadResponse> {
    if RFire(s, x) then [s.readQ[0]] else []
  }

  function ServeR(c: Config, s: State, x: Inputs): seq<MemReadResponse>
    requires ValidConfig(c) && |s.mem| == c.memSize
  {
    if x.arValid then Burst(c, s.mem, x) else []
  }

  /** Beats the master has taken, in order. */
  function Popped(c: Config, s: State, xs: seq<Inputs>): seq<MemReadResponse>
    requires RunOk(c, s, xs)
    decreases |xs|
  {
    if xs == [] then []
    else
      Popped(c, s, Front(xs)) + PopR(Run(c, s, Front(xs)), Last(xs))
  }

  /** One burst per accepted AR, in acceptance order, each an atomic read of a plain byte memory: the
      bytes of the start with the W beats accepted in earlier ticks written over them. */
  function Served(c: Config, s: State, xs: seq<Inputs>): seq<MemReadResponse>
    requires RunOk(c, s, xs)
    decreases |xs|
  {
    if xs == [] then []
    else
      Served(c, s, Front(xs)) +
      if Last(xs).arValid then Burst(c, ApplyBeats(c, s.mem, Beats(c, s, Front(xs))), Last(xs)) else []
  }

  lemma StepReads(c: Config, s: State, x: Inputs)
    requires WellSized(c, s, x) && !x.reset
    ensures PopR(s, x) + Step(c, s, x).readQ == s.readQ + ServeR(c, s, x)
  {}

  /** The beats taken, followed by those queued, are those queued at the start followed by one burst per
      request: no read beat is lost, invented, repeated or reordered, and none sees a torn memory. */
  lemma {:induction false} ReadsRefineAtomicMemory(c: Config, s: State, xs: seq<Inputs>)
    requires RunOk(c, s, xs)
    ensures Popped(c, s, xs) + Run(c, s, xs).readQ == s.readQ + Served(c, s, xs)
    decreases |xs|
  {
    if xs != [] {
      var ys, x := Front(xs), Last(xs);
      ReadsRefineAtomicMemory(c, s, ys);
      MemoryIsBeats(c, s, ys);
      var pre := Run(c, s, ys);
      StepReads(c, pre, x);
      Regroup(Popped(c, s, ys), PopR(pre, x), Run(c, s, xs).readQ, pre.readQ, ServeR(c, pre, x), s.readQ, Served(c, s, ys));
    }
  }

  /** A burst has arLen + 1 beats, all with the request's id, `last` on the final one only; beat k
      carries the k-th word from the aligned start, modulo the memory size and inside it. */
  lemma BurstShape(c: Config, mem: seq<Byte>, x: Inputs, k: nat)
    requires ValidConfig(c) && |mem| == c.memSize && k <= x.arLen
    ensures |Burst(c, mem, x)| == x.arLen + 1
    ensures var b := Burst(c, mem, x)[k];
            var o := (Align(c, x.arAddr) + k * c.wordSize) % TWO64 % c.memSize;
            && b.id == x.arId && (b.last <==> k == x.arLen)
            && o % c.wordSize == 0 && o + c.wordSize <= c.memSize
            && |b.data| == c.wordSize
            && forall i :: 0 <= i < c.wordSize ==> b.data[i] == mem[o + i]
  {
    var o := BeatOffset(c, x.arAddr, k);
  }
}
