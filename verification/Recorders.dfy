/** The address recorders attached to the architectural simulator. */
module Recorders {
  import opened Bits
  import opened Repeats
  import opened Wrappers

  datatype AccessType = LOAD | STORE | FETCH

  /** The i-th byte address of an access, in 64-bit arithmetic. */
  function At(addr: nat, i: nat): nat {
    (addr + i) % TWO64
  }

  function Span(addr: nat, n: nat): set<nat> {
    set i | 0 <= i < n :: At(addr, i)
  }

  lemma SpanNext(addr: nat, i: nat)
    ensures Span(addr, i + 1) == Span(addr, i) + {At(addr, i)}
  {
    assert forall x :: x in Span(addr, i + 1) ==> x in Span(addr, i) + {At(addr, i)};
    assert forall x :: x in Span(addr, i) ==> x in Span(addr, i + 1);
    assert At(addr, i) in Span(addr, i + 1);
  }

  /** Is the byte one of n from addr on, going round at 2^64? */
  predicate InSpan(b: nat, addr: nat, n: nat) {
    b < TWO64 && (b + TWO64 - addr % TWO64) % TWO64 < n
  }

  lemma SpanIff(b: nat, addr: nat, n: nat)
    ensures b in Span(addr, n) <==> InSpan(b, addr, n)
  {
    if b in Span(addr, n) {
      var i :| 0 <= i < n && At(addr, i) == b;
      OffsetOfByte(addr, i);
    }
    if InSpan(b, addr, n) {
      ByteAtOffset(addr, b);
    }
  }

  lemma OffsetOfByte(addr: nat, i: nat)
    ensures At(addr, i) < TWO64 && (At(addr, i) + TWO64 - addr % TWO64) % TWO64 == i % TWO64 <= i
  {}

  lemma ByteAtOffset(addr: nat, b: nat)
    requires b < TWO64
    ensures At(addr, (b + TWO64 - addr % TWO64) % TWO64) == b
  {}

  /** Without wrap-around, that is what it seems. */
  lemma PlainSpan(b: nat, addr: nat, n: nat)
    requires addr + n <= TWO64
    ensures InSpan(b, addr, n) <==> addr <= b < addr + n
  {}

  // ------------------------------------------------------------------ the program image

  class FileMem {
    const mem: array<Byte>

    constructor (size: nat)
      ensures fresh(mem) && mem.Length == size
    {
      mem := new Byte[size];
    }

    /** Copy as much of the buffer as fits; the rest of the memory, and all of it when there is no
        buffer, stays as it is. The result is the length asked for, not the length copied. */
    method LoadProgram(buf: Option<seq<Byte>>) returns (len: nat)
      modifies mem
      ensures len == |buf.GetOr([])|
      ensures forall k :: 0 <= k < mem.Length ==> mem[k] == if k < len then buf.value[k] else old(mem[k])
    {
      if buf.None? {
        return 0;
      }
      forall k | 0 <= k < mem.Length && k < |buf.value| {
        mem[k] := buf.value[k];
      }
      return |buf.value|;
    }
  }

  // ------------------------------------------------------------------ loads and stores

  datatype MemRecord = MemRecord(loads: set<nat>, stores: set<nat>)

  function Recorded(r: MemRecord, addr: nat, n: nat, kind: AccessType): MemRecord {
    match kind
    case STORE => r.(stores := r.stores + Span(addr, n))
    case LOAD => r.(loads := r.loads + (Span(addr, n) - r.stores))
    case FETCH => r
  }

  class MemRecorder {
    var loads: set<nat>
    var stores: set<nat>

    constructor ()
      ensures Abs() == MemRecord({}, {})
    {
      loads, stores := {}, {};
    }

    function Abs(): MemRecord
      reads this
    {
      MemRecord(loads, stores)
    }

    method Trace(addr: nat, bytes: nat, kind: AccessType)
      modifies this
      ensures Abs() == Recorded(old(Abs()), addr, bytes, kind)
    {
      if kind == STORE {
        for i := 0 to bytes
          invariant loads == old(loads) && stores == old(stores) + Span(addr, i)
        {
          SpanNext(addr, i);
          stores := stores + {At(addr, i)};
        }
      }
      if kind == LOAD {
        for i := 0 to bytes
          invariant stores == old(stores) && loads == old(loads) + (Span(addr, i) - stores)
        {
          SpanNext(addr, i);
          if At(addr, i) !in stores {
            loads := loads + {At(addr, i)};
          }
        }
      }
    }

    method Reset()
      modifies this
      ensures Abs() == MemRecord({}, {})
    {
      loads, stores := {}, {};
    }
  }

  /** Multi-byte loads and stores, as the simulated program issues them. */
  datatype MemOp = Load(addr: nat, n: nat) | Store(addr: nat, data: seq<Byte>)

  function Kind(op: MemOp): AccessType {
    if op.Load? then LOAD else STORE
  }

  function OpSpan(op: MemOp): set<nat> {
    if op.Load? then Span(op.addr, op.n) else Span(op.addr, |op.data|)
  }

  function RecordOp(r: MemRecord, op: MemOp): MemRecord {
    Recorded(r, op.addr, if op.Load? then op.n else |op.data|, Kind(op))
  }

  function RecordAll(ops: seq<MemOp>): MemRecord {
    if ops == [] then MemRecord({}, {}) else RecordOp(RecordAll(ops[..|ops| - 1]), ops[|ops| - 1])
  }

  ghost predicate TouchedBefore(ops: seq<MemOp>, k: nat, b: nat)
    requires k <= |ops|
  {
    exists j :: 0 <= j < k && b in OpSpan(ops[j])
  }

  ghost predicate FirstAccessIsLoad(ops: seq<MemOp>, b: nat) {
    exists k :: 0 <= k < |ops| && ops[k].Load? && b in OpSpan(ops[k]) && !TouchedBefore(ops, k, b)
  }

  /** A byte is recorded as loaded exactly when its first access was a load; the two sets together are
      the bytes touched. */
  lemma {:induction false} RecorderIsExact(ops: seq<MemOp>, b: nat)
    ensures b in RecordAll(ops).loads <==> FirstAccessIsLoad(ops, b)
    ensures b in RecordAll(ops).loads + RecordAll(ops).stores <==> TouchedBefore(ops, |ops|, b)
  {
    if ops != [] {
      var n := |ops| - 1;
      var init, op := ops[..n], ops[n];
      RecorderIsExact(init, b);
      forall k | 0 <= k <= n ensures TouchedBefore(init, k, b) <==> TouchedBefore(ops, k, b) {
        PrefixTouched(ops, n, k, b);
      }
      assert TouchedBefore(ops, |ops|, b) <==> TouchedBefore(init, n, b) || b in OpSpan(op);
      FirstLoadAppend(ops, b);
    }
  }

  lemma PrefixTouched(ops: seq<MemOp>, n: nat, k: nat, b: nat)
    requires k <= n <= |ops|
    ensures TouchedBefore(ops[..n], k, b) <==> TouchedBefore(ops, k, b)
  {
    assert forall j :: 0 <= j < k ==> ops[..n][j] == ops[j];
  }

  lemma FirstLoadAppend(ops: seq<MemOp>, b: nat)
    requires ops != []
    ensures var n := |ops| - 1;
            FirstAccessIsLoad(ops, b) <==>
            FirstAccessIsLoad(ops[..n], b) || (ops[n].Load? && b in OpSpan(ops[n]) && !TouchedBefore(ops, n, b))
  {
    var n := |ops| - 1;
    forall k | 0 <= k <= n ensures TouchedBefore(ops[..n], k, b) <==> TouchedBefore(ops, k, b) {
      PrefixTouched(ops, n, k, b);
    }
    assert forall k :: 0 <= k < n ==> ops[..n][k] == ops[k];
  }

  // ------------------------------------------------------------------ values

  /** Initial memory contents. */
  type Image = nat -> Byte

  /** Bytes stored since the start. */
  type Overlay = map<nat, Byte>

  function ReadByte(img: Image, o: Overlay, a: nat): Byte {
    if a in o then o[a] else img(a)
  }

  function ReadSpan(img: Image, o: Overlay, addr: nat, n: nat): (v: seq<Byte>)
    ensures |v| == n
  {
    seq(n, i requires 0 <= i => ReadByte(img, o, At(addr, i)))
  }

  /** Bytes are stored in increasing order, so a store longer than the address space keeps its last bytes. */
  function StoreSpan(o: Overlay, addr: nat, data: seq<Byte>): (o': Overlay)
    ensures o'.Keys == o.Keys + Span(addr, |data|)
  {
    if data == [] then o
    else
      SpanNext(addr, |data| - 1);
      StoreSpan(o, addr, data[..|data| - 1])[At(addr, |data| - 1) := data[|data| - 1]]
  }

  /** A store leaves its bytes one after the other and every other byte as it was. */
  lemma {:induction false} StoredByte(o: Overlay, addr: nat, data: seq<Byte>, i: nat)
    requires i < |data| <= TWO64
    ensures At(addr, i) in StoreSpan(o, addr, data).Keys && StoreSpan(o, addr, data)[At(addr, i)] == data[i]
  {
    var n := |data| - 1;
    var before, after := StoreSpan(o, addr, data[..n]), StoreSpan(o, addr, data);
    LastByteStored(o, addr, data);
    if i < n {
      StoredByte(o, addr, data[..n], i);
      BytesApart(addr, i, n);
      assert after[At(addr, i)] == before[At(addr, i)] == data[..n][i];
    }
  }

  lemma LastByteStored(o: Overlay, addr: nat, data: seq<Byte>)
    requires data != []
    ensures var n := |data| - 1;
            StoreSpan(o, addr, data) == StoreSpan(o, addr, data[..n])[At(addr, n) := data[n]]
  {}

  lemma {:induction false} UnstoredByte(o: Overlay, addr: nat, data: seq<Byte>, b: nat)
    requires b !in Span(addr, |data|)
    ensures b in StoreSpan(o, addr, data) <==> b in o
    ensures b in o ==> StoreSpan(o, addr, data)[b] == o[b]
  {
    if data != [] {
      SpanNext(addr, |data| - 1);
      UnstoredByte(o, addr, data[..|data| - 1], b);
    }
  }

  lemma BytesApart(addr: nat, i: nat, j: nat)
    requires i < j < TWO64
    ensures At(addr, i) != At(addr, j)
  {
    OffsetOfByte(addr, i);
    OffsetOfByte(addr, j);
  }

  /** So a load of the same bytes returns what was stored, whatever the initial memory. */
  lemma LoadSeesStore(img: Image, o: Overlay, addr: nat, data: seq<Byte>)
    requires |data| <= TWO64
    ensures ReadSpan(img, StoreSpan(o, addr, data), addr, |data|) == data
  {
    var v := ReadSpan(img, StoreSpan(o, addr, data), addr, |data|);
    forall i | 0 <= i < |data| ensures v[i] == data[i] {
      StoredByte(o, addr, data, i);
    }
  }

  function OverlayOf(ops: seq<MemOp>): (o: Overlay) {
    if ops == [] then map[]
    else
      var o, op := OverlayOf(ops[..|ops| - 1]), ops[|ops| - 1];
      if op.Store? then StoreSpan(o, op.addr, op.data) else o
  }

  /** The values returned by the loads of a sequence. */
  function LoadValues(img: Image, ops: seq<MemOp>): seq<seq<Byte>> {
    if ops == [] then []
    else
      var init, op := ops[..|ops| - 1], ops[|ops| - 1];
      LoadValues(img, init) + if op.Load? then [ReadSpan(img, OverlayOf(init), op.addr, op.n)] else []
  }

  ghost predicate AgreeOn(img: Image, img': Image, s: set<nat>) {
    forall b :: b in s ==> img(b) == img'(b)
  }

  lemma AgreeOnUnion(img: Image, img': Image, s: set<nat>, t: set<nat>)
    ensures AgreeOn(img, img', s + t) <==> AgreeOn(img, img', s) && AgreeOn(img, img', t)
  {}

  /** Reading the same span over the same stores gives the same bytes exactly when the images agree on
      the part of the span never stored to. */
  lemma SameRead(img: Image, img': Image, o: Overlay, addr: nat, n: nat)
    ensures ReadSpan(img, o, addr, n) == ReadSpan(img', o, addr, n) <==> AgreeOn(img, img', Span(addr, n) - o.Keys)
  {
    var v, v' := ReadSpan(img, o, addr, n), ReadSpan(img', o, addr, n);
    if v == v' {
      forall b | b in Span(addr, n) - o.Keys ensures img(b) == img'(b) {
        var i :| 0 <= i < n && At(addr, i) == b;
        assert v[i] == v'[i];
      }
    }
    if AgreeOn(img, img', Span(addr, n) - o.Keys) {
      forall i | 0 <= i < n ensures v[i] == v'[i] {
        assert At(addr, i) in Span(addr, n);
      }
    }
  }

  lemma {:induction false} OverlayIsStores(ops: seq<MemOp>)
    ensures OverlayOf(ops).Keys == RecordAll(ops).stores
  {
    if ops != [] { OverlayIsStores(ops[..|ops| - 1]); }
  }

  /** The recorded loads are exactly the live-in bytes: two initial images give the same loaded values
      if and only if they agree on every byte in `loads`. */
  lemma {:induction false} LoadsAreLiveIn(img: Image, img': Image, ops: seq<MemOp>)
    ensures LoadValues(img, ops) == LoadValues(img', ops) <==> AgreeOn(img, img', RecordAll(ops).loads)
  {
    if ops != [] {
      var init, op := ops[..|ops| - 1], ops[|ops| - 1];
      LoadsAreLiveIn(img, img', init);
      OverlayIsStores(init);
      if op.Load? {
        var o, unstored := OverlayOf(init), Span(op.addr, op.n) - RecordAll(init).stores;
        SameRead(img, img', o, op.addr, op.n);
        AgreeOnUnion(img, img', RecordAll(init).loads, unstored);
        LoadCount(img, img', init);
        AppendEqual(LoadValues(img, init), ReadSpan(img, o, op.addr, op.n),
                    LoadValues(img', init), ReadSpan(img', o, op.addr, op.n));
        assert RecordAll(ops).loads == RecordAll(init).loads + unstored;
      } else {
        assert LoadValues(img, ops) == LoadValues(img, init) && LoadValues(img', ops) == LoadValues(img', init);
      }
    }
  }

  lemma AppendEqual<T>(v: seq<T>, x: T, v': seq<T>, x': T)
    requires |v| == |v'|
    ensures v + [x] == v' + [x'] <==> v == v' && x == x'
  {
    if v + [x] == v' + [x'] {
      assert (v + [x])[..|v|] == v && (v' + [x'])[..|v|] == v';
      assert (v + [x])[|v|] == x && (v' + [x'])[|v|] == x';
    }
  }

  lemma {:induction false} LoadCount(img: Image, img': Image, ops: seq<MemOp>)
    ensures |LoadValues(img, ops)| == |LoadValues(img', ops)|
  {
    if ops != [] { LoadCount(img, img', ops[..|ops| - 1]); }
  }

  // ------------------------------------------------------------------ fetches

  datatype FetchRecord = FetchRecord(seen: Counter, stuck: bool, fetches: set<nat>)

  function Fetched(r: FetchRecord, addr: nat, n: nat): FetchRecord {
    var seen := Count(r.seen, addr);
    FetchRecord(seen, r.stuck || seen.n > 10, r.fetches + Span(addr, n))
  }

  class FetchRecorder {
    var lastAccessed: nat
    var nSameInst: nat
    var stuck: bool
    var fetches: set<nat>

    constructor ()
      ensures Abs() == FetchRecord(Counter(0, 0), false, {})
    {
      lastAccessed, nSameInst, stuck, fetches := 0, 0, false, {};
    }

    function Abs(): FetchRecord
      reads this
    {
      FetchRecord(Counter(lastAccessed, nSameInst), stuck, fetches)
    }

    method Trace(addr: nat, bytes: nat, kind: AccessType)
      modifies this
      ensures Abs() == if kind == FETCH then Fetched(old(Abs()), addr, bytes) else old(Abs())
    {
      if kind == FETCH {
        for i := 0 to bytes
          invariant lastAccessed == old(lastAccessed) && nSameInst == old(nSameInst) && stuck == old(stuck)
          invariant fetches == old(fetches) + Span(addr, i)
        {
          SpanNext(addr, i);
          fetches := fetches + {At(addr, i)};
        }
        if addr == lastAccessed {
          nSameInst := nSameInst + 1;
        } else {
          nSameInst := 0;
          lastAccessed := addr;
        }
        if nSameInst > 10 {
          stuck := true;
        }
      }
    }

    /** The reset forgets the addresses, but neither the repeat counter nor the verdict. */
    method Reset()
      modifies this
      ensures Abs() == old(Abs()).(fetches := {})
    {
      fetches := {};
    }
  }

  function FetchAll(hist: seq<(nat, nat)>): FetchRecord {
    if hist == [] then FetchRecord(Counter(0, 0), false, {})
    else Fetched(FetchAll(hist[..|hist| - 1]), hist[|hist| - 1].0, hist[|hist| - 1].1)
  }

  function FetchAddrs(hist: seq<(nat, nat)>): (as_: seq<nat>)
    ensures |as_| == |hist|
  {
    seq(|hist|, i requires 0 <= i < |hist| => hist[i].0)
  }

  /** The bytes recorded are those of the fetches made. */
  lemma {:induction false} FetchesIff(hist: seq<(nat, nat)>, b: nat)
    ensures b in FetchAll(hist).fetches <==> exists i :: 0 <= i < |hist| && InSpan(b, hist[i].0, hist[i].1)
  {
    if hist != [] {
      var n := |hist| - 1;
      FetchesIff(hist[..n], b);
      SpanIff(b, hist[n].0, hist[n].1);
      assert forall i :: 0 <= i < n ==> hist[..n][i] == hist[i];
    }
  }

  /** Twelve equal addresses in a row, somewhere in the history with a virtual first fetch of 0. */
  ghost predicate HasRepeat(addrs: seq<nat>) {
    exists m :: 0 <= m <= |addrs| && EndsEqual([0] + addrs[..m], 12)
  }

  /** From a fresh recorder, `stuck` holds exactly when some instruction was fetched twelve times in a row. */
  lemma {:induction false} FetchStuckIffRepeat(hist: seq<(nat, nat)>)
    ensures FetchAll(hist).seen == CountAll(Counter(0, 0), FetchAddrs(hist))
    ensures FetchAll(hist).stuck <==> HasRepeat(FetchAddrs(hist))
  {
    var addrs := FetchAddrs(hist);
    CounterMeasuresRun(Counter(0, 0), addrs, 12);
    assert addrs[..|addrs|] == addrs;
    if hist == [] {
    } else {
      var n := |hist| - 1;
      FetchStuckIffRepeat(hist[..n]);
      var init := FetchAddrs(hist[..n]);
      assert addrs[..n] == init;
      forall m | 0 <= m <= n ensures init[..m] == addrs[..m] {}
      if m :| 0 <= m <= |addrs| && EndsEqual([0] + addrs[..m], 12) {
        if m <= n { assert EndsEqual([0] + init[..m], 12); }
      }
      if HasRepeat(init) {
        var m :| 0 <= m <= |init| && EndsEqual([0] + init[..m], 12);
        assert EndsEqual([0] + addrs[..m], 12);
      }
    }
  }
}
