/** The simulation driver's side of the DRAM: loading the program image and deciding which bytes are secret. */
module Simulator {
  import opened Bits
  import opened Wrappers

  datatype TaintSource = ALL | MEMORY | STORE_BUFFER | LOAD_QUEUE | LFB | UNKNOWN

  /** [first, second) in absolute addresses. */
  datatype Region = Region(first: nat, second: nat)

  function GetNextTaintSource(src: TaintSource): TaintSource {
    if src == ALL then STORE_BUFFER else UNKNOWN
  }

  // ------------------------------------------------------------------ values of the two arrays

  function Marked(l: seq<bool>, start: int, len: int, lbl: bool): (l': seq<bool>)
    ensures |l'| == |l|
  {
    seq(|l|, k requires 0 <= k < |l| => if start <= k < start + len then lbl else l[k])
  }

  function Copied(d: seq<Byte>, start: int, buf: seq<Byte>): (d': seq<Byte>)
    ensures |d'| == |d|
  {
    seq(|d|, k requires 0 <= k < |d| => if start <= k < start + |buf| then buf[k - start] else d[k])
  }

  /** The aligned 8-byte group of a DRAM offset. */
  function Group(offset: nat): nat {
    offset - offset % 8
  }

  /** Does one of the first n addresses fall in DRAM, in the same group as this offset? */
  predicate ArchGroup(baseAddr: nat, memSize: nat, addrs: seq<nat>, n: nat, offset: nat)
    requires n <= |addrs|
  {
    n > 0 && ((baseAddr <= addrs[n - 1] < baseAddr + memSize && Group(addrs[n - 1] - baseAddr) == Group(offset))
              || ArchGroup(baseAddr, memSize, addrs, n - 1, offset))
  }

  lemma {:induction false} ArchGroupIff(baseAddr: nat, memSize: nat, addrs: seq<nat>, n: nat, offset: nat)
    requires n <= |addrs|
    ensures ArchGroup(baseAddr, memSize, addrs, n, offset) <==>
            exists i :: 0 <= i < n && baseAddr <= addrs[i] < baseAddr + memSize && (addrs[i] - baseAddr) / 8 == offset / 8
  {
    if n > 0 {
      ArchGroupIff(baseAddr, memSize, addrs, n - 1, offset);
      if addrs[n - 1] >= baseAddr { SameGroup(addrs[n - 1] - baseAddr, offset); }
    }
  }

  lemma SameGroup(a: nat, b: nat)
    ensures Group(a) == Group(b) <==> a / 8 == b / 8
  {
    assert Group(a) == 8 * (a / 8) && Group(b) == 8 * (b / 8);
  }

  /** Does an address of the list fall in DRAM, in the same aligned 8 bytes as this offset? */
  ghost predicate Touches(baseAddr: nat, memSize: nat, addrs: seq<nat>, offset: nat) {
    exists a :: a in addrs && baseAddr <= a < baseAddr + memSize && (a - baseAddr) / 8 == offset / 8
  }

  lemma TouchesIff(baseAddr: nat, memSize: nat, addrs: seq<nat>, offset: nat)
    ensures ArchGroup(baseAddr, memSize, addrs, |addrs|, offset) <==> Touches(baseAddr, memSize, addrs, offset)
  {
    ArchGroupIff(baseAddr, memSize, addrs, |addrs|, offset);
    if ArchGroup(baseAddr, memSize, addrs, |addrs|, offset) {
      var i :| 0 <= i < |addrs| && baseAddr <= addrs[i] < baseAddr + memSize && (addrs[i] - baseAddr) / 8 == offset / 8;
      assert addrs[i] in addrs;
    } else if a :| a in addrs && baseAddr <= a < baseAddr + memSize && (a - baseAddr) / 8 == offset / 8 {
      var i :| 0 <= i < |addrs| && addrs[i] == a;
    }
  }

  /** The secret bytes after set-up of an ALL pass. */
  predicate Secret(baseAddr: nat, memSize: nat, insts: seq<nat>, addrs: seq<nat>, offset: nat) {
    !ArchGroup(baseAddr, memSize, insts, |insts|, offset) && !ArchGroup(baseAddr, memSize, addrs, |addrs|, offset)
  }

  /** A byte is secret exactly when no reported address of the DRAM lies in its aligned 8 bytes. */
  lemma SecretIff(baseAddr: nat, memSize: nat, insts: seq<nat>, addrs: seq<nat>, offset: nat)
    ensures Secret(baseAddr, memSize, insts, addrs, offset) <==>
            forall a :: (a in insts || a in addrs) && baseAddr <= a < baseAddr + memSize ==> (a - baseAddr) / 8 != offset / 8
  {
    TouchesIff(baseAddr, memSize, insts, offset);
    TouchesIff(baseAddr, memSize, addrs, offset);
    assert Touches(baseAddr, memSize, insts, offset) || Touches(baseAddr, memSize, addrs, offset) <==>
           exists a :: (a in insts || a in addrs) && baseAddr <= a < baseAddr + memSize && (a - baseAddr) / 8 == offset / 8;
  }

  // ------------------------------------------------------------------ code regions

  /** Regions the loader does not skip, among the first n. */
  function KeptUpTo(regions: seq<Region>, initSize: nat, n: nat): seq<Region>
    requires n <= |regions|
  {
    if n == 0 then []
    else KeptUpTo(regions, initSize, n - 1) + if regions[n - 1].first < initSize then [] else [regions[n - 1]]
  }

  function Kept(regions: seq<Region>, initSize: nat): seq<Region> {
    KeptUpTo(regions, initSize, |regions|)
  }

  ghost predicate Sorted(regions: seq<Region>, start: int, end: int) {
    && start <= end
    && (forall i :: 0 <= i < |regions| ==> start <= regions[i].first <= regions[i].second <= end)
    && (forall i, j :: 0 <= i < j < |regions| ==> regions[i].second <= regions[j].first)
  }

  /** Does one of the first n regions hold this address? */
  predicate InCode(regions: seq<Region>, n: nat, addr: int)
    requires n <= |regions|
  {
    n > 0 && (regions[n - 1].first <= addr < regions[n - 1].second || InCode(regions, n - 1, addr))
  }

  lemma {:induction false} InCodeIff(regions: seq<Region>, n: nat, addr: int)
    requires n <= |regions|
    ensures InCode(regions, n, addr) <==> exists i :: 0 <= i < n && regions[i].first <= addr < regions[i].second
  {
    if n > 0 { InCodeIff(regions, n - 1, addr); }
  }

  /** Bytes in the first n regions. */
  function CodeSize(regions: seq<Region>, n: nat): int
    requires n <= |regions|
  {
    if n == 0 then 0 else CodeSize(regions, n - 1) + regions[n - 1].second - regions[n - 1].first
  }

  /** The addresses the first n regions hold. */
  ghost function CodeBytes(regions: seq<Region>, start: int, end: int, n: nat): set<int>
    requires n <= |regions|
  {
    set a | start <= a < end && InCode(regions, n, a)
  }

  ghost predicate Within(lo: int, a: int, hi: int) {
    lo <= a < hi
  }

  ghost function Interval(lo: int, hi: int): set<int> {
    set a | lo <= a < hi && Within(lo, a, hi)
  }

  lemma {:induction false} IntervalSize(lo: int, hi: int)
    requires lo <= hi
    ensures |Interval(lo, hi)| == hi - lo
    decreases hi - lo
  {
    if lo < hi {
      IntervalSize(lo, hi - 1);
      assert Interval(lo, hi) == Interval(lo, hi - 1) + {hi - 1};
    }
  }

  /** The code size is the number of bytes the regions hold. */
  lemma {:induction false} CodeSizeIsCodeBytes(regions: seq<Region>, start: nat, end: nat, n: nat)
    requires Sorted(regions, start, end) && n <= |regions|
    ensures CodeSize(regions, n) == |CodeBytes(regions, start, end, n)|
  {
    if n > 0 {
      var r := regions[n - 1];
      CodeSizeIsCodeBytes(regions, start, end, n - 1);
      IntervalSize(r.first, r.second);
      forall a | a in CodeBytes(regions, start, end, n - 1) ensures a !in Interval(r.first, r.second) {
        CallsUpToCover(regions, start, end, n - 1, a);
      }
      assert CodeBytes(regions, start, end, n) == CodeBytes(regions, start, end, n - 1) + Interval(r.first, r.second);
    }
  }

  /** One copy into the DRAM: the bytes [first, second), on behalf of code or of data. */
  datatype Call = Call(first: nat, second: nat, code: bool)

  /** How many of the calls copy this address as code, or as data? */
  function CopyCount(calls: seq<Call>, addr: int, code: bool): nat {
    if calls == [] then 0
    else
      var init, c := calls[..|calls| - 1], calls[|calls| - 1];
      CopyCount(init, addr, code) + if c.code == code && c.first <= addr < c.second then 1 else 0
  }

  /** The regions the calls copy as code, in order. */
  function CodeOf(calls: seq<Call>): seq<Region> {
    if calls == [] then []
    else
      var init, c := calls[..|calls| - 1], calls[|calls| - 1];
      CodeOf(init) + if c.code then [Region(c.first, c.second)] else []
  }

  /** Where the first n kept regions end. */
  function RegionsEnd(kept: seq<Region>, start: nat, n: nat): nat
    requires n <= |kept|
  {
    if n == 0 then start else kept[n - 1].second
  }

  /** The calls for one region, the previous one having ended at start: its gap, if any, and its code. */
  function RegionCalls(start: nat, region: Region): seq<Call> {
    (if region.first > start then [Call(start, region.first, false)] else []) + [Call(region.first, region.second, true)]
  }

  /** The calls for the first n regions. */
  function CallsUpTo(kept: seq<Region>, start: nat, n: nat): seq<Call>
    requires n <= |kept|
  {
    if n == 0 then []
    else CallsUpTo(kept, start, n - 1) + RegionCalls(RegionsEnd(kept, start, n - 1), kept[n - 1])
  }

  /** All calls for a file placed at [start, end). */
  function FileCalls(kept: seq<Region>, start: nat, end: nat): seq<Call> {
    CallsUpTo(kept, start, |kept|) + [Call(RegionsEnd(kept, start, |kept|), end, false)]
  }

  lemma CopyCountNext(calls: seq<Call>, c: Call, addr: int, code: bool)
    ensures CopyCount(calls + [c], addr, code)
            == CopyCount(calls, addr, code) + if c.code == code && c.first <= addr < c.second then 1 else 0
    ensures CodeOf(calls + [c]) == CodeOf(calls) + if c.code then [Region(c.first, c.second)] else []
  {
    assert (calls + [c])[..|calls|] == calls;
  }

  lemma CopyCountRegion(calls: seq<Call>, start: nat, region: Region, addr: int, code: bool)
    ensures CopyCount(calls + RegionCalls(start, region), addr, code)
            == CopyCount(calls, addr, code)
               + if code then (if region.first <= addr < region.second then 1 else 0)
                 else if start <= addr < region.first then 1 else 0
    ensures CodeOf(calls + RegionCalls(start, region)) == CodeOf(calls) + [region]
  {
    var gap, last := Call(start, region.first, false), Call(region.first, region.second, true);
    if region.first > start {
      CopyCountNext(calls, gap, addr, code);
      CopyCountNext(calls + [gap], last, addr, code);
      assert calls + RegionCalls(start, region) == (calls + [gap]) + [last];
    } else {
      CopyCountNext(calls, last, addr, code);
      assert RegionCalls(start, region) == [last];
    }
  }

  lemma {:induction false} CallsUpToCover(kept: seq<Region>, start: nat, end: nat, n: nat, addr: int)
    requires Sorted(kept, start, end) && n <= |kept|
    ensures start <= RegionsEnd(kept, start, n) <= end
    ensures InCode(kept, n, addr) ==> start <= addr < RegionsEnd(kept, start, n)
    ensures var calls := CallsUpTo(kept, start, n);
            && CopyCount(calls, addr, true) == (if InCode(kept, n, addr) then 1 else 0)
            && CopyCount(calls, addr, false) == (if start <= addr < RegionsEnd(kept, start, n) && !InCode(kept, n, addr) then 1 else 0)
            && CodeOf(calls) == kept[..n]
  {
    if n > 0 {
      CallsUpToCover(kept, start, end, n - 1, addr);
      var before, prevEnd := CallsUpTo(kept, start, n - 1), RegionsEnd(kept, start, n - 1);
      CopyCountRegion(before, prevEnd, kept[n - 1], addr, true);
      CopyCountRegion(before, prevEnd, kept[n - 1], addr, false);
      assert prevEnd <= kept[n - 1].first;
      assert kept[..n] == kept[..n - 1] + [kept[n - 1]];
    }
  }

  /** The calls for a file copy each of its bytes exactly once and no other byte: the bytes of the
      regions as code, one call a region, and the gaps as data. */
  lemma EachByteOnce(kept: seq<Region>, start: nat, end: nat, addr: int)
    requires Sorted(kept, start, end)
    ensures var calls := FileCalls(kept, start, end);
            && CodeOf(calls) == kept
            && CopyCount(calls, addr, true) == (if InCode(kept, |kept|, addr) then 1 else 0)
            && CopyCount(calls, addr, false) == (if start <= addr < end && !InCode(kept, |kept|, addr) then 1 else 0)
            && CopyCount(calls, addr, true) + CopyCount(calls, addr, false) == (if start <= addr < end then 1 else 0)
  {
    CallsUpToCover(kept, start, end, |kept|, addr);
    var calls, last := CallsUpTo(kept, start, |kept|), Call(RegionsEnd(kept, start, |kept|), end, false);
    CopyCountNext(calls, last, addr, true);
    CopyCountNext(calls, last, addr, false);
    assert kept[..|kept|] == kept;
  }

  /** The labels after placing the file at the offsets [lo, hi): data labelled, code not. */
  function Labelled(l: seq<bool>, kept: seq<Region>, baseAddr: int, lo: int, hi: int): (l': seq<bool>)
    ensures |l'| == |l|
  {
    seq(|l|, k requires 0 <= k < |l| => if lo <= k < hi then !InCode(kept, |kept|, baseAddr + k) else l[k])
  }

  lemma CopiedBytes(d: seq<Byte>, start: nat, buf: seq<Byte>, n: nat, d': seq<Byte>)
    requires n <= |buf| && d' == Copied(d, start, buf[..n])
    ensures forall k :: 0 <= k < |d'| ==> d'[k] == if start <= k < start + n then buf[k - start] else d[k]
  {}

  lemma LabelledBytes(l: seq<bool>, kept: seq<Region>, baseAddr: int, lo: int, hi: int, l': seq<bool>)
    requires l' == Labelled(l, kept, baseAddr, lo, hi)
    ensures forall k :: 0 <= k < |l'| ==> l'[k] == if lo <= k < hi then !InCode(kept, |kept|, baseAddr + k) else l[k]
  {}

  lemma CopiedNext(d: seq<Byte>, lo: int, buf: seq<Byte>, n: int, m: int)
    requires 0 <= n <= m <= |buf|
    ensures Copied(Copied(d, lo, buf[..n]), lo + n, buf[n..][..m - n]) == Copied(d, lo, buf[..m])
  {}

  lemma LabelledNext(l: seq<bool>, kept: seq<Region>, baseAddr: int, lo: int, hi: int, len: int, lbl: bool)
    requires lo <= hi && 0 <= len && forall a :: baseAddr + hi <= a < baseAddr + hi + len ==> (InCode(kept, |kept|, a) <==> !lbl)
    ensures Marked(Labelled(l, kept, baseAddr, lo, hi), hi, len, lbl) == Labelled(l, kept, baseAddr, lo, hi + len)
  {}

  // ------------------------------------------------------------------ the object

  class Simulator {
    const baseAddr: nat
    const memSize: nat
    const data: array<Byte>
    const taint: array<bool>
    var programSize: nat
    var initSize: nat
    var codeRegions: seq<Region>
    ghost var calls: seq<Call>  // every copy into the DRAM so far

    ghost predicate Valid()
      reads this
    {
      && data.Length == memSize && taint.Length == memSize
      && (data as object) != (taint as object) && (this as object) != (data as object) && (this as object) != (taint as object)
    }

    constructor (baseAddr: nat, memSize: nat, codeRegions: seq<Region>)
      ensures Valid() && fresh(data) && fresh(taint)
      ensures this.baseAddr == baseAddr && this.memSize == memSize && this.codeRegions == codeRegions
      ensures programSize == 0 && initSize == 0 && calls == []
    {
      this.baseAddr, this.memSize, this.codeRegions := baseAddr, memSize, codeRegions;
      data := new Byte[memSize];
      taint := new bool[memSize];
      programSize, initSize, calls := 0, 0, [];
    }

    method TaintMemory(start: int, len: int, lbl: bool)
      requires Valid() && 0 <= start && 0 <= len && start + len <= memSize
      modifies taint
      ensures taint[..] == Marked(old(taint[..]), start, len, lbl)
      ensures forall k :: 0 <= k < memSize ==> taint[k] == if start <= k < start + len then lbl else old(taint[k])
    {
      forall k | start <= k < start + len {
        taint[k] := lbl;
      }
    }

    method TaintAllMemory(lbl: bool)
      requires Valid()
      modifies taint
      ensures forall k :: 0 <= k < memSize ==> taint[k] == lbl
    {
      TaintMemory(0, memSize, lbl);
      assert forall k :: 0 <= k < memSize ==> taint[..][k] == lbl;
    }

    /** File bytes arrive untainted; nothing is loaded without a buffer or from outside the DRAM, and
        what does not fit is cut off. */
    method LoadBytes(buf: Option<seq<Byte>>, startAddr: nat, len: nat, ghost code: bool) returns (nBytes: nat)
      requires Valid() && BufferSuffices(buf, startAddr, len)
      modifies this`calls, data, taint
      ensures nBytes == Fitting(buf, startAddr, len) <= |buf.GetOr([])|
      ensures nBytes <= len
      ensures buf.Some? && baseAddr <= startAddr < baseAddr + memSize ==>
                nBytes == len || startAddr - baseAddr + nBytes == memSize
      ensures buf.None? || startAddr < baseAddr || baseAddr + memSize <= startAddr ==> nBytes == 0
      ensures Landed(buf, startAddr, nBytes, old(data[..]))
      ensures data[..] == Copied(old(data[..]), startAddr - baseAddr, buf.GetOr([])[..nBytes])
      ensures taint[..] == Marked(old(taint[..]), startAddr - baseAddr, nBytes, false)
      ensures forall k :: 0 <= k < memSize ==> taint[k] == (old(taint[k]) && !(startAddr - baseAddr <= k < startAddr - baseAddr + nBytes))
      ensures calls == old(calls) + [Call(startAddr, startAddr + nBytes, code)]
    {
      nBytes := 0;
      calls := calls + [Call(startAddr, startAddr + Fitting(buf, startAddr, len), code)];
      if buf.None? || startAddr < baseAddr || startAddr >= baseAddr + memSize {
        assert data[..] == Copied(data[..], startAddr - baseAddr, buf.GetOr([])[..0]);
        assert taint[..] == Marked(taint[..], startAddr - baseAddr, 0, false);
        return;
      }
      var startOffset := startAddr - baseAddr;
      nBytes := if len <= memSize - startOffset then len else memSize - startOffset;
      forall k | startOffset <= k < startOffset + nBytes {
        data[k] := buf.value[k - startOffset];
      }
      assert data[..] == Copied(old(data[..]), startOffset, buf.value[..nBytes]);
      forall k | startOffset <= k < startOffset + nBytes {
        taint[k] := false;
      }
      assert data[..] == Copied(old(data[..]), startOffset, buf.value[..nBytes]);
    }

    /** Byte by byte: the first n bytes of the buffer stand at startAddr, and every other byte is that of d. */
    ghost predicate Landed(buf: Option<seq<Byte>>, startAddr: nat, n: nat, d: seq<Byte>)
      requires Valid() && |d| == memSize && n <= |buf.GetOr([])|
      reads this, data
    {
      forall k :: 0 <= k < memSize ==>
        data[k] == if startAddr - baseAddr <= k < startAddr - baseAddr + n then buf.GetOr([])[k - (startAddr - baseAddr)] else d[k]
    }

    /** How many of len bytes a copy to startAddr puts into the DRAM. */
    function Fitting(buf: Option<seq<Byte>>, startAddr: nat, len: nat): nat {
      if buf.None? || startAddr < baseAddr || startAddr >= baseAddr + memSize then 0
      else if len <= memSize - (startAddr - baseAddr) then len else memSize - (startAddr - baseAddr)
    }

    /** A buffer that is read holds what is copied. */
    predicate BufferSuffices(buf: Option<seq<Byte>>, startAddr: nat, len: nat) {
      Fitting(buf, startAddr, len) <= |buf.GetOr([])|
    }

    method AddCode(buf: Option<seq<Byte>>, startAddr: nat, len: nat) returns (nBytes: nat)
      requires Valid() && BufferSuffices(buf, startAddr, len)
      modifies this`calls, data, taint
      ensures nBytes == Fitting(buf, startAddr, len) <= |buf.GetOr([])|
      ensures Landed(buf, startAddr, nBytes, old(data[..]))
      ensures data[..] == Copied(old(data[..]), startAddr - baseAddr, buf.GetOr([])[..nBytes])
      ensures taint[..] == Marked(old(taint[..]), startAddr - baseAddr, nBytes, false)
      ensures forall k :: 0 <= k < memSize ==> taint[k] == (old(taint[k]) && !(startAddr - baseAddr <= k < startAddr - baseAddr + nBytes))
      ensures calls == old(calls) + [Call(startAddr, startAddr + nBytes, true)]
    {
      nBytes := LoadBytes(buf, startAddr, len, true);
    }

    /** The label is set on the whole range, whether or not there was a buffer to copy. */
    method AddData(buf: Option<seq<Byte>>, startAddr: nat, len: nat) returns (nBytes: nat)
      requires Valid() && BufferSuffices(buf, startAddr, len)
      requires baseAddr <= startAddr && startAddr - baseAddr + len <= memSize
      modifies this`calls, data, taint
      ensures nBytes == Fitting(buf, startAddr, len) <= |buf.GetOr([])|
      ensures Landed(buf, startAddr, nBytes, old(data[..]))
      ensures data[..] == Copied(old(data[..]), startAddr - baseAddr, buf.GetOr([])[..nBytes])
      ensures taint[..] == Marked(old(taint[..]), startAddr - baseAddr, len, true)
      ensures forall k :: 0 <= k < memSize ==> taint[k] == (old(taint[k]) || startAddr - baseAddr <= k < startAddr - baseAddr + len)
      ensures calls == old(calls) + [Call(startAddr, startAddr + nBytes, false)]
    {
      nBytes := LoadBytes(buf, startAddr, len, false);
      TaintMemory(startAddr - baseAddr, len, true);
    }

    /** The file has been placed up to address `end`, over bytes d and labels l. */
    ghost predicate Placed(buf: seq<Byte>, end: int, kept: seq<Region>, d: seq<Byte>, l: seq<bool>)
      requires 0 <= end - baseAddr - initSize <= |buf|
      reads this, data, taint
    {
      && data[..] == Copied(d, initSize, buf[..end - baseAddr - initSize])
      && taint[..] == Labelled(l, kept, baseAddr, initSize, end - baseAddr)
    }

    /** Place the bytes [start, end), none of them code. */
    method PlaceData(buf: seq<Byte>, start: int, end: int, ghost kept: seq<Region>, ghost d: seq<Byte>, ghost l: seq<bool>)
      requires Valid() && baseAddr + initSize <= start <= end <= baseAddr + memSize && end - baseAddr - initSize <= |buf|
      requires forall a :: start <= a < end ==> !InCode(kept, |kept|, a)
      requires Placed(buf, start, kept, d, l)
      modifies this`calls, data, taint
      ensures Placed(buf, end, kept, d, l) && calls == old(calls) + [Call(start, end, false)]
    {
      var offset := start - baseAddr - initSize;
      var len := end - start;
      ghost var was := data[..];
      var _ := AddData(Some(buf[offset..]), start, len);
      assert data[..] == Copied(was, initSize + offset, buf[offset..][..len]);
      CopiedNext(d, initSize, buf, offset, offset + len);
      LabelledNext(l, kept, baseAddr, initSize, initSize + offset, len, true);
    }

    /** Place the bytes [start, end), all of them code. */
    method PlaceCode(buf: seq<Byte>, start: int, end: int, ghost kept: seq<Region>, ghost d: seq<Byte>, ghost l: seq<bool>)
      requires Valid() && baseAddr + initSize <= start <= end <= baseAddr + memSize && end - baseAddr - initSize <= |buf|
      requires forall a :: start <= a < end ==> InCode(kept, |kept|, a)
      requires Placed(buf, start, kept, d, l)
      modifies this`calls, data, taint
      ensures Placed(buf, end, kept, d, l) && calls == old(calls) + [Call(start, end, true)]
    {
      var offset := start - baseAddr - initSize;
      var len := end - start;
      ghost var was := data[..];
      var _ := AddCode(Some(buf[offset..]), start, len);
      assert data[..] == Copied(was, initSize + offset, buf[offset..][..len]);
      CopiedNext(d, initSize, buf, offset, offset + len);
      LabelledNext(l, kept, baseAddr, initSize, initSize + offset, len, false);
    }

    /** The first n kept regions have been placed, by the calls made since there were c. */
    ghost predicate PlacedUpTo(buf: seq<Byte>, kept: seq<Region>, n: nat, d: seq<Byte>, l: seq<bool>, c: seq<Call>)
      reads this, data, taint
    {
      && n <= |kept| && 0 <= RegionsEnd(kept, baseAddr + initSize, n) - baseAddr - initSize <= |buf|
      && Placed(buf, RegionsEnd(kept, baseAddr + initSize, n), kept, d, l)
      && calls == c + CallsUpTo(kept, baseAddr + initSize, n)
    }

    /** Data up to the n-th kept region, then its code. */
    method PlaceRegion(buf: seq<Byte>, start: int, region: Region, ghost kept: seq<Region>, ghost end: int, ghost n: nat,
                       ghost d: seq<Byte>, ghost l: seq<bool>, ghost c: seq<Call>)
      requires Valid() && end <= baseAddr + memSize && end - baseAddr - initSize <= |buf|
      requires Sorted(kept, baseAddr + initSize, end) && n < |kept|
      requires kept[n] == region && start == RegionsEnd(kept, baseAddr + initSize, n)
      requires PlacedUpTo(buf, kept, n, d, l, c)
      modifies this`calls, data, taint
      ensures start <= region.first <= region.second <= end
      ensures PlacedUpTo(buf, kept, n + 1, d, l, c)
    {
      NextRegion(kept, baseAddr + initSize, end, n);
      if region.first > start {
        PlaceData(buf, start, region.first, kept, d, l);
      }
      PlaceCode(buf, region.first, region.second, kept, d, l);
      assert calls == c + (CallsUpTo(kept, baseAddr + initSize, n) + RegionCalls(start, region));
    }

    /** The loop over the code regions: everything up to the end of the last one. */
    method PlaceRegions(buf: seq<Byte>, ghost kept: seq<Region>, ghost end: int)
      returns (codeSize: int, start: int)
      requires Valid() && kept == Kept(codeRegions, initSize)
      requires end <= baseAddr + memSize && |buf| >= end - baseAddr - initSize
      requires Sorted(kept, baseAddr + initSize, end)
      modifies this`calls, data, taint
      ensures start == RegionsEnd(kept, baseAddr + initSize, |kept|) && baseAddr + initSize <= start <= end
      ensures codeSize == CodeSize(kept, |kept|)
      ensures PlacedUpTo(buf, kept, |kept|, old(data[..]), old(taint[..]), old(calls))
    {
      codeSize := 0;
      start := initSize + baseAddr;
      ghost var done, d, l := 0, data[..], taint[..];
      assert Copied(d, initSize, buf[..0]) == d && Labelled(l, kept, baseAddr, initSize, initSize) == l;
      for i := 0 to |codeRegions|
        invariant KeptSoFar(codeRegions, initSize, kept, i, done)
        invariant start == RegionsEnd(kept, baseAddr + initSize, done)
        invariant baseAddr + initSize <= start <= end
        invariant codeSize == CodeSize(kept, done)
        invariant PlacedUpTo(buf, kept, done, d, l, old(calls))
      {
        var region := codeRegions[i];
        KeptNext(codeRegions, initSize, kept, i, done);
        if region.first < initSize {
          continue;
        }
        PlaceRegion(buf, start, region, kept, end, done, d, l, old(calls));
        codeSize := codeSize + region.second - region.first;
        start := region.second;
        done := done + 1;
      }
    }

    /** The regions, and the data behind the last one. */
    method PlaceFile(buf: seq<Byte>, ghost kept: seq<Region>) returns (codeSize: int)
      requires Valid() && kept == Kept(codeRegions, initSize)
      requires initSize <= programSize <= memSize && |buf| >= programSize - initSize
      requires Sorted(kept, baseAddr + initSize, baseAddr + programSize)
      modifies this`calls, data, taint
      ensures codeSize == CodeSize(kept, |kept|)
      ensures Placed(buf, baseAddr + programSize, kept, old(data[..]), old(taint[..]))
      ensures calls == old(calls) + FileCalls(kept, baseAddr + initSize, baseAddr + programSize)
    {
      var end := baseAddr + programSize;
      ghost var d, l := data[..], taint[..];
      var start;
      codeSize, start := PlaceRegions(buf, kept, end);
      NoCodeBeyond(kept, baseAddr + initSize, end);
      PlaceData(buf, start, end, kept, d, l);
      assert calls == old(calls) + (CallsUpTo(kept, baseAddr + initSize, |kept|) + [Call(start, end, false)]);
    }

    /** Load the file around the code regions; with no regions given, everything is code. Every file byte
        is copied exactly once, to its place after the initialisation code; data is labelled, code is
        not; nothing else changes. */
    method LoadProgramSections(buf: seq<Byte>) returns (codeSize: int)
      requires Valid()
      requires initSize <= programSize <= memSize && |buf| >= programSize - initSize
      requires Sorted(Kept(codeRegions, initSize), baseAddr + initSize, baseAddr + programSize)
      modifies this`codeRegions, this`calls, data, taint
      ensures codeRegions == if old(codeRegions) == [] then [Region(baseAddr + initSize, baseAddr + programSize)] else old(codeRegions)
      ensures forall k :: 0 <= k < memSize ==>
                data[k] == if initSize <= k < programSize then buf[k - initSize] else old(data[k])
      ensures forall k :: 0 <= k < memSize ==>
                taint[k] == if initSize <= k < programSize
                            then !InCode(Kept(codeRegions, initSize), |Kept(codeRegions, initSize)|, baseAddr + k) else old(taint[k])
      ensures var kept := Kept(codeRegions, initSize);
              && codeSize == CodeSize(kept, |kept|)
              && Placed(buf, baseAddr + programSize, kept, old(data[..]), old(taint[..]))
      ensures calls == old(calls) + FileCalls(Kept(codeRegions, initSize), baseAddr + initSize, baseAddr + programSize)
    {
      var end := baseAddr + programSize;
      if |codeRegions| == 0 {
        var all := Region(baseAddr + initSize, end);
        codeRegions := codeRegions + [all];
        assert codeRegions == [all];
        DefaultKept(all, initSize);
      }
      ghost var d, l := data[..], taint[..];
      codeSize := PlaceFile(buf, Kept(codeRegions, initSize));
      BytesPlaced(buf, programSize, Kept(codeRegions, initSize), d, l);
      LabelsPlaced(buf, programSize, Kept(codeRegions, initSize), d, l);
    }

    /** What placing the file up to an address means, byte by byte. */
    lemma BytesPlaced(buf: seq<Byte>, hi: nat, kept: seq<Region>, d: seq<Byte>, l: seq<bool>)
      requires Valid() && initSize <= hi <= memSize && |buf| >= hi - initSize && |d| == memSize
      requires Placed(buf, baseAddr + hi, kept, d, l)
      ensures forall k :: 0 <= k < memSize ==> data[k] == if initSize <= k < hi then buf[k - initSize] else d[k]
    {
      CopiedBytes(d, initSize, buf, hi - initSize, data[..]);
    }

    lemma LabelsPlaced(buf: seq<Byte>, hi: nat, kept: seq<Region>, d: seq<Byte>, l: seq<bool>)
      requires Valid() && initSize <= hi <= memSize && |buf| >= hi - initSize && |l| == memSize
      requires Placed(buf, baseAddr + hi, kept, d, l)
      ensures forall k :: 0 <= k < memSize ==> taint[k] == if initSize <= k < hi then !InCode(kept, |kept|, baseAddr + k) else l[k]
    {
      LabelledBytes(l, kept, baseAddr, initSize, hi, taint[..]);
    }

    // ---------------------------------------------------------------- secrets

    /** Untaint the aligned 8-byte group of every architecturally accessed DRAM address. */
    method UntaintArchAddresses(addrs: seq<nat>)
      requires Valid() && memSize % 8 == 0
      modifies taint
      ensures forall k :: 0 <= k < memSize ==>
                taint[k] == (old(taint[k]) && !ArchGroup(baseAddr, memSize, addrs, |addrs|, k))
    {
      for i := 0 to |addrs|
        invariant forall k :: 0 <= k < memSize ==>
                    taint[k] == (old(taint[k]) && !ArchGroup(baseAddr, memSize, addrs, i, k))
      {
        var addr := addrs[i];
        if addr >= baseAddr + memSize || addr < baseAddr {
          continue;
        }
        var memIndex := addr - baseAddr;
        ghost var was := taint[..];
        TaintMemory(memIndex - memIndex % 8, 8, false);
        forall k | 0 <= k < memSize
          ensures taint[k] == (old(taint[k]) && !ArchGroup(baseAddr, memSize, addrs, i + 1, k))
        {
          assert taint[..][k] == taint[k] && was[k] == (old(taint[k]) && !ArchGroup(baseAddr, memSize, addrs, i, k));
          assert Group(memIndex) == Group(k) <==> memIndex - memIndex % 8 <= k < memIndex - memIndex % 8 + 8;
        }
      }
    }

    /** From the end of loading to the start of detection: re-taint the program, untaint what the
        architectural run executed and accessed, and, when only buffers are a source, untaint all. */
    method TaintSecrets(src: TaintSource, insts: seq<nat>, addrs: seq<nat>)
      requires Valid() && memSize % 8 == 0 && programSize <= memSize
      requires forall k :: programSize <= k < memSize ==> taint[..][k]
      modifies taint
      ensures forall k :: 0 <= k < memSize ==>
                (taint[k] <==> (src == ALL || src == MEMORY) && Secret(baseAddr, memSize, insts, addrs, k))
    {
      TaintMemory(0, programSize, true);
      assert forall k :: 0 <= k < memSize ==> taint[..][k];
      assert forall k :: 0 <= k < memSize ==> taint[k];
      UntaintArchAddresses(insts);
      UntaintArchAddresses(addrs);
      if src != ALL && src != MEMORY {
        TaintAllMemory(false);
      }
    }

    /** The initialisation images, one after the other from the start of the DRAM. */
    method LoadInit(init: Option<seq<Byte>>, mdsInit: Option<seq<Byte>>)
      requires Valid() && initSize == 0 && |InitImage(init, mdsInit)| <= memSize
      modifies this`initSize, this`calls, data, taint
      ensures initSize == |InitImage(init, mdsInit)|
      ensures data[..] == Copied(old(data[..]), 0, InitImage(init, mdsInit))
      ensures forall k :: initSize <= k < memSize ==> taint[k] == old(taint[k])
    {
      ghost var d := data[..];
      assert Copied(d, 0, []) == d;
      if init.Some? {
        var _ := AddCode(init, baseAddr, |init.value|);
        initSize := |init.value|;
        assert init.value[..|init.value|] == init.value;
      }
      assert data[..] == Copied(d, 0, init.GetOr([]));
      assert forall k :: initSize <= k < memSize ==> taint[..][k] == old(taint[k]);
      if mdsInit.Some? {
        var _ := AddCode(mdsInit, baseAddr + initSize, |mdsInit.value|);
        assert mdsInit.value[..|mdsInit.value|] == mdsInit.value;
        initSize := initSize + |mdsInit.value|;
      }
      CopiedAfter(d, init.GetOr([]), mdsInit.GetOr([]));
      assert forall k :: initSize <= k < memSize ==> taint[..][k] == old(taint[k]);
    }

    /** The first n bytes of the file may be initialisation code, too. */
    method LoadInFileInit(file: seq<Byte>, n: nat, ghost d: seq<Byte>, ghost image: seq<Byte>)
      requires Valid() && n <= |file| && initSize + n <= memSize
      requires |image| == initSize && data[..] == Copied(d, 0, image)
      modifies this`initSize, this`calls, data, taint
      ensures initSize == old(initSize) + n
      ensures data[..] == Copied(d, 0, image + file[..n])
      ensures forall k :: initSize <= k < memSize ==> taint[k] == old(taint[k])
    {
      if n > 0 {
        var _ := AddCode(Some(file), baseAddr + initSize, n);
        initSize := initSize + n;
      }
      CopiedAfter(d, image, file[..n]);
      assert forall k :: initSize <= k < memSize ==> taint[..][k] == old(taint[k]);
    }

    /** Taint all memory, then load everything that precedes the program proper. */
    method LoadInits(init: Option<seq<Byte>>, mdsInit: Option<seq<Byte>>, file: seq<Byte>, inFileInit: nat)
      requires Valid() && initSize == 0 && inFileInit <= |file| && |InitImage(init, mdsInit) + file| <= memSize
      modifies this`initSize, this`programSize, this`calls, data, taint
      ensures initSize == |InitImage(init, mdsInit)| + inFileInit && programSize == |InitImage(init, mdsInit)| + |file|
      ensures data[..] == Copied(old(data[..]), 0, InitImage(init, mdsInit) + file[..inFileInit])
      ensures forall k :: programSize <= k < memSize ==> taint[..][k]
    {
      ghost var d := data[..];
      TaintAllMemory(true);
      LoadInit(init, mdsInit);
      programSize := initSize + |file|;
      LoadInFileInit(file, inFileInit, d, InitImage(init, mdsInit));
    }

    /** Everything up to the architectural run: the images and the file laid out from the start of the
        DRAM, and every byte behind the file still labelled from the initial taint of all memory. */
    method LoadImage(init: Option<seq<Byte>>, mdsInit: Option<seq<Byte>>, file: seq<Byte>, inFileInit: nat)
      returns (codeSize: int)
      requires Valid() && initSize == 0 && inFileInit <= |file| && |InitImage(init, mdsInit) + file| <= memSize
      requires var lo := |InitImage(init, mdsInit)|;
               Sorted(Kept(codeRegions, lo + inFileInit), baseAddr + lo + inFileInit, baseAddr + lo + |file|)
      modifies this, data, taint
      ensures initSize == |InitImage(init, mdsInit)| + inFileInit
      ensures programSize == |InitImage(init, mdsInit)| + |file|
      ensures data[..] == Copied(old(data[..]), 0, InitImage(init, mdsInit) + file)
      ensures var image := init.GetOr([]) + mdsInit.GetOr([]) + file;
              forall k :: 0 <= k < memSize ==> data[k] == if k < |image| then image[k] else old(data[k])
      ensures forall k :: programSize <= k < memSize ==> taint[..][k]
    {
      ghost var d := data[..];
      LoadInits(init, mdsInit, file, inFileInit);
      codeSize := LoadProgramSections(file[inFileInit..]);
      CopiedSplit(d, InitImage(init, mdsInit), file, inFileInit);
      assert forall k :: 0 <= k < memSize ==> data[..][k] == data[k];
    }

    /** The whole set-up of a pass around the architectural run, given the addresses that run reports:
        the labels depend on nothing else than these addresses and the taint source. */
    method SetUp(src: TaintSource, init: Option<seq<Byte>>, mdsInit: Option<seq<Byte>>, file: seq<Byte>, inFileInit: nat,
                 insts: seq<nat>, addrs: seq<nat>)
      returns (codeSize: int)
      requires Valid() && initSize == 0 && inFileInit <= |file| && |InitImage(init, mdsInit) + file| <= memSize
      requires memSize % 8 == 0
      requires var lo := |InitImage(init, mdsInit)|;
               Sorted(Kept(codeRegions, lo + inFileInit), baseAddr + lo + inFileInit, baseAddr + lo + |file|)
      modifies this, data, taint
      ensures var image := init.GetOr([]) + mdsInit.GetOr([]) + file;
              forall k :: 0 <= k < memSize ==> data[k] == if k < |image| then image[k] else old(data[k])
      ensures forall k :: 0 <= k < memSize ==>
                (taint[k] <==> (src == ALL || src == MEMORY) && Secret(baseAddr, memSize, insts, addrs, k))
    {
      codeSize := LoadImage(init, mdsInit, file, inFileInit);
      TaintSecrets(src, insts, addrs);
    }
  }

  lemma CopiedSplit(d: seq<Byte>, image: seq<Byte>, file: seq<Byte>, n: nat)
    requires n <= |file|
    ensures var rest := file[n..];
            Copied(Copied(d, 0, image + file[..n]), |image| + n, rest[..|file| - n]) == Copied(d, 0, image + file)
  {
    CopiedAfter(d, image + file[..n], file[n..]);
    assert file[n..][..|file| - n] == file[n..];
    assert image + file[..n] + file[n..] == image + file;
  }

  function InitImage(init: Option<seq<Byte>>, mdsInit: Option<seq<Byte>>): seq<Byte> {
    init.GetOr([]) + mdsInit.GetOr([])
  }

  lemma CopiedAfter(d: seq<Byte>, a: seq<Byte>, b: seq<Byte>)
    ensures Copied(Copied(d, 0, a), |a|, b) == Copied(d, 0, a + b)
    ensures b == [] ==> Copied(d, 0, a + b) == Copied(d, 0, a)
  {}

  /** The first tainted byte of a register file, whether the sweep stops there or reports them all. */
  method CheckRegFile(tainted: seq<bool>, verbose: bool) returns (first: Option<nat>)
    ensures first.None? ==> forall i :: 0 <= i < |tainted| ==> !tainted[i]
    ensures first.Some? ==> var k := first.value;
                            k < |tainted| && tainted[k] && forall i :: 0 <= i < k ==> !tainted[i]
  {
    first := None;
    for i := 0 to |tainted|
      invariant !verbose ==> first.None?
      invariant first.None? ==> forall j :: 0 <= j < i ==> !tainted[j]
      invariant first.Some? ==> first.value < i && tainted[first.value] && forall j :: 0 <= j < first.value ==> !tainted[j]
    {
      if tainted[i] {
        if !verbose {
          return Some(i);
        } else if first.None? {
          first := Some(i);
        }
      }
    }
  }

  // ------------------------------------------------------------------ the region skip

  /** The skip means to pass over regions that start in the initialisation code, but compares an
      absolute address with a size: in the DRAM of the simulator it passes over none, so it does what
      it means to exactly when no region starts there. */
  lemma SkipMissesInitCode(baseAddr: nat, initSize: nat, regions: seq<Region>)
    requires initSize <= baseAddr
    ensures (forall r :: r in regions && baseAddr <= r.first < baseAddr + initSize ==> r !in Kept(regions, initSize))
            <==> (forall r :: r in regions ==> !(baseAddr <= r.first < baseAddr + initSize))
  {
    forall r | r in regions && r.first >= initSize ensures r in Kept(regions, initSize) {
      KeptIff(regions, initSize, r);
    }
  }

  /** The loader keeps the regions that do not start below the size of the initialisation code. */
  lemma KeptIff(regions: seq<Region>, initSize: nat, r: Region)
    ensures r in Kept(regions, initSize) <==> r in regions && r.first >= initSize
  {
    KeptUpToIff(regions, initSize, |regions|, r);
    assert regions[..|regions|] == regions;
  }

  lemma {:induction false} KeptUpToIff(regions: seq<Region>, initSize: nat, n: nat, r: Region)
    requires n <= |regions|
    ensures r in KeptUpTo(regions, initSize, n) <==> r in regions[..n] && r.first >= initSize
  {
    if n > 0 {
      KeptUpToIff(regions, initSize, n - 1, r);
      assert regions[..n] == regions[..n - 1] + [regions[n - 1]];
    }
  }

  /** The file offset the loader computes for an address, in 64-bit arithmetic. */
  function FileOffset(baseAddr: nat, initSize: nat, addr: nat): nat
    requires baseAddr <= addr && initSize < TWO64
  {
    (addr - baseAddr + TWO64 - initSize) % TWO64
  }

  /** The offset falls into a file of n bytes if and only if the address lies where the file is placed;
      for an address in the initialisation code it wraps around. */
  lemma OffsetInFileIff(baseAddr: nat, initSize: nat, addr: nat, n: nat)
    requires baseAddr <= addr < baseAddr + TWO64 && initSize < TWO64 && initSize + n <= TWO64
    ensures FileOffset(baseAddr, initSize, addr) < n <==> baseAddr + initSize <= addr < baseAddr + initSize + n
  {
    var off := addr - baseAddr;
    if off >= initSize { DivModUnique(1, off - initSize, TWO64); } else { DivModUnique(0, off + TWO64 - initSize, TWO64); }
  }

  /** A region inside sixteen bytes of initialisation code is not skipped, and its file offset is -8. */
  lemma SkipExample()
    ensures var r := Region(0x8000_0008, 0x8000_0010);
            Kept([r], 16) == [r] && FileOffset(0x8000_0000, 16, r.first) == TWO64 - 8
  {
    assert KeptUpTo([Region(0x8000_0008, 0x8000_0010)], 16, 0) == [];
  }

  lemma DefaultKept(r: Region, initSize: nat)
    requires initSize <= r.first <= r.second
    ensures Sorted(Kept([r], initSize), r.first, r.second)
  {
    assert KeptUpTo([r], initSize, 0) == [];
  }

  /** The first `i` regions contribute the first `done` kept ones. */
  ghost predicate KeptSoFar(regions: seq<Region>, initSize: nat, kept: seq<Region>, i: nat, done: nat) {
    i <= |regions| && done <= |kept| && KeptUpTo(regions, initSize, i) == kept[..done]
  }

  lemma KeptNext(regions: seq<Region>, initSize: nat, kept: seq<Region>, i: nat, done: nat)
    requires i < |regions| && kept == Kept(regions, initSize) && KeptSoFar(regions, initSize, kept, i, done)
    ensures var r := regions[i];
            if r.first < initSize then KeptSoFar(regions, initSize, kept, i + 1, done)
            else done < |kept| && kept[done] == r && KeptSoFar(regions, initSize, kept, i + 1, done + 1)
  {
    KeptPrefix(regions, initSize, i + 1, |regions|);
    var r := regions[i];
    if r.first >= initSize {
      assert KeptUpTo(regions, initSize, i + 1) == kept[..done] + [r];
      assert kept[done] == KeptUpTo(regions, initSize, i + 1)[done] == r;
    }
  }

  lemma {:induction false} KeptPrefix(regions: seq<Region>, initSize: nat, i: nat, n: nat)
    requires i <= n <= |regions|
    ensures KeptUpTo(regions, initSize, i) <= KeptUpTo(regions, initSize, n)
  {
    if i < n { KeptPrefix(regions, initSize, i, n - 1); }
  }

  /** Once every region is done, no code lies beyond the last one. */
  lemma NoCodeBeyond(kept: seq<Region>, start: nat, end: nat)
    requires Sorted(kept, start, end)
    ensures forall a :: InCode(kept, |kept|, a) ==> a < RegionsEnd(kept, start, |kept|)
  {
    forall i | 0 <= i < |kept| ensures kept[i].second <= RegionsEnd(kept, start, |kept|) {
      if i < |kept| - 1 { assert kept[i].second <= kept[|kept| - 1].first; }
    }
    forall a | InCode(kept, |kept|, a) ensures a < RegionsEnd(kept, start, |kept|) {
      InCodeIff(kept, |kept|, a);
    }
  }

  /** From the end of the previous region on, code is exactly the next region. */
  lemma NextRegion(kept: seq<Region>, start: nat, end: nat, n: nat)
    requires Sorted(kept, start, end) && n < |kept|
    ensures start <= RegionsEnd(kept, start, n) <= kept[n].first <= kept[n].second <= end
    ensures forall a :: RegionsEnd(kept, start, n) <= a < kept[n].second ==> (InCode(kept, |kept|, a) <==> kept[n].first <= a)
  {
    forall i | 0 <= i < |kept| ensures i < n ==> kept[i].second <= RegionsEnd(kept, start, n)
                               ensures n < i ==> kept[n].second <= kept[i].first
    {
      assert i < n - 1 ==> kept[i].second <= kept[n - 1].first;
    }
    forall a | RegionsEnd(kept, start, n) <= a < kept[n].second ensures InCode(kept, |kept|, a) <==> kept[n].first <= a {
      InCodeIff(kept, |kept|, a);
    }
  }
}
