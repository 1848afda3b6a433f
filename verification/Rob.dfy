/** The reorder buffer: head functions, busy masks, and which instruction wrote a tainted register. */
module Rob {
  import opened Bits

  const DEST_UNUSED: nat := 2
  const N_ROBS: nat := 2

  datatype RobEntry = RobEntry(
    pc: nat, valid: bool, busy: bool, uopcode: nat, exception: bool, brMask: nat,
    dst: nat, dstType: nat, robBank: nat, robIdx: nat)

  const NULL_ENTRY := RobEntry(0, false, false, 0, false, 0, 0, 0, 0, 0)

  datatype BusyMask = BusyMask(first: nat, second: nat)

  datatype RobState = RobState(head: nat, tail: nat, entry: seq<seq<RobEntry>>) {

    /** A snapshot: at least two rows of two banks, every entry knowing its own place. */
    ghost predicate Valid() {
      && 2 <= |entry| && head < |entry| && tail < |entry|
      && (forall i :: 0 <= i < |entry| ==> |entry[i]| == N_ROBS)
      && (forall i, j :: 0 <= i < |entry| && 0 <= j < N_ROBS ==> entry[i][j].robIdx == i && entry[i][j].robBank == j)
    }

    predicate IsEmpty()
      requires Valid()
    {
      !entry[head][0].valid && !entry[head][1].valid
    }

    function HeadBank(): nat
      requires Valid()
    {
      if entry[head][0].valid then 0 else 1
    }

    function Head(): RobEntry
      requires Valid()
    {
      entry[head][HeadBank()]
    }

    predicate IsHead(e: RobEntry)
      requires Valid()
    {
      e.robIdx == head && e.robBank == HeadBank()
    }
  }

  /** The head is the first valid slot of the head row; where there is none, the buffer counts as empty,
      whatever other rows hold. */
  lemma HeadIff(r: RobState, i: nat, j: nat)
    requires r.Valid() && i < |r.entry| && j < N_ROBS
    ensures r.IsEmpty() <==> forall b :: 0 <= b < N_ROBS ==> !r.entry[r.head][b].valid
    ensures r.IsHead(r.entry[i][j]) <==> r.Head() == r.entry[i][j]
    ensures r.IsHead(r.entry[i][j]) && !r.IsEmpty() <==>
            i == r.head && r.entry[i][j].valid && forall b :: 0 <= b < j ==> !r.entry[i][b].valid
  {
    assert r.entry[i][j].robIdx == i && r.entry[i][j].robBank == j;
    assert r.Head().robIdx == r.head && r.Head().robBank == r.HeadBank();
  }

  // ------------------------------------------------------------------ busy masks

  /** Bit i of a mask says whether the entry in row i of that bank is valid and busy. */
  method GetRobBusyMask(r: RobState) returns (m: BusyMask)
    requires r.Valid()
    ensures forall i: nat :: Bit(m.first, i) <==> i < |r.entry| && r.entry[i][0].valid && r.entry[i][0].busy
    ensures forall i: nat :: Bit(m.second, i) <==> i < |r.entry| && r.entry[i][1].valid && r.entry[i][1].busy
  {
    var rob1: nat, rob2: nat := 0, 0;
    forall i: nat ensures !Bit(0, i) { BitOfZero(i); }
    for n := 0 to |r.entry|
      invariant forall i: nat :: Bit(rob1, i) <==> i < n && r.entry[i][0].valid && r.entry[i][0].busy
      invariant forall i: nat :: Bit(rob2, i) <==> i < n && r.entry[i][1].valid && r.entry[i][1].busy
    {
      rob1 := SetBusy(rob1, n, r.entry[n][0].valid && r.entry[n][0].busy);
      rob2 := SetBusy(rob2, n, r.entry[n][1].valid && r.entry[n][1].busy);
    }
    m := BusyMask(rob1, rob2);
  }

  /** `mask |= b << n`. */
  method SetBusy(mask: nat, n: nat, b: bool) returns (mask': nat)
    ensures forall i: nat :: Bit(mask', i) <==> Bit(mask, i) || (b && i == n)
  {
    var one := if b then Pow2(n) else 0;
    mask' := Or(mask, one);
    forall i: nat ensures Bit(mask', i) <==> Bit(mask, i) || (b && i == n) {
      BitOr(mask, one, i);
      BitPow2(n, i);
      BitOfZero(i);
    }
  }

  /** Was the entry busy under the old mask, and not under the new one? */
  predicate Unbusied(m: BusyMask, m': BusyMask, i: nat, j: nat) {
    if j == 0 then Bit(m.first, i) && !Bit(m'.first, i) else Bit(m.second, i) && !Bit(m'.second, i)
  }

  function RowDiff(r: RobState, m: BusyMask, m': BusyMask, i: nat): seq<RobEntry>
    requires r.Valid() && i < |r.entry|
  {
    (if Unbusied(m, m', i, 0) then [r.entry[i][0]] else []) + (if Unbusied(m, m', i, 1) then [r.entry[i][1]] else [])
  }

  /** The entries of the first n rows that stopped being busy, row by row and bank 0 first. */
  function Diff(r: RobState, m: BusyMask, m': BusyMask, n: nat): seq<RobEntry>
    requires r.Valid() && n <= |r.entry|
  {
    if n == 0 then [] else Diff(r, m, m', n - 1) + RowDiff(r, m, m', n - 1)
  }

  method GetDiff(r: RobState, oldMask: BusyMask, newMask: BusyMask) returns (entries: seq<RobEntry>)
    requires r.Valid()
    ensures entries == Diff(r, oldMask, newMask, |r.entry|)
  {
    var firstDiff := AndNot(oldMask.first, newMask.first);
    var secondDiff := AndNot(oldMask.second, newMask.second);
    entries := [];
    for i := 0 to |r.entry|
      invariant entries == Diff(r, oldMask, newMask, i)
    {
      BitAndNot(oldMask.first, newMask.first, i);
      BitAndNot(oldMask.second, newMask.second, i);
      if Bit(firstDiff, i) {
        entries := entries + [r.entry[i][0]];
      }
      if Bit(secondDiff, i) {
        entries := entries + [r.entry[i][1]];
      }
    }
  }

  /** The difference holds exactly the entries that were busy and are not any more, bank 0 by the first
      masks and bank 1 by the second ones. */
  lemma {:induction false} DiffIff(r: RobState, m: BusyMask, m': BusyMask, n: nat, e: RobEntry)
    requires r.Valid() && n <= |r.entry|
    ensures e in Diff(r, m, m', n) <==> e.robIdx < n && InRowDiff(r, m, m', e.robIdx, e)
  {
    if n > 0 {
      DiffIff(r, m, m', n - 1, e);
      RowDiffIff(r, m, m', n - 1, e);
    }
  }

  ghost predicate InRowDiff(r: RobState, m: BusyMask, m': BusyMask, i: nat, e: RobEntry)
    requires r.Valid() && i < |r.entry|
  {
    || (e == r.entry[i][0] && Bit(m.first, i) && !Bit(m'.first, i))
    || (e == r.entry[i][1] && Bit(m.second, i) && !Bit(m'.second, i))
  }

  lemma RowDiffIff(r: RobState, m: BusyMask, m': BusyMask, i: nat, e: RobEntry)
    requires r.Valid() && i < |r.entry|
    ensures e in RowDiff(r, m, m', i) <==> InRowDiff(r, m, m', i, e)
    ensures InRowDiff(r, m, m', i, e) ==> e.robIdx == i
  {}

  /** Row by row, and bank 0 first. */
  ghost predicate Before(e: RobEntry, e': RobEntry) {
    e.robIdx < e'.robIdx || (e.robIdx == e'.robIdx && e.robBank < e'.robBank)
  }

  lemma {:induction false} DiffOrdered(r: RobState, m: BusyMask, m': BusyMask, n: nat)
    requires r.Valid() && n <= |r.entry|
    ensures forall i, j :: 0 <= i < j < |Diff(r, m, m', n)| ==> Before(Diff(r, m, m', n)[i], Diff(r, m, m', n)[j])
  {
    if n > 0 {
      DiffOrdered(r, m, m', n - 1);
      var es := Diff(r, m, m', n - 1);
      forall i | 0 <= i < |es| ensures es[i].robIdx < n - 1 { DiffIff(r, m, m', n - 1, es[i]); }
    }
  }

  // ------------------------------------------------------------------ the walk

  /** The row after row i, going round. */
  function Following(r: RobState, i: nat): (i': nat)
    requires r.Valid() && i < |r.entry|
    ensures i' < |r.entry|
  {
    if i + 1 == |r.entry| then 0 else i + 1
  }

  /** The k-th row the walk visits. */
  function Row(r: RobState, k: nat): (i: nat)
    requires r.Valid()
    ensures i < |r.entry|
  {
    if k == 0 then r.head else Following(r, Row(r, k - 1))
  }

  /** How far behind the head a row lies, going round. */
  function StepOf(r: RobState, i: nat): (k: nat)
    requires r.Valid() && i < |r.entry|
    ensures k < |r.entry|
  {
    if i >= r.head then i - r.head else i + |r.entry| - r.head
  }

  /** How many rows it visits: from head to tail, or all of them and the head row again. */
  function Rows(r: RobState): nat
    requires r.Valid()
  {
    if r.head == r.tail then |r.entry| + 1 else StepOf(r, r.tail) + 1
  }

  lemma WrapOnce(x: nat, n: nat)
    requires 0 < n && x < 2 * n
    ensures x % n == if x < n then x else x - n
  {
    DivModUnique(if x < n then 0 else 1, if x < n then x else x - n, n);
  }

  /** Where the walk stands after k rows: the row, and whether it is the last. */
  lemma {:induction false} RowFacts(r: RobState, k: nat)
    requires r.Valid() && k < Rows(r)
    ensures Rows(r) <= |r.entry| + 1 && (r.head != r.tail ==> 2 <= Rows(r) <= |r.entry|)
    ensures Row(r, k) == if r.head + k < |r.entry| then r.head + k else r.head + k - |r.entry|
    ensures Row(r, k) == r.tail && k > 0 <==> k + 1 == Rows(r)
    ensures Row(r, k) == r.head <==> k == 0 || k == |r.entry|
  {
    if k > 0 {
      RowFacts(r, k - 1);
    }
  }

  /** What one turn of the walk needs to know. */
  lemma RowStep(r: RobState, k: nat)
    requires r.Valid() && k < Rows(r)
    ensures Row(r, 0) == r.head && 1 < Rows(r)
    ensures Row(r, k) == r.tail && k > 0 <==> k + 1 == Rows(r)
    ensures k == 1 ==> Row(r, k) != r.head
  {
    RowFacts(r, 0);
    RowFacts(r, k);
  }

  /** Slots of the head row before the head itself hold no instruction. */
  predicate Skipped(r: RobState, i: nat, j: nat)
    requires r.Valid()
  {
    i == r.head && j < r.HeadBank()
  }

  /** The start of the 8-byte register at this address of the register file. */
  function RegAddr(addr: nat): nat {
    addr - addr % 8
  }

  predicate WritesReg(e: RobEntry, addr: nat) {
    e.dst * 8 == addr && e.dstType != DEST_UNUSED
  }

  /** Does the entry write the 8-byte register that holds this byte of the register file? */
  ghost predicate WritesByte(e: RobEntry, addr: nat) {
    e.dst == addr / 8 && e.dstType != DEST_UNUSED
  }

  lemma RegisterOfByte(e: RobEntry, addr: nat)
    ensures WritesReg(e, RegAddr(addr)) <==> WritesByte(e, addr)
  {}

  predicate Matches(r: RobState, addr: nat, i: nat, j: nat)
    requires r.Valid() && i < |r.entry| && j < N_ROBS
  {
    !Skipped(r, i, j) && WritesReg(r.entry[i][j], addr) && r.entry[i][j].valid
  }

  function RowMatches(r: RobState, addr: nat, i: nat): seq<(nat, nat)>
    requires r.Valid() && i < |r.entry|
  {
    (if Matches(r, addr, i, 0) then [(i, 0)] else []) + (if Matches(r, addr, i, 1) then [(i, 1)] else [])
  }

  /** The matching slots of the first k rows visited. */
  function Found(r: RobState, addr: nat, k: nat): seq<(nat, nat)>
    requires r.Valid()
  {
    if k == 0 then [] else Found(r, addr, k - 1) + RowMatches(r, addr, Row(r, k - 1))
  }

  /** The last of the entries that writes the register, or else the default. */
  function LastWriter(es: seq<RobEntry>, addr: nat, default: RobEntry): RobEntry {
    if es == [] then default
    else if WritesReg(es[|es| - 1], addr) then es[|es| - 1]
    else LastWriter(es[..|es| - 1], addr, default)
  }

  function Fallback(r: RobState, m: BusyMask, m': BusyMask, addr: nat): RobEntry
    requires r.Valid()
  {
    LastWriter(Diff(r, m, m', |r.entry|), addr, r.Head())
  }

  /** The slots found, as a function of the state. */
  function Tainting(r: RobState, m: BusyMask, m': BusyMask, addr: nat): RobEntry
    requires r.Valid()
  {
    if r.IsEmpty() then NULL_ENTRY
    else
      var a := RegAddr(addr);
      var found := Found(r, a, Rows(r));
      FoundInRange(r, a, Rows(r));
      if |found| == 0 then NULL_ENTRY
      else if |found| == 1 then r.entry[found[0].0][found[0].1]
      else Fallback(r, m, m', a)
  }

  lemma {:induction false} FoundInRange(r: RobState, addr: nat, k: nat)
    requires r.Valid()
    ensures forall x :: x in Found(r, addr, k) ==> x.0 < |r.entry| && x.1 < N_ROBS
  {
    if k > 0 { FoundInRange(r, addr, k - 1); }
  }

  /** One row of the walk: its matching slots, and whether the walk ends here. Once another row than
      the head's has been visited, a tail in the head row is the end. */
  method WalkRow(r: RobState, a: nat, i: nat, first: bool) returns (slots: seq<(nat, nat)>, first': bool, done: bool)
    requires r.Valid() && i < |r.entry|
    ensures slots == RowMatches(r, a, i)
    ensures first' == (first && i == r.head) && done == (i == r.tail && !first')
  {
    slots, first', done := [], first, false;
    var headBank := r.HeadBank();
    for j := 0 to N_ROBS
      invariant slots == (if j > 0 && Matches(r, a, i, 0) then [(i, 0)] else []) +
                         (if j > 1 && Matches(r, a, i, 1) then [(i, 1)] else [])
      invariant first' == (first && (i == r.head || j == 0))
      invariant done ==> i == r.tail && !first'
      invariant j == N_ROBS && i == r.tail && !first' ==> done
    {
      if i == r.head && j < headBank {
        continue;
      }
      if i != r.head {
        first' := false;
      }
      if r.entry[i][j].dst * 8 == a && r.entry[i][j].valid && r.entry[i][j].dstType != DEST_UNUSED {
        slots := slots + [(i, j)];
      }
      if i == r.tail && !first' {
        done := true;
      }
    }
  }

  lemma FoundNext(r: RobState, a: nat, k: nat)
    requires r.Valid()
    ensures Found(r, a, k + 1) == Found(r, a, k) + RowMatches(r, a, Row(r, k))
    ensures Row(r, k + 1) == (Row(r, k) + 1) % |r.entry|
  {
    WrapOnce(Row(r, k) + 1, |r.entry|);
  }

  /** The walk from head to tail. */
  method FindWriters(r: RobState, a: nat) returns (useTaintedRegister: seq<(nat, nat)>)
    requires r.Valid()
    ensures useTaintedRegister == Found(r, a, Rows(r))
  {
    var done, first := false, true;
    useTaintedRegister := [];
    var i := r.head;
    ghost var k := 0;
    while !done
      invariant k <= Rows(r) && i == Row(r, k)
      invariant first <==> k <= 1
      invariant done <==> k == Rows(r)
      invariant useTaintedRegister == Found(r, a, k)
      decreases Rows(r) - k
    {
      RowStep(r, k);
      FoundNext(r, a, k);
      var slots;
      slots, first, done := WalkRow(r, a, i, first);
      useTaintedRegister := useTaintedRegister + slots;
      i := (i + 1) % |r.entry|;
      k := k + 1;
    }
  }

  method GetTaintingInstruction(r: RobState, previouslyBusy: BusyMask, currentlyBusy: BusyMask, addr: nat)
    returns (instr: RobEntry)
    requires r.Valid()
    ensures instr == Tainting(r, previouslyBusy, currentlyBusy, addr)
  {
    if r.IsEmpty() {
      return NULL_ENTRY;
    }
    var a := RegAddr(addr);
    var useTaintedRegister := FindWriters(r, a);
    FoundInRange(r, a, Rows(r));
    if |useTaintedRegister| == 0 {
      return NULL_ENTRY;
    }
    if |useTaintedRegister| == 1 {
      return r.entry[useTaintedRegister[0].0][useTaintedRegister[0].1];
    }
    instr := r.Head();
    var unbusy := GetDiff(r, previouslyBusy, currentlyBusy);
    for n := 0 to |unbusy|
      invariant instr == LastWriter(unbusy[..n], a, r.Head())
    {
      assert unbusy[..n + 1][..n] == unbusy[..n];
      if unbusy[n].dst * 8 == a && unbusy[n].dstType != DEST_UNUSED {
        instr := unbusy[n];
      }
    }
    assert unbusy[..|unbusy|] == unbusy;
  }

  // ------------------------------------------------------------------ what the walk finds

  /** Rows from head round to tail. */
  ghost predicate InWindow(r: RobState, i: nat)
    requires r.Valid() && i < |r.entry|
  {
    if r.head < r.tail then r.head <= i <= r.tail
    else if r.head > r.tail then r.head <= i || i <= r.tail
    else true
  }

  /** The walk visits every row of the circular window and no other, each once; only in a buffer with
      head and tail in one row is the head row visited a second time, at the end. */
  lemma WalkVisitsWindow(r: RobState, i: nat, k: nat)
    requires r.Valid() && i < |r.entry| && k < Rows(r)
    ensures InWindow(r, i) <==> StepOf(r, i) < Rows(r)
    ensures Row(r, k) == i <==> k == StepOf(r, i) || (r.head == r.tail && i == r.head && k == |r.entry|)
  {
    RowFacts(r, k);
  }

  /** A slot of the window that holds a valid instruction writing the register this byte belongs to. */
  ghost predicate Candidate(r: RobState, addr: nat, i: nat, j: nat)
    requires r.Valid()
  {
    i < |r.entry| && j < N_ROBS && InWindow(r, i) && r.entry[i][j].valid && WritesByte(r.entry[i][j], addr)
  }

  ghost predicate Only(r: RobState, addr: nat, i: nat, j: nat)
    requires r.Valid()
  {
    Candidate(r, addr, i, j) && forall i': nat, j': nat :: Candidate(r, addr, i', j') ==> i' == i && j' == j
  }

  /** What the walk looks for in a row of the window. */
  lemma MatchIsCandidate(r: RobState, addr: nat, k: nat, j: nat)
    requires r.Valid() && k < Rows(r) && j < N_ROBS
    ensures Matches(r, RegAddr(addr), Row(r, k), j) <==> Candidate(r, addr, Row(r, k), j)
  {
    WalkVisitsWindow(r, Row(r, k), k);
    RegisterOfByte(r.entry[Row(r, k)][j], addr);
  }

  /** With one candidate, the walk finds it once, or twice when it stands in the head row of a buffer
      whose head and tail share that row. */
  lemma {:induction false} FoundOnly(r: RobState, addr: nat, i: nat, j: nat, k: nat)
    requires r.Valid() && Only(r, addr, i, j) && k <= Rows(r)
    ensures Found(r, RegAddr(addr), k) == (if k > StepOf(r, i) then [(i, j)] else []) +
                                          (if r.head == r.tail && i == r.head && k > |r.entry| then [(i, j)] else [])
  {
    if k > 0 {
      FoundOnly(r, addr, i, j, k - 1);
      FoundNext(r, RegAddr(addr), k - 1);
      WalkVisitsWindow(r, i, k - 1);
      RowOfOnly(r, addr, i, j, k - 1);
    }
  }

  lemma RowOfOnly(r: RobState, addr: nat, i: nat, j: nat, k: nat)
    requires r.Valid() && Only(r, addr, i, j) && k < Rows(r)
    ensures RowMatches(r, RegAddr(addr), Row(r, k)) == if Row(r, k) == i then [(i, j)] else []
  {
    MatchIsCandidate(r, addr, k, 0);
    MatchIsCandidate(r, addr, k, 1);
  }

  lemma {:induction false} FoundNone(r: RobState, addr: nat, k: nat)
    requires r.Valid() && k <= Rows(r) && forall i: nat, j: nat :: !Candidate(r, addr, i, j)
    ensures Found(r, RegAddr(addr), k) == []
  {
    if k > 0 {
      FoundNone(r, addr, k - 1);
      MatchIsCandidate(r, addr, k - 1, 0);
      MatchIsCandidate(r, addr, k - 1, 1);
    }
  }

  lemma RowContains(r: RobState, addr: nat, k: nat, j: nat)
    requires r.Valid() && k < Rows(r) && Candidate(r, addr, Row(r, k), j)
    ensures (Row(r, k), j) in RowMatches(r, RegAddr(addr), Row(r, k))
  {
    MatchIsCandidate(r, addr, k, j);
  }

  lemma RowAtStep(r: RobState, i: nat)
    requires r.Valid() && i < |r.entry| && StepOf(r, i) < Rows(r)
    ensures Row(r, StepOf(r, i)) == i
  {
    WalkVisitsWindow(r, i, StepOf(r, i));
  }

  lemma InConcat<T>(a: seq<T>, b: seq<T>, x: T)
    requires x in a || x in b
    ensures x in a + b
  {}

  lemma {:induction false} FoundContains(r: RobState, a: nat, h: nat, k: nat, x: (nat, nat))
    requires r.Valid() && h < k && x in RowMatches(r, a, Row(r, h))
    ensures x in Found(r, a, k)
    decreases k
  {
    FoundNext(r, a, k - 1);
    if h < k - 1 {
      FoundContains(r, a, h, k - 1, x);
      InConcat(Found(r, a, k - 1), RowMatches(r, a, Row(r, k - 1)), x);
    } else {
      InConcat(Found(r, a, h), RowMatches(r, a, Row(r, h)), x);
    }
  }

  lemma CandidateFound(r: RobState, addr: nat, i: nat, j: nat)
    requires r.Valid() && Candidate(r, addr, i, j)
    ensures (i, j) in Found(r, RegAddr(addr), Rows(r))
  {
    WalkVisitsWindow(r, i, 0);
    RowAtStep(r, i);
    RowContains(r, addr, StepOf(r, i), j);
    FoundContains(r, RegAddr(addr), StepOf(r, i), Rows(r), (i, j));
  }

  /** Nobody is blamed in an empty buffer, or when no instruction in the window writes the register. */
  lemma NobodyBlamed(r: RobState, m: BusyMask, m': BusyMask, addr: nat)
    requires r.Valid()
    requires r.IsEmpty() || forall i: nat, j: nat :: !Candidate(r, addr, i, j)
    ensures Tainting(r, m, m', addr) == NULL_ENTRY
  {
    if !r.IsEmpty() { FoundNone(r, addr, Rows(r)); }
  }

  /** The only writer in the window is blamed, unless it stands in the head row of a full buffer. */
  lemma OnlyWriterBlamed(r: RobState, m: BusyMask, m': BusyMask, addr: nat, i: nat, j: nat)
    requires r.Valid() && !r.IsEmpty() && Only(r, addr, i, j)
    ensures Tainting(r, m, m', addr) ==
            if r.head == r.tail && i == r.head then Fallback(r, m, m', RegAddr(addr)) else r.entry[i][j]
  {
    WalkVisitsWindow(r, i, 0);
    FoundOnly(r, addr, i, j, Rows(r));
  }

  /** When the only writer is blamed: unless it stands in the head row of a full buffer, always; there,
      when it is the last writer of the register to have stopped being busy, or when none has and it is
      the head itself. */
  lemma OnlyWriterBlamedIff(r: RobState, m: BusyMask, m': BusyMask, addr: nat, i: nat, j: nat)
    requires r.Valid() && Only(r, addr, i, j)
    ensures Tainting(r, m, m', addr) == r.entry[i][j] <==>
            && !r.IsEmpty()
            && (r.head != r.tail || i != r.head || IsFallback(Diff(r, m, m', |r.entry|), addr, r.Head(), r.entry[i][j]))
  {
    assert r.entry[i][j].valid;
    if !r.IsEmpty() {
      OnlyWriterBlamed(r, m, m', addr, i, j);
      LastWriterIff(Diff(r, m, m', |r.entry|), addr, r.Head(), r.entry[i][j]);
    }
  }

  lemma AtLeastTwo<T>(s: seq<T>, x: T, y: T)
    requires x in s && y in s && x != y
    ensures |s| >= 2
  {}

  /** Among several writers, the fallback decides: the last writer to have stopped being busy, or the head. */
  lemma SeveralWriters(r: RobState, m: BusyMask, m': BusyMask, addr: nat, i: nat, j: nat, i': nat, j': nat, e: RobEntry)
    requires r.Valid() && !r.IsEmpty() && (i, j) != (i', j')
    requires Candidate(r, addr, i, j) && Candidate(r, addr, i', j')
    ensures Tainting(r, m, m', addr) == e <==> IsFallback(Diff(r, m, m', |r.entry|), addr, r.Head(), e)
  {
    CandidateFound(r, addr, i, j);
    CandidateFound(r, addr, i', j');
    AtLeastTwo(Found(r, RegAddr(addr), Rows(r)), (i, j), (i', j'));
    LastWriterIff(Diff(r, m, m', |r.entry|), addr, r.Head(), e);
  }

  /** All bytes of a register blame the same instruction. */
  lemma SameRegisterSameBlame(r: RobState, m: BusyMask, m': BusyMask, addr: nat, addr': nat)
    requires r.Valid() && addr / 8 == addr' / 8
    ensures Tainting(r, m, m', addr) == Tainting(r, m, m', addr')
  {
    assert RegAddr(addr) == 8 * (addr / 8) && RegAddr(addr') == 8 * (addr' / 8);
  }

  /** Is entry n of the sequence the last one that writes the register of this byte? */
  ghost predicate IsLastWriter(es: seq<RobEntry>, addr: nat, n: nat) {
    n < |es| && WritesByte(es[n], addr) && forall k :: n < k < |es| ==> !WritesByte(es[k], addr)
  }

  /** The fallback is the last entry to have stopped being busy that writes the register, or the head
      when there is none. */
  lemma {:induction false} LastWriterIs(es: seq<RobEntry>, addr: nat, default: RobEntry)
    ensures var e := LastWriter(es, RegAddr(addr), default);
            || (exists n: nat :: IsLastWriter(es, addr, n) && e == es[n])
            || ((forall n :: 0 <= n < |es| ==> !WritesByte(es[n], addr)) && e == default)
  {
    if es != [] {
      var last := |es| - 1;
      RegisterOfByte(es[last], addr);
      if WritesByte(es[last], addr) {
        assert IsLastWriter(es, addr, last);
      } else {
        var init := es[..last];
        LastWriterIs(init, addr, default);
        assert forall n :: 0 <= n < last ==> init[n] == es[n];
        if n: nat :| IsLastWriter(init, addr, n) && LastWriter(init, RegAddr(addr), default) == init[n] {
          assert IsLastWriter(es, addr, n);
        }
      }
    }
  }

  /** Is e the last of these entries to write the register, or the default when none does? */
  ghost predicate IsFallback(es: seq<RobEntry>, addr: nat, default: RobEntry, e: RobEntry) {
    || (exists n: nat :: IsLastWriter(es, addr, n) && es[n] == e)
    || ((forall n :: 0 <= n < |es| ==> !WritesByte(es[n], addr)) && default == e)
  }

  lemma LastWriterIff(es: seq<RobEntry>, addr: nat, default: RobEntry, e: RobEntry)
    ensures LastWriter(es, RegAddr(addr), default) == e <==> IsFallback(es, addr, default, e)
  {
    LastWriterIs(es, addr, default);
    forall n: nat, n': nat | IsLastWriter(es, addr, n) && IsLastWriter(es, addr, n') ensures n == n' {
      assert WritesByte(es[n], addr) && WritesByte(es[n'], addr);
    }
  }

  /** In a full buffer the only writer of a register goes unblamed when it shares the head's row and
      did not stop being busy in the last cycle. */
  lemma FullBufferExample()
    ensures var e := (i: nat, j: nat, dst: nat) => RobEntry(0, true, false, 0, false, 0, dst, 0, j, i);
            var r := RobState(0, 0, [[e(0, 0, 5), e(0, 1, 7)], [e(1, 0, 5), e(1, 1, 5)]]);
            && r.Valid() && Only(r, 56, 0, 1)
            && Tainting(r, BusyMask(0, 0), BusyMask(0, 0), 56) == r.entry[0][0]
  {
    var e := (i: nat, j: nat, dst: nat) => RobEntry(0, true, false, 0, false, 0, dst, 0, j, i);
    var r := RobState(0, 0, [[e(0, 0, 5), e(0, 1, 7)], [e(1, 0, 5), e(1, 1, 5)]]);
    var m := BusyMask(0, 0);
    OnlyWriterBlamed(r, m, m, 56, 0, 1);
    forall i: nat ensures !Bit(0, i) { BitOfZero(i); }
    assert RowDiff(r, m, m, 0) == [] && RowDiff(r, m, m, 1) == [];
    assert Diff(r, m, m, 0) == [];
    assert Diff(r, m, m, 1) == Diff(r, m, m, 0) + RowDiff(r, m, m, 0);
    assert Diff(r, m, m, 2) == Diff(r, m, m, 1) + RowDiff(r, m, m, 1);
  }
}
