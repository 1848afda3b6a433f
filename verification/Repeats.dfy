/** The "same address again" counter shared by the two stuck detectors, against its history. */
module Repeats {

  datatype Counter = Counter(last: nat, n: nat)

  function Count(c: Counter, a: nat): Counter {
    if a == c.last then c.(n := c.n + 1) else Counter(a, 0)
  }

  function CountAll(c: Counter, hist: seq<nat>): Counter {
    if hist == [] then c else Count(CountAll(c, hist[..|hist| - 1]), hist[|hist| - 1])
  }

  /** Do the last k entries of h exist and agree? */
  ghost predicate EndsEqual(h: seq<nat>, k: nat) {
    k <= |h| && forall i :: |h| - k <= i < |h| ==> h[i] == h[|h| - 1]
  }

  /** A history that leaves the counter in this state; a fresh one has seen the address 0 once. */
  function Past(c: Counter): (h: seq<nat>)
    ensures |h| == c.n + 1
    ensures c == Counter(0, 0) ==> h == [0]
  {
    seq(c.n + 1, _ => c.last)
  }

  /** The counter measures the final run of equal entries in the whole history. */
  lemma {:induction false} CounterMeasuresRun(start: Counter, hist: seq<nat>, k: nat)
    requires k > 0
    ensures var c, h := CountAll(start, hist), Past(start) + hist;
            && c.last == h[|h| - 1]
            && (EndsEqual(h, k) <==> k <= c.n + 1)
  {
    if hist != [] {
      var init, a := hist[..|hist| - 1], hist[|hist| - 1];
      var h, h' := Past(start) + init, Past(start) + hist;
      assert h' == h + [a];
      CounterMeasuresRun(start, init, if k == 1 then 1 else k - 1);
      if k > 1 && a == h[|h| - 1] {
        assert EndsEqual(h', k) <==> EndsEqual(h, k - 1) by {
          if EndsEqual(h', k) {
            forall i | |h| - (k - 1) <= i < |h| ensures h[i] == h[|h| - 1] { assert h[i] == h'[i]; }
          }
        }
      } else if k > 1 {
        assert h'[|h'| - 2] == h[|h| - 1];
      }
    }
  }
}
