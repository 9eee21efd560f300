/** When imports start: the ticker's Delay rule as arithmetic on start times. */
module Schedule {

  function Max(a: int, b: int): int {
    if a < b then b else a
  }

  /** Start of import `k`, when import j takes `duration(j)`. A tick that is already due fires
      at once; the following deadline is one interval after the firing. */
  function StartAt(interval: nat, duration: nat -> nat, k: nat): nat
    decreases k
  {
    if k == 0 then 0
    else Max(StartAt(interval, duration, k - 1) + interval, StartAt(interval, duration, k - 1) + duration(k - 1))
  }

  function EndAt(interval: nat, duration: nat -> nat, k: nat): nat {
    StartAt(interval, duration, k) + duration(k)
  }

  /** Imports neither overlap nor start less than an interval apart. */
  lemma {:induction false} StartsAreSpaced(interval: nat, duration: nat -> nat, i: nat, j: nat)
    requires i <= j
    ensures StartAt(interval, duration, j) >= StartAt(interval, duration, i) + (j - i) * interval
    ensures i < j ==> StartAt(interval, duration, j) >= EndAt(interval, duration, i)
    decreases j
  {
    if i < j {
      StartsAreSpaced(interval, duration, i, j - 1);
      assert (j - i) * interval == (j - 1 - i) * interval + interval;
    }
  }

  /** The imports among the first `n` that start in the window [from, from + width]. */
  function StartsWithin(interval: nat, duration: nat -> nat, n: nat, from: int, width: nat): set<int> {
    set k: int | 0 <= k < n && from <= StartAt(interval, duration, k) <= from + width
  }

  /** The `size` numbers from `lo` on. */
  function Range(lo: int, size: nat): (s: set<int>)
    ensures |s| == size
    ensures forall k :: k in s <==> lo <= k < lo + size
  {
    if size == 0 then {} else Range(lo, size - 1) + {lo + size - 1}
  }

  lemma SubsetSize(a: set<int>, b: set<int>)
    requires a <= b
    ensures |a| <= |b|
  {
    assert b == a + (b - a);
  }

  lemma ProductGrows(a: nat, b: nat, c: nat)
    requires a <= b
    ensures a * c <= b * c
  {
    assert b * c == a * c + (b - a) * c;
  }

  lemma DivisionBound(steps: nat, interval: nat, width: nat)
    requires interval > 0 && steps * interval <= width
    ensures steps <= width / interval
  {
    var q := width / interval;
    assert width < (q + 1) * interval;
    if steps >= q + 1 {
      ProductGrows(q + 1, steps, interval);
    }
  }

  /** The first import, from `k` on, that starts at `from` or later. */
  function FirstFrom(interval: nat, duration: nat -> nat, from: int, k: nat, n: nat): (r: nat)
    requires k <= n
    ensures k <= r <= n
    ensures r < n ==> from <= StartAt(interval, duration, r)
    ensures forall j: nat :: k <= j < r ==> StartAt(interval, duration, j) < from
    decreases n - k
  {
    if k < n && StartAt(interval, duration, k) < from then FirstFrom(interval, duration, from, k + 1, n) else k
  }

  /** No bursts: a window of length `width` holds at most floor(width / interval) + 1 starts,
      however long the imports take. */
  lemma WindowBound(interval: nat, duration: nat -> nat, n: nat, from: int, width: nat)
    requires interval > 0
    ensures |StartsWithin(interval, duration, n, from, width)| <= width / interval + 1
  {
    var starts := StartsWithin(interval, duration, n, from, width);
    var first := FirstFrom(interval, duration, from, 0, n);
    var room := Range(first, width / interval + 1);
    forall k | k in starts ensures k in room {
      StartsAreSpaced(interval, duration, first, k);
      DivisionBound(k - first, interval, width);
    }
    SubsetSize(starts, room);
  }

  ghost predicate OnTheGrid(interval: nat, duration: nat -> nat) {
    forall k: nat :: StartAt(interval, duration, k) == k * interval
  }

  lemma {:induction false} FittingImportsStartOnTheGrid(interval: nat, duration: nat -> nat, k: nat)
    requires forall j: nat :: duration(j) <= interval
    ensures StartAt(interval, duration, k) == k * interval
  {
    if k > 0 {
      FittingImportsStartOnTheGrid(interval, duration, k - 1);
      assert k * interval == (k - 1) * interval + interval;
    }
  }

  /** Import k starts at exactly k intervals, for every k, if and only if no import overruns. */
  lemma OnTheGridIff(interval: nat, duration: nat -> nat)
    ensures OnTheGrid(interval, duration) <==> forall j: nat :: duration(j) <= interval
  {
    if OnTheGrid(interval, duration) {
      forall j: nat ensures duration(j) <= interval {
        assert StartAt(interval, duration, j) == j * interval;
        assert StartAt(interval, duration, j + 1) == (j + 1) * interval;
        assert (j + 1) * interval == j * interval + interval;
      }
    }
    if forall j: nat :: duration(j) <= interval {
      forall k: nat ensures StartAt(interval, duration, k) == k * interval {
        FittingImportsStartOnTheGrid(interval, duration, k);
      }
    }
  }

  /** The comment beside the ticker promises a full interval of rest after an overrun. The rule gives
      none: a full interval of rest follows import k exactly when it took no time (or none is asked for). */
  lemma FullIntervalOfRestIff(interval: nat, duration: nat -> nat, k: nat)
    ensures StartAt(interval, duration, k + 1) >= EndAt(interval, duration, k) + interval <==>
            duration(k) == 0 || interval == 0
  {
    assert StartAt(interval, duration, k + 1) ==
           Max(StartAt(interval, duration, k) + interval, StartAt(interval, duration, k) + duration(k));
  }
}
