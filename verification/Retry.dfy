/** `retry` with exponential backoff, driven by arbitrary outcomes, durations and cancellation. */
module Retry {
  import opened Domain

  const MAX_BACKOFF: nat := 30
  const MS_PER_SECOND: nat := 1000

  function Pow2(k: nat): (p: nat)
    ensures p >= 1
  {
    if k == 0 then 1 else 2 * Pow2(k - 1)
  }

  function Min(a: int, b: int): int {
    if a < b then a else b
  }

  /** Seconds before retry number `attempt`; a shift of 64 or more saturates. */
  function BackoffDelay(attempt: U32): nat {
    var secs := if attempt < 64 then Pow2(attempt) else U64_MAX;
    Min(secs, MAX_BACKOFF)
  }

  /** The `u32` counter after `k` saturating increments. */
  function AttemptNumber(k: nat): U32 {
    Min(k, 0xFFFF_FFFF)
  }

  /** Total backoff, in seconds, of the first `n` retries. */
  function TotalSleep(n: nat): nat {
    if n == 0 then 0 else TotalSleep(n - 1) + BackoffDelay(AttemptNumber(n - 1))
  }

  lemma {:induction false} Pow2AtLeast32(k: nat)
    requires k >= 5
    ensures Pow2(k) >= 32
  {
    if k > 5 {
      Pow2AtLeast32(k - 1);
    } else {
      assert Pow2(3) == 8;
    }
  }

  lemma BackoffIsCapped(attempt: U32)
    ensures 1 <= BackoffDelay(attempt) <= 30
    ensures attempt >= 5 ==> BackoffDelay(attempt) == 30
    ensures attempt < 5 ==> BackoffDelay(attempt) == Pow2(attempt)
  {
    assert Pow2(0) == 1 && Pow2(1) == 2 && Pow2(2) == 4 && Pow2(3) == 8 && Pow2(4) == 16;
    if attempt >= 5 {
      Pow2AtLeast32(attempt);
    }
  }

  /** 1s + 2s + 4s + 8s + 16s, then 30s each, past the saturation of the counter as well. */
  lemma {:induction false} TotalSleepIs(n: nat)
    ensures n <= 5 ==> TotalSleep(n) == Pow2(n) - 1
    ensures n >= 5 ==> TotalSleep(n) == 31 + 30 * (n - 5)
  {
    if n > 0 {
      TotalSleepIs(n - 1);
      BackoffIsCapped(AttemptNumber(n - 1));
      if n == 5 {
        assert Pow2(2) == 4 && Pow2(5) == 8 * Pow2(2);
      }
    }
  }

  // ---------------------------------------------------------------- one retried operation

  /** The world of one `retry`: what call k returns and how long it takes (in milliseconds), when
      the first call starts, and when, if ever, the token is cancelled. */
  datatype World<T, E> = World(
    outcome: nat -> Result<T, E>,
    duration: nat -> nat,
    start: nat,
    cancelAt: Option<nat>)

  predicate CancelledBy(cancelAt: Option<nat>, now: nat) {
    cancelAt.Some? && cancelAt.value <= now
  }

  /** When call `k` starts if nothing cancels before. */
  function CallStart<T, E>(w: World<T, E>, k: nat): nat
    decreases k
  {
    if k == 0 then w.start
    else CallStart(w, k - 1) + w.duration(k - 1) + MS_PER_SECOND * BackoffDelay(AttemptNumber(k - 1))
  }

  function CallEnd<T, E>(w: World<T, E>, k: nat): nat {
    CallStart(w, k) + w.duration(k)
  }

  predicate Final<T, E>(w: World<T, E>, transient: E -> bool, k: nat) {
    w.outcome(k).Ok? || !transient(w.outcome(k).error)
  }

  ghost predicate AllTransient<T, E>(w: World<T, E>, transient: E -> bool, n: nat) {
    forall k: nat :: k < n ==> !Final(w, transient, k)
  }

  ghost predicate FirstFinal<T, E>(w: World<T, E>, transient: E -> bool, n: nat) {
    Final(w, transient, n) && AllTransient(w, transient, n)
  }

  /** The first `n` calls all start before the token is cancelled. */
  ghost predicate StartUncancelled<T, E>(w: World<T, E>, n: nat) {
    forall k: nat :: k < n ==> !CancelledBy(w.cancelAt, CallStart(w, k))
  }

  function Verdict<T, E>(outcome: Result<T, E>): Result<Option<T>, E> {
    match outcome
    case Ok(value) => Ok(Some(value))
    case Err(e) => Err(e)
  }

  /** Time spent in the calls themselves. */
  function BusyTime<T, E>(w: World<T, E>, n: nat): nat
    decreases n
  {
    if n == 0 then 0 else BusyTime(w, n - 1) + w.duration(n - 1)
  }

  /** Call `n` starts after n calls and exactly the backoff of n retries. */
  lemma {:induction false} CallStartIs<T, E>(w: World<T, E>, n: nat)
    ensures CallStart(w, n) == w.start + BusyTime(w, n) + MS_PER_SECOND * TotalSleep(n)
  {
    if n > 0 {
      CallStartIs(w, n - 1);
    }
  }

  lemma {:induction false} CallsAdvance<T, E>(w: World<T, E>, i: nat, j: nat)
    requires i <= j
    ensures CallStart(w, j) >= CallStart(w, i) + (j - i)
    ensures i < j ==> CallStart(w, j) >= CallEnd(w, i)
    decreases j
  {
    if i < j {
      CallsAdvance(w, i, j - 1);
      BackoffIsCapped(AttemptNumber(j - 1));
    }
  }

  /** Without a cancellation and without a final outcome the loop never returns. */
  ghost predicate Ends<T(!new), E(!new)>(w: World<T, E>, transient: E -> bool) {
    w.cancelAt.Some? || exists n: nat :: Final(w, transient, n)
  }

  /** When a cancellation is noticed: at once, or at the first poll if it came before the start. */
  function SeenAt<T, E>(w: World<T, E>): nat
    requires w.cancelAt.Some?
  {
    if w.start < w.cancelAt.value then w.cancelAt.value else w.start
  }

  /** The first final outcome, unless the token is cancelled by the time that outcome is there. */
  ghost predicate FirstFinalOrCancelled<T(!new), E(!new)>(
    w: World<T, E>, transient: E -> bool, r: Result<Option<T>, E>, calls: nat, endedAt: nat)
  {
    forall n: nat :: FirstFinal(w, transient, n) ==>
      if CancelledBy(w.cancelAt, CallEnd(w, n)) then r == Ok(None)
      else r == Verdict(w.outcome(n)) && calls == n + 1 && endedAt == CallEnd(w, n)
  }

  /** Everything `retry` promises: the exact result; no call starts once the token is cancelled;
      `None` only for a cancellation, returned as soon as it is noticed; any other result is the
      first final outcome, so a transient error is never returned. */
  ghost predicate Promised<T(!new), E(!new)>(
    w: World<T, E>, transient: E -> bool, r: Result<Option<T>, E>, calls: nat, endedAt: nat)
  {
    && FirstFinalOrCancelled(w, transient, r, calls, endedAt)
    && StartUncancelled(w, calls)
    && (r == Ok(None) ==>
          w.cancelAt.Some? && endedAt == SeenAt(w) && CancelledBy(w.cancelAt, CallStart(w, calls)))
    && (r != Ok(None) ==>
          calls > 0 && FirstFinal(w, transient, calls - 1) && r == Verdict(w.outcome(calls - 1)))
    && (r.Err? ==> !transient(r.error))
  }

  lemma FinalComesLater<T(!new), E(!new)>(w: World<T, E>, transient: E -> bool, k: nat, n: nat)
    requires FirstFinal(w, transient, n) && AllTransient(w, transient, k)
    ensures n >= k && CallEnd(w, n) >= CallEnd(w, k)
    ensures n > k ==> CallEnd(w, n) >= CallStart(w, k + 1)
  {
    CallsAdvance(w, k, n);
    if n > k {
      CallsAdvance(w, k + 1, n);
    }
  }

  lemma EndsWithOutcome<T(!new), E(!new)>(w: World<T, E>, transient: E -> bool, n: nat)
    requires FirstFinal(w, transient, n) && !CancelledBy(w.cancelAt, CallEnd(w, n)) && StartUncancelled(w, n)
    ensures Promised(w, transient, Verdict(w.outcome(n)), n + 1, CallEnd(w, n))
  {
    forall m: nat | FirstFinal(w, transient, m) ensures m == n {
      assert !(m < n) && !(n < m);
    }
    assert StartUncancelled(w, n + 1);
  }

  /** Cancelled while call `k` or the sleep after it was pending. */
  lemma EndsCancelled<T(!new), E(!new)>(w: World<T, E>, transient: E -> bool, k: nat)
    requires AllTransient(w, transient, k) && StartUncancelled(w, k + 1)
    requires || CancelledBy(w.cancelAt, CallEnd(w, k))
             || (!Final(w, transient, k) && CancelledBy(w.cancelAt, CallStart(w, k + 1)))
    ensures Promised(w, transient, Ok(None), k + 1, w.cancelAt.value)
  {
    forall n: nat | FirstFinal(w, transient, n) ensures CancelledBy(w.cancelAt, CallEnd(w, n)) {
      FinalComesLater(w, transient, k, n);
    }
    CallsAdvance(w, 0, k);
    CallsAdvance(w, k, k + 1);
  }

  lemma NeverStarts<T(!new), E(!new)>(w: World<T, E>, transient: E -> bool)
    requires CancelledBy(w.cancelAt, w.start)
    ensures Promised(w, transient, Ok(None), 0, w.start)
  {
    forall n: nat | FirstFinal(w, transient, n) ensures CancelledBy(w.cancelAt, CallEnd(w, n)) {
      CallsAdvance(w, 0, n);
    }
  }

  /** How one turn of the loop ends: with a result, or ready to call again at `now`. */
  datatype Turn<T, E> = Done(result: Result<Option<T>, E>, calls: nat, endedAt: nat) | Again(now: nat)

  /** One turn: the call and, after a transient error, the sleep. Both selects are biased, so the
      token wins over an operation or a timer that is ready at the same moment. */
  method OneTurn<T(!new), E(!new)>(w: World<T, E>, transient: E -> bool, k: nat, attempt: U32, now: nat)
    returns (t: Turn<T, E>)
    requires attempt == AttemptNumber(k) && now == CallStart(w, k)
    requires AllTransient(w, transient, k) && StartUncancelled(w, k)
    requires k > 0 ==> !CancelledBy(w.cancelAt, now)
    ensures t.Done? ==> Promised(w, transient, t.result, t.calls, t.endedAt)
    ensures t.Again? ==>
              && t.now == CallStart(w, k + 1) && !CancelledBy(w.cancelAt, t.now)
              && AllTransient(w, transient, k + 1) && StartUncancelled(w, k + 1)
  {
    if CancelledBy(w.cancelAt, now) {
      NeverStarts(w, transient);
      return Done(Ok(None), k, now);
    }
    assert StartUncancelled(w, k + 1);
    var finishedAt := now + w.duration(k);
    if CancelledBy(w.cancelAt, finishedAt) {
      EndsCancelled(w, transient, k);
      return Done(Ok(None), k + 1, w.cancelAt.value);
    }
    var outcome := w.outcome(k);
    if outcome.Ok? || !transient(outcome.error) {
      EndsWithOutcome(w, transient, k);
      return Done(Verdict(outcome), k + 1, finishedAt);
    }
    var wakesAt := finishedAt + MS_PER_SECOND * BackoffDelay(attempt);
    if CancelledBy(w.cancelAt, wakesAt) {
      EndsCancelled(w, transient, k);
      return Done(Ok(None), k + 1, w.cancelAt.value);
    }
    return Again(wakesAt);
  }

  /** The loop of `retry`. `calls` counts the operations that were polled. */
  method Run<T(!new), E(!new)>(w: World<T, E>, transient: E -> bool)
    returns (r: Result<Option<T>, E>, calls: nat, endedAt: nat)
    requires Ends(w, transient)
    ensures Promised(w, transient, r, calls, endedAt)
  {
    var attempt: U32 := 0;
    var now := w.start;
    var k: nat := 0;
    while true
      invariant attempt == AttemptNumber(k) && now == CallStart(w, k)
      invariant AllTransient(w, transient, k) && StartUncancelled(w, k)
      invariant k > 0 ==> !CancelledBy(w.cancelAt, now)
      invariant k <= CallBound(w, transient)
      decreases CallBound(w, transient) - k
    {
      var turn := OneTurn(w, transient, k, attempt, now);
      if turn.Done? {
        return turn.result, turn.calls, turn.endedAt;
      }
      now := turn.now;
      attempt := if attempt < U32_MAX then attempt + 1 else attempt;
      k := k + 1;
      NextCallIsBounded(w, transient, k);
    }
  }

  /** No more calls than this can be left waiting for an outcome. */
  ghost function CallBound<T(!new), E(!new)>(w: World<T, E>, transient: E -> bool): nat
    requires Ends(w, transient)
  {
    if w.cancelAt.Some? then w.cancelAt.value else var n: nat :| Final(w, transient, n); n
  }

  lemma NextCallIsBounded<T(!new), E(!new)>(w: World<T, E>, transient: E -> bool, calls: nat)
    requires Ends(w, transient)
    requires AllTransient(w, transient, calls) && !CancelledBy(w.cancelAt, CallStart(w, calls))
    ensures calls <= CallBound(w, transient)
  {
    CallsAdvance(w, 0, calls);
  }

  /** The token wins ties: an outcome that is there only when the token is already cancelled, be it at
      that very moment, is not returned, and no call starts at or after the cancellation. */
  lemma CancellationWinsTies<T(!new), E(!new)>(
    w: World<T, E>, transient: E -> bool, c: nat, n: nat, r: Result<Option<T>, E>, calls: nat, endedAt: nat)
    requires w.cancelAt == Some(c) && Promised(w, transient, r, calls, endedAt)
    ensures FirstFinal(w, transient, n) ==> (r == Ok(None) <==> c <= CallEnd(w, n))
    ensures n < calls ==> CallStart(w, n) < c
  {
    if FirstFinal(w, transient, n) && r != Ok(None) {
      assert FirstFinal(w, transient, calls - 1);
      assert !(n < calls - 1) && !(calls - 1 < n);
    }
  }

  /** With n transient outcomes, then a final one, and no cancellation, `op` runs n + 1 times and
      `retry` spends exactly the backoff of n retries besides the calls themselves. */
  lemma UncancelledTiming<T(!new), E(!new)>(
    w: World<T, E>, transient: E -> bool, n: nat, r: Result<Option<T>, E>, calls: nat, endedAt: nat)
    requires FirstFinal(w, transient, n) && w.cancelAt.None? && Promised(w, transient, r, calls, endedAt)
    ensures r == Verdict(w.outcome(n)) && calls == n + 1
    ensures endedAt == w.start + BusyTime(w, n + 1) +
                       1000 * (if n <= 5 then Pow2(n) - 1 else 31 + 30 * (n - 5))
  {
    CallStartIs(w, n);
    TotalSleepIs(n);
  }
}
