/** How stale a read can be: what it shows was fetched no earlier than the schedule allows. */
module Freshness {
  import opened Domain
  import opened Service
  import opened Shutdown
  import opened FetchOrder
  import opened Timed
  import Http
  import Schedule

  // ---------------------------------------------------------------- imports are done in time

  lemma DoneByState(interval: nat, duration: nat -> nat, s: State, clock: Clock, step: Step, t: nat, k: nat)
    requires ControlInv(s) && !s.cancelled
    requires OnSchedule(interval, duration, |s.tasks|, s.loop.Joining?, clock)
    requires InTime(interval, duration, s, clock, step, t) && Schedule.EndAt(interval, duration, k) < t
    ensures k < |s.tasks| && s.tasks[k].Finished?
  {
    var n := |s.tasks|;
    if s.loop.AtSelect? {
      NextTickIsScheduled(interval, duration, n, clock);
      if n <= k { StartsGrow(interval, duration, n, k); }
    } else {
      DueIsScheduled(interval, duration, n, clock);
      if n - 1 < k { StartsGrow(interval, duration, n - 1, k); }
    }
  }

  /** At any step after the scheduled end of import k, unless the token is cancelled, import k has
      been spawned and has finished. */
  lemma DoneByEnd(env: Env, s0: State, initial: seq<Node>, interval: nat, duration: nat -> nat,
                  steps: seq<Step>, times: seq<nat>, i: nat, k: nat)
    requires Start(s0, initial) && Legal(env, s0, steps) && Timely(env, s0, interval, duration, steps, times)
    requires i < |steps| && !Signalled(s0, steps[..i])
    requires Schedule.EndAt(interval, duration, k) < times[i]
    ensures k < |After(env, s0, steps[..i]).tasks| && After(env, s0, steps[..i]).tasks[k].Finished?
  {
    CancelledIff(env, s0, steps[..i]);
    Prefix(env, s0, steps, i);
    TimelyPrefix(env, s0, interval, duration, steps, times, i);
    ControlInvariant(env, s0, initial, steps[..i]);
    ScheduledAt(env, s0, initial, interval, duration, steps, times, i);
    DoneByState(interval, duration, After(env, s0, steps[..i]), ClockAfter(steps[..i], times[..i]),
                steps[i], times[i], k);
  }

  // ---------------------------------------------------------------- fetches come after their tick

  lemma {:induction false} StartsArePast(env: Env, s0: State, interval: nat, duration: nat -> nat,
                                         steps: seq<Step>, times: seq<nat>, k: nat)
    requires Timely(env, s0, interval, duration, steps, times) && k < |ClockAfter(steps, times).starts|
    ensures steps != [] && ClockAfter(steps, times).starts[k] <= times[|times| - 1]
    decreases |steps|
  {
    var n := |steps| - 1;
    if k < |ClockAfter(steps[..n], times[..n]).starts| {
      StartsArePast(env, s0, interval, duration, steps[..n], times[..n], k);
    }
  }

  lemma StartedBefore(env: Env, s0: State, interval: nat, duration: nat -> nat,
                      steps: seq<Step>, times: seq<nat>, i: nat, k: nat)
    requires Timely(env, s0, interval, duration, steps, times) && i < |steps|
    requires k < |ClockAfter(steps[..i], times[..i]).starts|
    ensures ClockAfter(steps[..i], times[..i]).starts[k] <= times[i]
  {
    TimelyPrefix(env, s0, interval, duration, steps, times, i);
    StartsArePast(env, s0, interval, duration, steps[..i], times[..i], k);
  }

  lemma ScheduledAt(env: Env, s0: State, initial: seq<Node>, interval: nat, duration: nat -> nat,
                    steps: seq<Step>, times: seq<nat>, i: nat)
    requires Start(s0, initial) && Legal(env, s0, steps) && Timely(env, s0, interval, duration, steps, times)
    requires i <= |steps|
    ensures var s := After(env, s0, steps[..i]);
            OnSchedule(interval, duration, |s.tasks|, s.loop.Joining?, ClockAfter(steps[..i], times[..i]))
  {
    Prefix(env, s0, steps, i);
    TimelyPrefix(env, s0, interval, duration, steps, times, i);
    TicksFollowSchedule(env, s0, initial, interval, duration, steps[..i], times[..i]);
  }

  lemma FetchedAfterTick(env: Env, s0: State, initial: seq<Node>, interval: nat, duration: nat -> nat,
                         steps: seq<Step>, times: seq<nat>, f: nat)
    requires Start(s0, initial) && Legal(env, s0, steps) && Timely(env, s0, interval, duration, steps, times)
    requires f < |steps| && steps[f].FetchDone?
    ensures Schedule.StartAt(interval, duration, steps[f].task) <= times[f]
  {
    Prefix(env, s0, steps, f);
    ScheduledAt(env, s0, initial, interval, duration, steps, times, f);
    StartedBefore(env, s0, interval, duration, steps, times, f, steps[f].task);
  }

  // ---------------------------------------------------------------- what a read shows

  /** The reply shows import `k` or a younger one, and nothing of it was fetched before `since`. */
  ghost predicate ShowsSince(env: Env, initial: seq<Node>, steps: seq<Step>, times: seq<nat>, origin: Option<nat>,
                             reply: Http.Reply, k: nat, since: nat)
    requires |times| == |steps|
  {
    && origin.Some? && ShowsOrigin(env, initial, steps, origin, reply)
    && k <= steps[origin.value].task
    && (exists f :: 0 <= f < |steps| && FetchOf(steps[f], steps[origin.value].task))
    && (forall f :: 0 <= f < |steps| && FetchOf(steps[f], steps[origin.value].task) ==> since <= times[f])
  }

  lemma NoneAppliedSince(steps: seq<Step>, i: nat, j: nat)
    requires j < i <= |steps| && Applies(steps[j])
    ensures AppliedAt(steps[..i]).Some? && j <= AppliedAt(steps[..i]).value < i
    ensures Applies(steps[AppliedAt(steps[..i]).value])
  {
    assert Applies(steps[..i][j]);
  }

  /** The table is never that of an import older than one that committed. */
  lemma AppliedNoOlder(env: Env, s0: State, initial: seq<Node>, steps: seq<Step>, i: nat, j: nat)
    requires Start(s0, initial) && Legal(env, s0, steps) && j < i <= |steps| && Applies(steps[j])
    ensures AppliedAt(steps[..i]).Some? && steps[j].task <= steps[AppliedAt(steps[..i]).value].task
  {
    NoneAppliedSince(steps, i, j);
    var c := AppliedAt(steps[..i]).value;
    if j < c {
      CommitsInSpawnOrder(env, s0, initial, steps, j, c);
    }
  }

  lemma SuccessCommitted(env: Env, s0: State, initial: seq<Node>, steps: seq<Step>, i: nat, k: nat) returns (j: nat)
    requires Start(s0, initial) && Legal(env, s0, steps) && i <= |steps|
    requires k < |After(env, s0, steps[..i]).tasks| && Succeeded(After(env, s0, steps[..i]).tasks[k])
    ensures j < i && steps[j] == CommitDone(k)
  {
    Prefix(env, s0, steps, i);
    SuccessMeansCommit(env, s0, initial, steps[..i], k);
    j :| 0 <= j < i && steps[..i][j] == CommitDone(k);
  }

  lemma FetchedSince(env: Env, s0: State, initial: seq<Node>, interval: nat, duration: nat -> nat,
                     steps: seq<Step>, times: seq<nat>, f: nat, k: nat)
    requires Start(s0, initial) && Legal(env, s0, steps) && Timely(env, s0, interval, duration, steps, times)
    requires f < |steps| && steps[f].FetchDone? && k <= steps[f].task
    ensures Schedule.StartAt(interval, duration, k) <= times[f]
  {
    FetchedAfterTick(env, s0, initial, interval, duration, steps, times, f);
    StartsGrow(interval, duration, k, steps[f].task);
  }

  /** A read whose snapshot is taken after the scheduled end of import k, before any cancellation,
      finds import k finished; if import k succeeded, the read shows it or a younger import, and
      nothing it shows was fetched before import k's scheduled start. */
  lemma ReadIsFresh(env: Env, s0: State, initial: seq<Node>, interval: nat, duration: nat -> nat,
                    steps: seq<Step>, times: seq<nat>, i: nat, j: nat, k: nat)
    requires Start(s0, initial) && Legal(env, s0, steps) && Timely(env, s0, interval, duration, steps, times)
    requires IsRead(steps, i, j) && !Signalled(s0, steps[..i])
    requires Schedule.EndAt(interval, duration, k) < times[i]
    ensures k < |After(env, s0, steps[..i]).tasks| && After(env, s0, steps[..i]).tasks[k].Finished?
    ensures Succeeded(After(env, s0, steps[..i]).tasks[k]) ==>
              ShowsSince(env, initial, steps, times, AppliedAt(steps[..i]), ReplyTo(env, steps[j]), k,
                         Schedule.StartAt(interval, duration, k))
  {
    DoneByEnd(env, s0, initial, interval, duration, steps, times, i, k);
    if Succeeded(After(env, s0, steps[..i]).tasks[k]) {
      var commit := SuccessCommitted(env, s0, initial, steps, i, k);
      AppliedNoOlder(env, s0, initial, steps, i, commit);
      ReadShowsOrigin(env, s0, initial, steps, i, j);
      var c := AppliedAt(steps[..i]).value;
      CommitterFetched(env, s0, initial, steps, c);
      forall f | 0 <= f < |steps| && FetchOf(steps[f], steps[c].task)
        ensures Schedule.StartAt(interval, duration, k) <= times[f]
      {
        FetchedSince(env, s0, initial, interval, duration, steps, times, f, k);
      }
    }
  }

  ghost predicate AllSucceed(s: State) {
    forall id :: 0 <= id < |s.tasks| && s.tasks[id].Finished? ==> Succeeded(s.tasks[id])
  }

  /** The moment `k` intervals after the start. */
  function Grid(interval: nat, k: nat): nat {
    k * interval
  }

  /** How many whole intervals have passed at time `t`. */
  function WholeIntervals(interval: nat, t: nat): (q: nat)
    requires interval > 0
    ensures Grid(interval, q) <= t < Grid(interval, q) + interval
  {
    t / interval
  }

  lemma EndsWithinInterval(interval: nat, duration: nat -> nat, k: nat)
    requires forall j: nat :: duration(j) < interval
    ensures Schedule.StartAt(interval, duration, k) == Grid(interval, k)
    ensures Schedule.EndAt(interval, duration, k) < Grid(interval, k) + interval == Grid(interval, k + 1)
  {
    Schedule.FittingImportsStartOnTheGrid(interval, duration, k);
  }

  /** If every import succeeds in less than an interval, a read at time t >= interval shows import
      number t / interval - 1 or a younger one, so nothing fetched two intervals ago or earlier. */
  lemma ReadsLagBelowTwoIntervals(env: Env, s0: State, initial: seq<Node>, interval: nat, duration: nat -> nat,
                                  steps: seq<Step>, times: seq<nat>, i: nat, j: nat, k: nat)
    requires Start(s0, initial) && Legal(env, s0, steps) && Timely(env, s0, interval, duration, steps, times)
    requires IsRead(steps, i, j) && !Signalled(s0, steps[..i])
    requires AllSucceed(After(env, s0, steps[..i])) && forall m: nat :: duration(m) < interval
    requires interval > 0 && k + 1 == WholeIntervals(interval, times[i])
    ensures ShowsSince(env, initial, steps, times, AppliedAt(steps[..i]), ReplyTo(env, steps[j]), k, Grid(interval, k))
    ensures times[i] < Grid(interval, k) + 2 * interval
  {
    EndsWithinInterval(interval, duration, k);
    ReadIsFresh(env, s0, initial, interval, duration, steps, times, i, j, k);
  }
}
