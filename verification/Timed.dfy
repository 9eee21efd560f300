/** The machine with a clock: its ticks follow the schedule, and its timed runs and the runs of the
    imperative loop are the same. */
module Timed {
  import opened Domain
  import opened Snapshot
  import opened Service
  import opened Shutdown
  import Agreement
  import Import
  import Schedule

  // ---------------------------------------------------------------- timed runs

  /** When the ticks were taken and when their imports were joined. */
  datatype Clock = Clock(starts: seq<nat>, ends: seq<nat>)

  function ClockAfter(steps: seq<Step>, times: seq<nat>): Clock
    requires |times| == |steps|
  {
    if steps == [] then Clock([], [])
    else
      var n := |steps| - 1;
      var clock := ClockAfter(steps[..n], times[..n]);
      Advance(clock, steps[n], times[n])
  }

  function Advance(clock: Clock, step: Step, t: nat): Clock {
    if step == Tick then clock.(starts := clock.starts + [t])
    else if step == Join then clock.(ends := clock.ends + [t])
    else clock
  }

  /** When the pending tick is ready: one interval after the last tick, or at once when that is past. */
  function NextTick(interval: nat, clock: Clock): nat {
    if clock.starts == [] || clock.ends == [] then 0
    else Schedule.Max(clock.starts[|clock.starts| - 1] + interval, clock.ends[|clock.ends| - 1])
  }

  /** When the import in flight ends. */
  function DueAt(duration: nat -> nat, clock: Clock): nat {
    if clock.starts == [] then 0
    else clock.starts[|clock.starts| - 1] + duration(|clock.starts| - 1)
  }

  /** A step at time `t` keeps to the clock: no tick comes early, none is passed over while the loop
      waits for it, and import k is joined exactly `duration(k)` after its tick. */
  predicate InTime(interval: nat, duration: nat -> nat, s: State, clock: Clock, step: Step, t: nat) {
    && (step == Tick ==> NextTick(interval, clock) <= t)
    && (s.loop.AtSelect? && !s.cancelled ==> t <= NextTick(interval, clock))
    && (s.loop.Joining? ==> t <= DueAt(duration, clock))
    && (step == Join ==> t == DueAt(duration, clock))
  }

  /** Time does not run backwards, and every step is in time. */
  ghost predicate Timely(env: Env, s0: State, interval: nat, duration: nat -> nat, steps: seq<Step>, times: seq<nat>)
    decreases |steps|
  {
    && |times| == |steps|
    && (steps != [] ==>
          var n := |steps| - 1;
          && Timely(env, s0, interval, duration, steps[..n], times[..n])
          && (n > 0 ==> times[n - 1] <= times[n])
          && InTime(interval, duration, After(env, s0, steps[..n]), ClockAfter(steps[..n], times[..n]),
                    steps[n], times[n]))
  }

  lemma {:induction false} TimelyPrefix(env: Env, s0: State, interval: nat, duration: nat -> nat,
                                        steps: seq<Step>, times: seq<nat>, i: nat)
    requires Timely(env, s0, interval, duration, steps, times) && i <= |steps|
    ensures Timely(env, s0, interval, duration, steps[..i], times[..i])
    ensures i < |steps| ==>
              InTime(interval, duration, After(env, s0, steps[..i]), ClockAfter(steps[..i], times[..i]),
                     steps[i], times[i])
    ensures 0 < i < |steps| ==> times[i - 1] <= times[i]
    decreases |steps|
  {
    var n := |steps| - 1;
    if i == |steps| {
      assert steps[..i] == steps && times[..i] == times;
    } else if i < n {
      TimelyPrefix(env, s0, interval, duration, steps[..n], times[..n], i);
      assert steps[..n][..i] == steps[..i] && times[..n][..i] == times[..i];
    }
  }

  // ---------------------------------------------------------------- ticks follow the schedule

  /** `n` ticks were taken and all their imports but the one in flight joined, all on schedule. */
  ghost predicate OnSchedule(interval: nat, duration: nat -> nat, n: nat, inFlight: bool, clock: Clock) {
    && |clock.starts| == n
    && |clock.ends| == n - (if inFlight then 1 else 0)
    && (forall k :: 0 <= k < |clock.starts| ==> clock.starts[k] == Schedule.StartAt(interval, duration, k))
    && (forall k :: 0 <= k < |clock.ends| ==> clock.ends[k] == Schedule.EndAt(interval, duration, k))
  }

  lemma NextTickIsScheduled(interval: nat, duration: nat -> nat, n: nat, clock: Clock)
    requires OnSchedule(interval, duration, n, false, clock)
    ensures NextTick(interval, clock) == Schedule.StartAt(interval, duration, n)
  {
  }

  lemma DueIsScheduled(interval: nat, duration: nat -> nat, n: nat, clock: Clock)
    requires OnSchedule(interval, duration, n, true, clock)
    ensures n > 0 && DueAt(duration, clock) == Schedule.EndAt(interval, duration, n - 1)
  {
  }

  lemma {:induction false} StartsGrow(interval: nat, duration: nat -> nat, i: nat, j: nat)
    requires i <= j
    ensures Schedule.StartAt(interval, duration, i) <= Schedule.StartAt(interval, duration, j)
    ensures i < j ==> Schedule.EndAt(interval, duration, i) <= Schedule.StartAt(interval, duration, j)
    decreases j
  {
    if i < j {
      StartsGrow(interval, duration, i, j - 1);
    }
  }

  lemma TickOnSchedule(interval: nat, duration: nat -> nat, n: nat, clock: Clock)
    requires OnSchedule(interval, duration, n, false, clock)
    ensures OnSchedule(interval, duration, n + 1, true, clock.(starts := clock.starts + [NextTick(interval, clock)]))
  {
    NextTickIsScheduled(interval, duration, n, clock);
    var starts := clock.starts + [NextTick(interval, clock)];
    forall k | 0 <= k < |starts| ensures starts[k] == Schedule.StartAt(interval, duration, k) {
      assert k < n ==> starts[k] == clock.starts[k];
    }
  }

  lemma JoinOnSchedule(interval: nat, duration: nat -> nat, n: nat, clock: Clock)
    requires OnSchedule(interval, duration, n, true, clock)
    ensures OnSchedule(interval, duration, n, false, clock.(ends := clock.ends + [DueAt(duration, clock)]))
  {
    DueIsScheduled(interval, duration, n, clock);
    var ends := clock.ends + [DueAt(duration, clock)];
    forall k | 0 <= k < |ends| ensures ends[k] == Schedule.EndAt(interval, duration, k) {
      assert k < n - 1 ==> ends[k] == clock.ends[k];
    }
  }

  lemma LoopStep(env: Env, s: State, step: Step)
    requires ControlInv(s) && Enabled(env, s, step)
    ensures var s' := Apply(env, s, step);
            && |s'.tasks| == |s.tasks| + (if step == Tick then 1 else 0)
            && (step == Tick ==> s.loop.AtSelect? && !s.cancelled && s'.loop.Joining?)
            && (step == Join ==> s.loop.Joining? && s'.loop.AtSelect? && s.tasks != [])
            && (step != Tick && step != Join ==> s'.loop.Joining? == s.loop.Joining?)
  {
  }

  lemma ScheduleStep(env: Env, interval: nat, duration: nat -> nat, s: State, clock: Clock, step: Step, t: nat)
    requires ControlInv(s) && Enabled(env, s, step) && InTime(interval, duration, s, clock, step, t)
    requires OnSchedule(interval, duration, |s.tasks|, s.loop.Joining?, clock)
    ensures var s' := Apply(env, s, step);
            OnSchedule(interval, duration, |s'.tasks|, s'.loop.Joining?, Advance(clock, step, t))
  {
    LoopStep(env, s, step);
    if step == Tick {
      TickOnSchedule(interval, duration, |s.tasks|, clock);
    } else if step == Join {
      JoinOnSchedule(interval, duration, |s.tasks|, clock);
    }
  }

  /** In every timed run tick k is taken at exactly the scheduled start of import k, and import k
      is joined at its scheduled end. */
  lemma {:induction false} TicksFollowSchedule(env: Env, s0: State, initial: seq<Node>, interval: nat,
                                               duration: nat -> nat, steps: seq<Step>, times: seq<nat>)
    requires Start(s0, initial) && Legal(env, s0, steps) && Timely(env, s0, interval, duration, steps, times)
    ensures var s := After(env, s0, steps);
            OnSchedule(interval, duration, |s.tasks|, s.loop.Joining?, ClockAfter(steps, times))
    decreases |steps|
  {
    if steps != [] {
      var n := |steps| - 1;
      TicksFollowSchedule(env, s0, initial, interval, duration, steps[..n], times[..n]);
      ControlInvariant(env, s0, initial, steps[..n]);
      ScheduleStep(env, interval, duration, After(env, s0, steps[..n]), ClockAfter(steps[..n], times[..n]),
                   steps[n], times[n]);
    }
  }

  // ---------------------------------------------------------------- a timed run is a run of the loop

  lemma {:induction false} SameSchedule(interval: nat, duration: nat -> nat, other: nat -> nat, k: nat)
    requires forall j: nat :: duration(j) == other(j)
    ensures Schedule.StartAt(interval, duration, k) == Schedule.StartAt(interval, other, k)
  {
    if k > 0 {
      SameSchedule(interval, duration, other, k - 1);
      assert duration(k - 1) == other(k - 1);
    }
  }

  ghost predicate TicksBefore(steps: seq<Step>, times: seq<nat>, limit: nat)
    requires |times| == |steps|
  {
    forall i :: 0 <= i < |steps| && steps[i] == Tick ==> times[i] < limit
  }

  lemma {:induction false} StartsBefore(steps: seq<Step>, times: seq<nat>, limit: nat)
    requires |times| == |steps| && TicksBefore(steps, times, limit)
    ensures forall k :: 0 <= k < |ClockAfter(steps, times).starts| ==> ClockAfter(steps, times).starts[k] < limit
  {
    if steps != [] {
      StartsBefore(steps[..|steps| - 1], times[..|steps| - 1], limit);
    }
  }

  function Outcomes(tasks: seq<Task>): (r: seq<Result<nat, ImportError>>)
    requires forall id :: 0 <= id < |tasks| ==> tasks[id].Finished?
    ensures |r| == |tasks| && forall id :: 0 <= id < |tasks| ==> r[id] == tasks[id].outcome
  {
    seq(|tasks|, id requires 0 <= id < |tasks| => tasks[id].outcome)
  }

  lemma StartsAreImporters(interval: nat, duration: nat -> nat, n: nat, inFlight: bool, clock: Clock,
                           attempts: nat -> Import.Attempt, cancelAt: nat, m: nat)
    requires OnSchedule(interval, duration, n, inFlight, clock) && m <= n
    requires forall id: nat :: attempts(id).duration == duration(id)
    requires forall k :: 0 <= k < |clock.starts| ==> clock.starts[k] < cancelAt
    ensures Import.OnSchedule(interval, attempts, cancelAt, clock.starts[..m])
  {
    var durations := Import.Durations(attempts);
    assert forall j: nat :: duration(j) == durations(j);
    forall k | 0 <= k < m ensures clock.starts[k] == Schedule.StartAt(interval, durations, k) {
      SameSchedule(interval, duration, durations, k);
    }
  }

  lemma ResultsAreImporters(env: Env, steps: seq<Step>, tasks: seq<Task>, duration: nat -> nat,
                            attempts: nat -> Import.Attempt, m: nat)
    requires Agreement.Replays(env, steps, tasks, duration, attempts) && m <= |tasks|
    requires forall id :: 0 <= id < m ==> tasks[id].Finished?
    ensures Import.ResultsOf(env.lib, attempts, Outcomes(tasks[..m]))
  {
    forall k | 0 <= k < m ensures Outcomes(tasks[..m])[k] == Import.AttemptResult(env.lib, attempts(k)) {
      assert tasks[..m][k] == tasks[k];
      assert Agreement.Explains(env, steps, k, tasks[k].outcome, attempts(k));
    }
  }

  /** The finished imports of the run, as the imperative loop records them. */
  ghost predicate IsLoopRun(env: Env, s0: State, s: State, initial: seq<Node>, interval: nat, duration: nat -> nat,
                            clock: Clock, cancelAt: nat, attempts: nat -> Import.Attempt)
  {
    var n := Agreement.FinishedCount(s.tasks);
    && (forall id: nat :: attempts(id).duration == duration(id))
    && n <= |s.tasks| && n <= |clock.starts| && (forall id :: 0 <= id < n ==> s.tasks[id].Finished?)
    && Import.RanSoFar(env.lib, interval, attempts, cancelAt, initial, s0.committed, s.committed,
                       clock.starts[..n], Outcomes(s.tasks[..n]))
  }

  lemma ReplayIsLoopRun(env: Env, s0: State, s: State, initial: seq<Node>, interval: nat, duration: nat -> nat,
                        steps: seq<Step>, clock: Clock, cancelAt: nat, attempts: nat -> Import.Attempt)
    requires ControlInv(s) && OnSchedule(interval, duration, |s.tasks|, s.loop.Joining?, clock)
    requires forall k :: 0 <= k < |clock.starts| ==> clock.starts[k] < cancelAt
    requires Agreement.ReplaysRun(env, s, initial, steps, duration, attempts)
    ensures IsLoopRun(env, s0, s, initial, interval, duration, clock, cancelAt, attempts)
  {
    var n := Agreement.FinishedCount(s.tasks);
    Agreement.FinishedFirst(s);
    StartsAreImporters(interval, duration, |s.tasks|, s.loop.Joining?, clock, attempts, cancelAt, n);
    ResultsAreImporters(env, steps, s.tasks, duration, attempts, n);
    assert Import.StoresLastGood(env.lib, initial, s0.committed, s.committed, attempts, n);
  }

  /** Every timed run of the machine that loses no COMMIT is a run of the imperative loop up to any
      cancellation after its ticks: the same starts, the same results and the same table, for one
      sequence of attempts with these durations. */
  lemma TimedRunIsLoopRun(env: Env, s0: State, initial: seq<Node>, interval: nat, duration: nat -> nat,
                          steps: seq<Step>, times: seq<nat>, cancelAt: nat)
    requires Start(s0, initial) && Legal(env, s0, steps) && Timely(env, s0, interval, duration, steps, times)
    requires Agreement.NoLostCommit(steps) && TicksBefore(steps, times, cancelAt)
    ensures exists attempts: nat -> Import.Attempt ::
              IsLoopRun(env, s0, After(env, s0, steps), initial, interval, duration, ClockAfter(steps, times),
                        cancelAt, attempts)
  {
    var s, clock := After(env, s0, steps), ClockAfter(steps, times);
    ControlInvariant(env, s0, initial, steps);
    TicksFollowSchedule(env, s0, initial, interval, duration, steps, times);
    StartsBefore(steps, times, cancelAt);
    Agreement.RunIsAnImporterRun(env, s0, initial, steps, duration);
    var attempts: nat -> Import.Attempt :| Agreement.ReplaysRun(env, s, initial, steps, duration, attempts);
    ReplayIsLoopRun(env, s0, s, initial, interval, duration, steps, clock, cancelAt, attempts);
  }

  // ---------------------------------------------------------------- and a run of the loop is a timed run

  function LastTime(times: seq<nat>): nat {
    if times == [] then 0 else times[|times| - 1]
  }

  lemma OneMoreInTime(env: Env, s0: State, interval: nat, duration: nat -> nat, steps: seq<Step>, times: seq<nat>,
                      step: Step, t: nat)
    requires Legal(env, s0, steps) && Enabled(env, After(env, s0, steps), step)
    requires Timely(env, s0, interval, duration, steps, times) && LastTime(times) <= t
    requires InTime(interval, duration, After(env, s0, steps), ClockAfter(steps, times), step, t)
    ensures Legal(env, s0, steps + [step])
    ensures After(env, s0, steps + [step]) == Apply(env, After(env, s0, steps), step)
    ensures Timely(env, s0, interval, duration, steps + [step], times + [t])
    ensures ClockAfter(steps + [step], times + [t]) == Advance(ClockAfter(steps, times), step, t)
  {
    assert (steps + [step])[..|steps|] == steps && (times + [t])[..|times|] == times;
  }

  predicate OnlyOf(more: seq<Step>, id: nat) {
    forall i :: 0 <= i < |more| ==> IsTaskStep(more[i]) && more[i].task == id
  }

  /** Everything but the imports and the table is as it was, and so are the other imports. */
  predicate OnlyImportMoved(s: State, s': State, id: nat) {
    && s' == s.(tasks := s'.tasks, committed := s'.committed)
    && |s'.tasks| == |s.tasks| && forall k :: 0 <= k < |s.tasks| && k != id ==> s'.tasks[k] == s.tasks[k]
  }

  lemma ImportStepMovesOnlyIt(env: Env, s: State, step: Step)
    requires IsTaskStep(step) && Enabled(env, s, step)
    ensures OnlyImportMoved(s, Apply(env, s, step), step.task)
  {
  }

  lemma {:induction false} ImportMovesOnlyIt(env: Env, s: State, more: seq<Step>, id: nat)
    requires Legal(env, s, more) && OnlyOf(more, id)
    ensures OnlyImportMoved(s, After(env, s, more), id)
  {
    if more != [] {
      var front := more[..|more| - 1];
      ImportMovesOnlyIt(env, s, front, id);
      ImportStepMovesOnlyIt(env, After(env, s, front), more[|more| - 1]);
    }
  }

  /** An import is in flight and not overdue at time `t`. */
  ghost predicate InFlightAt(env: Env, s0: State, interval: nat, duration: nat -> nat,
                             steps: seq<Step>, times: seq<nat>, t: nat)
  {
    && Legal(env, s0, steps) && Timely(env, s0, interval, duration, steps, times) && LastTime(times) <= t
    && After(env, s0, steps).loop.Joining? && t <= DueAt(duration, ClockAfter(steps, times))
  }

  lemma ImportStepInTime(env: Env, s0: State, interval: nat, duration: nat -> nat, steps: seq<Step>, times: seq<nat>,
                         step: Step, t: nat)
    requires InFlightAt(env, s0, interval, duration, steps, times, t)
    requires IsTaskStep(step) && Enabled(env, After(env, s0, steps), step)
    ensures InFlightAt(env, s0, interval, duration, steps + [step], times + [t], t)
    ensures ClockAfter(steps + [step], times + [t]) == ClockAfter(steps, times)
  {
    OneMoreInTime(env, s0, interval, duration, steps, times, step, t);
    ImportStepMovesOnlyIt(env, After(env, s0, steps), step);
  }

  lemma LastApart(steps: seq<Step>, more: seq<Step>)
    requires more != []
    ensures (steps + more[..|more| - 1]) + [more[|more| - 1]] == steps + more
  {
  }

  lemma LastIsEnabled(env: Env, s0: State, steps: seq<Step>, front: seq<Step>, step: Step)
    requires Legal(env, s0, steps) && Legal(env, After(env, s0, steps), front)
    requires Enabled(env, After(env, After(env, s0, steps), front), step)
    ensures Enabled(env, After(env, s0, steps + front), step)
  {
    Concat(env, s0, steps, front);
  }

  /** All steps of an import in flight can be taken at one moment before it is due. */
  lemma {:induction false} ImportInTime(env: Env, s0: State, interval: nat, duration: nat -> nat,
                                        steps: seq<Step>, times: seq<nat>, more: seq<Step>, id: nat, t: nat)
    returns (all: seq<nat>)
    requires InFlightAt(env, s0, interval, duration, steps, times, t)
    requires Legal(env, After(env, s0, steps), more) && OnlyOf(more, id)
    ensures InFlightAt(env, s0, interval, duration, steps + more, all, t)
    ensures |all| == |steps + more| && ClockAfter(steps + more, all) == ClockAfter(steps, times)
    decreases |more|
  {
    if more == [] {
      assert steps + more == steps;
      all := times;
    } else {
      var front, step := more[..|more| - 1], more[|more| - 1];
      var most := ImportInTime(env, s0, interval, duration, steps, times, front, id, t);
      LastIsEnabled(env, s0, steps, front, step);
      ImportStepInTime(env, s0, interval, duration, steps + front, most, step, t);
      LastApart(steps, more);
      all := most + [t];
    }
  }

  /** A timed run in which exactly the first `n` attempts have been made, with their results and
      their table, and the loop waits for its next tick. */
  ghost predicate Realises(env: Env, s0: State, initial: seq<Node>, interval: nat, attempts: nat -> Import.Attempt,
                           n: nat, steps: seq<Step>, times: seq<nat>)
  {
    && Legal(env, s0, steps) && Timely(env, s0, interval, Import.Durations(attempts), steps, times)
    && LastTime(times) <= Import.LastEnd(interval, attempts, n)
    && Made(env, After(env, s0, steps), initial, attempts, n)
  }

  ghost predicate Made(env: Env, s: State, initial: seq<Node>, attempts: nat -> Import.Attempt, n: nat) {
    && s.loop.AtSelect? && !s.cancelled && |s.tasks| == n
    && (forall k :: 0 <= k < n ==> s.tasks[k] == Finished(Import.AttemptResult(env.lib, attempts(k))))
    && Represents(s.committed, Import.LastGood(env.lib, initial, attempts, n))
  }

  /** The loop waits for tick `n`, which is due at its scheduled start and no earlier than now. */
  lemma TickIsNext(env: Env, s0: State, initial: seq<Node>, interval: nat, attempts: nat -> Import.Attempt, n: nat,
                   steps: seq<Step>, times: seq<nat>)
    requires Start(s0, initial) && Realises(env, s0, initial, interval, attempts, n, steps, times)
    ensures var t := Schedule.StartAt(interval, Import.Durations(attempts), n);
            LastTime(times) <= t && t == NextTick(interval, ClockAfter(steps, times))
    ensures |ClockAfter(steps, times).starts| == n
  {
    var duration := Import.Durations(attempts);
    TicksFollowSchedule(env, s0, initial, interval, duration, steps, times);
    NextTickIsScheduled(interval, duration, n, ClockAfter(steps, times));
    if n > 0 { StartsGrow(interval, duration, n - 1, n); }
  }

  lemma DueAfterTick(duration: nat -> nat, clock: Clock, t: nat)
    ensures DueAt(duration, Advance(clock, Tick, t)) == t + duration(|clock.starts|)
  {
  }

  /** The tick of import `n`, at its scheduled start. */
  lemma TickInTime(env: Env, s0: State, initial: seq<Node>, interval: nat, attempts: nat -> Import.Attempt, n: nat,
                   steps: seq<Step>, times: seq<nat>)
    requires Start(s0, initial) && Realises(env, s0, initial, interval, attempts, n, steps, times)
    ensures var duration := Import.Durations(attempts);
            var t := Schedule.StartAt(interval, duration, n);
            && InFlightAt(env, s0, interval, duration, steps + [Tick], times + [t], t)
            && After(env, s0, steps + [Tick]) == Apply(env, After(env, s0, steps), Tick)
            && DueAt(duration, ClockAfter(steps + [Tick], times + [t])) == Schedule.EndAt(interval, duration, n)
  {
    var duration := Import.Durations(attempts);
    var t := Schedule.StartAt(interval, duration, n);
    TickIsNext(env, s0, initial, interval, attempts, n, steps, times);
    OneMoreInTime(env, s0, interval, duration, steps, times, Tick, t);
    DueAfterTick(duration, ClockAfter(steps, times), t);
  }

  lemma OneMoreMade(env: Env, s: State, s': State, initial: seq<Node>, attempts: nat -> Import.Attempt, n: nat)
    requires Made(env, s, initial, attempts, n)
    requires s'.loop.AtSelect? && !s'.cancelled && |s'.tasks| == n + 1
    requires forall k :: 0 <= k < n ==> s'.tasks[k] == s.tasks[k]
    requires s'.tasks[n] == Finished(Import.AttemptResult(env.lib, attempts(n)))
    requires Agreement.Leaves(env.lib, attempts(n), s.committed, s'.committed)
    ensures Made(env, s', initial, attempts, n + 1)
  {
  }

  /** Import `n` is in flight on the schedule and has done what its attempt does. */
  ghost predicate ImportDone(env: Env, s0: State, s: State, interval: nat, attempts: nat -> Import.Attempt, n: nat,
                             steps: seq<Step>, times: seq<nat>)
  {
    var duration := Import.Durations(attempts);
    && InFlightAt(env, s0, interval, duration, steps, times, Schedule.StartAt(interval, duration, n))
    && DueAt(duration, ClockAfter(steps, times)) == Schedule.EndAt(interval, duration, n)
    && FinishedAs(env, s, After(env, s0, steps), attempts(n), n)
  }

  ghost predicate FinishedAs(env: Env, s: State, s': State, a: Import.Attempt, n: nat) {
    && |s.tasks| == n && |s'.tasks| == n + 1 && s'.loop == Joining(n) && s'.cancelled == s.cancelled
    && (forall k :: 0 <= k < n ==> s'.tasks[k] == s.tasks[k])
    && s'.tasks[n] == Finished(Import.AttemptResult(env.lib, a))
    && Agreement.Leaves(env.lib, a, s.committed, s'.committed)
  }

  /** From a spawned import, the steps that make the attempt. */
  lemma StepsOfAttempt(env: Env, s: State, a: Import.Attempt) returns (more: seq<Step>)
    requires s.loop.AtSelect?
    ensures Legal(env, Apply(env, s, Tick), more) && OnlyOf(more, |s.tasks|)
    ensures FinishedAs(env, s, After(env, Apply(env, s, Tick), more), a, |s.tasks|)
  {
    var spawned, n, result := Apply(env, s, Tick), |s.tasks|, Import.AttemptResult(env.lib, a);
    Agreement.MachineRunsAttempt(env, spawned, n, a);
    var table :| Agreement.Reaches(env, spawned, n, result, table) &&
                 Agreement.Leaves(env.lib, a, spawned.committed, table);
    more :| Agreement.ReachesBy(env, spawned, n, result, table, more);
    ImportMovesOnlyIt(env, spawned, more, n);
  }

  lemma ImportMade(env: Env, s0: State, initial: seq<Node>, interval: nat, attempts: nat -> Import.Attempt, n: nat,
                   steps: seq<Step>, times: seq<nat>) returns (steps': seq<Step>, times': seq<nat>)
    requires Start(s0, initial) && Realises(env, s0, initial, interval, attempts, n, steps, times)
    ensures |times'| == |steps'|
    ensures ImportDone(env, s0, After(env, s0, steps), interval, attempts, n, steps', times')
  {
    var duration, ticked := Import.Durations(attempts), steps + [Tick];
    var t := Schedule.StartAt(interval, duration, n);
    TickInTime(env, s0, initial, interval, attempts, n, steps, times);
    var more := StepsOfAttempt(env, After(env, s0, steps), attempts(n));
    times' := ImportInTime(env, s0, interval, duration, ticked, times + [t], more, n, t);
    Concat(env, s0, ticked, more);
    steps' := ticked + more;
  }

  lemma JoinMade(env: Env, s0: State, s: State, initial: seq<Node>, interval: nat, attempts: nat -> Import.Attempt,
                 n: nat, steps: seq<Step>, times: seq<nat>)
    requires |times| == |steps| && ImportDone(env, s0, s, interval, attempts, n, steps, times)
    requires Made(env, s, initial, attempts, n)
    ensures var end := Schedule.EndAt(interval, Import.Durations(attempts), n);
            Realises(env, s0, initial, interval, attempts, n + 1, steps + [Join], times + [end])
  {
    var duration := Import.Durations(attempts);
    OneMoreInTime(env, s0, interval, duration, steps, times, Join, Schedule.EndAt(interval, duration, n));
    OneMoreMade(env, s, After(env, s0, steps + [Join]), initial, attempts, n);
  }

  lemma OneMoreRealised(env: Env, s0: State, initial: seq<Node>, interval: nat, attempts: nat -> Import.Attempt, n: nat,
                        steps: seq<Step>, times: seq<nat>) returns (steps': seq<Step>, times': seq<nat>)
    requires Start(s0, initial) && Realises(env, s0, initial, interval, attempts, n, steps, times)
    ensures Realises(env, s0, initial, interval, attempts, n + 1, steps', times')
  {
    steps', times' := ImportMade(env, s0, initial, interval, attempts, n, steps, times);
    JoinMade(env, s0, After(env, s0, steps), initial, interval, attempts, n, steps', times');
    steps' := steps' + [Join];
    times' := times' + [Schedule.EndAt(interval, Import.Durations(attempts), n)];
  }

  lemma NothingMadeYet(env: Env, s0: State, initial: seq<Node>, interval: nat, attempts: nat -> Import.Attempt)
    requires Start(s0, initial) && !s0.cancelled
    ensures Realises(env, s0, initial, interval, attempts, 0, [], [])
  {
    assert Made(env, s0, initial, attempts, 0);
  }

  lemma {:induction false} RealiseAttempts(env: Env, s0: State, initial: seq<Node>, interval: nat,
                                           attempts: nat -> Import.Attempt, n: nat)
    returns (steps: seq<Step>, times: seq<nat>)
    requires Start(s0, initial) && !s0.cancelled
    ensures Realises(env, s0, initial, interval, attempts, n, steps, times)
    decreases n
  {
    if n == 0 {
      NothingMadeYet(env, s0, initial, interval, attempts);
      steps, times := [], [];
    } else {
      steps, times := RealiseAttempts(env, s0, initial, interval, attempts, n - 1);
      steps, times := OneMoreRealised(env, s0, initial, interval, attempts, n - 1, steps, times);
    }
  }

  /** The converse: for every sequence of attempts and every number of them, some timed run of the
      machine makes exactly those attempts, on the loop's schedule, with their results and table. */
  lemma LoopRunIsTimedRun(env: Env, s0: State, initial: seq<Node>, interval: nat,
                          attempts: nat -> Import.Attempt, n: nat)
    requires Start(s0, initial) && !s0.cancelled
    ensures exists steps, times :: Realises(env, s0, initial, interval, attempts, n, steps, times)
  {
    var steps, times := RealiseAttempts(env, s0, initial, interval, attempts, n);
  }
}
