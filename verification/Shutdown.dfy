/** The import loop and `serve` over every run: one import at a time, the last good
    snapshot, and an orderly shutdown. */
module Shutdown {
  import opened Domain
  import opened Snapshot
  import opened Service

  // ---------------------------------------------------------------- one import at a time

  ghost predicate ControlInv(s: State) {
    && (s.loop.Joining? ==> s.loop.task == |s.tasks| - 1)
    && (forall id :: 0 <= id < |s.tasks| && !s.tasks[id].Finished? ==> s.loop == Joining(id))
    && (s.loop.Ended? ==> s.cancelled)
    && (s.server.AwaitingImporter? || s.server.ClosingPool? || s.server.Returned? ==> s.cancelled)
    && (s.server.ClosingPool? || s.server.Returned? ==> s.loop.Ended?)
    && (s.poolOpen <==> !s.server.Returned?)
  }

  lemma TaskStepKeepsControl(env: Env, s: State, step: Step)
    requires ControlInv(s) && IsTaskStep(step) && Enabled(env, s, step)
    ensures ControlInv(Apply(env, s, step))
  {
    var s' := Apply(env, s, step);
    assert s' == s.(tasks := s'.tasks, committed := s'.committed);
    forall id | 0 <= id < |s'.tasks| && !s'.tasks[id].Finished? ensures s.loop == Joining(id) {
      assert !s.tasks[id].Finished?;
    }
  }

  lemma OtherStepKeepsControl(env: Env, s: State, step: Step)
    requires ControlInv(s) && !IsTaskStep(step) && Enabled(env, s, step)
    ensures ControlInv(Apply(env, s, step))
  {
  }

  lemma {:induction false} ControlInvariant(env: Env, s0: State, initial: seq<Node>, steps: seq<Step>)
    requires Start(s0, initial) && Legal(env, s0, steps)
    ensures ControlInv(After(env, s0, steps))
  {
    if steps != [] {
      var front, step := steps[..|steps| - 1], steps[|steps| - 1];
      ControlInvariant(env, s0, initial, front);
      if IsTaskStep(step) {
        TaskStepKeepsControl(env, After(env, s0, front), step);
      } else {
        OtherStepKeepsControl(env, After(env, s0, front), step);
      }
    }
  }

  /** No two imports overlap: of two spawned tasks, at least one has finished. */
  lemma AtMostOneImportInFlight(env: Env, s0: State, initial: seq<Node>, steps: seq<Step>, a: nat, b: nat)
    requires Start(s0, initial) && Legal(env, s0, steps)
    requires a < b < |After(env, s0, steps).tasks|
    ensures After(env, s0, steps).tasks[a].Finished?
  {
    ControlInvariant(env, s0, initial, steps);
  }

  /** Every step of an import runs on an open pool: `serve` closes it only after the loop,
      and with it the last import, has ended. */
  lemma ImportsRunOnOpenPool(env: Env, s0: State, initial: seq<Node>, steps: seq<Step>, j: nat)
    requires Start(s0, initial) && Legal(env, s0, steps) && j < |steps| && IsTaskStep(steps[j])
    ensures var s := After(env, s0, steps[..j]); s.poolOpen && !s.loop.Ended?
  {
    Prefix(env, s0, steps, j);
    ControlInvariant(env, s0, initial, steps[..j]);
  }

  /** When `serve` has returned, the token is cancelled, the loop has ended and no import is left. */
  lemma ReturnedMeansQuiet(env: Env, s0: State, initial: seq<Node>, steps: seq<Step>)
    requires Start(s0, initial) && Legal(env, s0, steps) && After(env, s0, steps).server.Returned?
    ensures var s := After(env, s0, steps);
            && s.cancelled && s.loop.Ended? && !s.poolOpen
            && forall id :: 0 <= id < |s.tasks| ==> s.tasks[id].Finished?
  {
    ControlInvariant(env, s0, initial, steps);
  }

  /** A transaction that has begun and changed nothing holds the committed table. */
  ghost predicate BegunHoldsTable(s: State) {
    forall id :: 0 <= id < |s.tasks| && s.tasks[id].AwaitDelete? ==> s.tasks[id].working == s.committed
  }

  lemma BegunStep(env: Env, s: State, step: Step)
    requires ControlInv(s) && BegunHoldsTable(s) && Enabled(env, s, step)
    ensures BegunHoldsTable(Apply(env, s, step))
  {
    TasksStep(env, s, step);
    if IsTaskStep(step) {
      forall id | 0 <= id < |s.tasks| && id != step.task ensures s.tasks[id].Finished? {
        assert s.loop == Joining(step.task);
      }
    }
  }

  /** It stays that table until DELETE, because no other import can commit in between. */
  lemma {:induction false} BegunTransactionSeesTable(env: Env, s0: State, initial: seq<Node>, steps: seq<Step>)
    requires Start(s0, initial) && Legal(env, s0, steps)
    ensures BegunHoldsTable(After(env, s0, steps))
  {
    if steps != [] {
      var front := steps[..|steps| - 1];
      BegunTransactionSeesTable(env, s0, initial, front);
      ControlInvariant(env, s0, initial, front);
      BegunStep(env, After(env, s0, front), steps[|steps| - 1]);
    }
  }

  // ---------------------------------------------------------------- what `serve` returns

  /** Some step stopped the server this way. */
  ghost predicate StoppedBy(steps: seq<Step>, failed: bool) {
    exists i :: 0 <= i < |steps| && steps[i] == ServerStops(failed)
  }

  lemma StoppedByStep(steps: seq<Step>, failed: bool)
    requires steps != []
    ensures StoppedBy(steps, failed) <==>
            StoppedBy(steps[..|steps| - 1], failed) || steps[|steps| - 1] == ServerStops(failed)
  {
    var n := |steps| - 1;
    if i :| 0 <= i < n && steps[i] == ServerStops(failed) {
      assert steps[..n][i] == ServerStops(failed);
    }
    if i :| 0 <= i < n && steps[..n][i] == ServerStops(failed) {
      assert steps[i] == ServerStops(failed);
    }
  }

  lemma ServerStep(env: Env, s: State, step: Step)
    requires Enabled(env, s, step)
    ensures var s' := Apply(env, s, step);
            && (s'.server.Listening? <==> s.server.Listening? && !step.ServerStops?)
            && (step.ServerStops? ==> s.server.Listening? && Failed(s') == step.failed)
            && (!step.ServerStops? ==> Failed(s') == Failed(s))
  {
  }

  /** The server is down exactly when a step stopped it, and what `serve` carries to its return is
      how that one step stopped it. */
  lemma {:induction false} ResultIsServers(env: Env, s0: State, initial: seq<Node>, steps: seq<Step>)
    requires Start(s0, initial) && Legal(env, s0, steps)
    ensures var s := After(env, s0, steps);
            && (s.server.Listening? <==> !StoppedBy(steps, true) && !StoppedBy(steps, false))
            && (!s.server.Listening? ==> (Failed(s) <==> StoppedBy(steps, true)))
            && (!s.server.Listening? ==> (!Failed(s) <==> StoppedBy(steps, false)))
  {
    if steps != [] {
      var front, step := steps[..|steps| - 1], steps[|steps| - 1];
      ResultIsServers(env, s0, initial, front);
      StoppedByStep(steps, true);
      StoppedByStep(steps, false);
      ServerStep(env, After(env, s0, front), step);
    }
  }

  // ---------------------------------------------------------------- after cancellation

  predicate Cancels(step: Step) {
    step == Cancel || step == CancelToken
  }

  /** The token was cancelled before the run or by one of its steps. */
  ghost predicate Signalled(s0: State, steps: seq<Step>) {
    s0.cancelled || exists i :: 0 <= i < |steps| && Cancels(steps[i])
  }

  lemma SignalledStep(s0: State, steps: seq<Step>)
    requires steps != []
    ensures Signalled(s0, steps) <==> Signalled(s0, steps[..|steps| - 1]) || Cancels(steps[|steps| - 1])
  {
    var n := |steps| - 1;
    if i :| 0 <= i < n && Cancels(steps[i]) {
      assert Cancels(steps[..n][i]);
    }
    if i :| 0 <= i < n && Cancels(steps[..n][i]) {
      assert Cancels(steps[i]);
    }
  }

  lemma CancelStep(env: Env, s: State, step: Step)
    ensures Apply(env, s, step).cancelled <==> s.cancelled || Cancels(step)
  {
  }

  /** The token is cancelled exactly when it was so from the start or some step has cancelled it. */
  lemma {:induction false} CancelledIff(env: Env, s0: State, steps: seq<Step>)
    ensures After(env, s0, steps).cancelled <==> Signalled(s0, steps)
  {
    if steps != [] {
      CancelledIff(env, s0, steps[..|steps| - 1]);
      SignalledStep(s0, steps);
      CancelStep(env, After(env, s0, steps[..|steps| - 1]), steps[|steps| - 1]);
    }
  }

  lemma SignalledFrom(s0: State, steps: seq<Step>, i: nat)
    requires i < |steps| && Cancels(steps[i])
    ensures Signalled(s0, steps[..i + 1])
  {
    assert steps[..i + 1][i] == steps[i];
  }

  /** The server stops by itself only once the token is cancelled and every request is answered. */
  lemma GracefulStopFollowsCancel(env: Env, s0: State, steps: seq<Step>, j: nat)
    requires Legal(env, s0, steps) && j < |steps| && steps[j] == ServerStops(false)
    ensures Signalled(s0, steps[..j])
    ensures var requests := After(env, s0, steps[..j]).requests;
            forall r :: 0 <= r < |requests| ==> requests[r].Replied?
  {
    Prefix(env, s0, steps, j);
    CancelledIff(env, s0, steps[..j]);
  }

  lemma CancelledStepSpawnsNothing(env: Env, s: State, step: Step)
    requires s.cancelled && Enabled(env, s, step)
    ensures Apply(env, s, step).cancelled && |Apply(env, s, step).tasks| == |s.tasks|
  {
  }

  lemma {:induction false} CancellationIsForGood(env: Env, s0: State, steps: seq<Step>, i: nat)
    requires Legal(env, s0, steps) && i <= |steps| && After(env, s0, steps[..i]).cancelled
    ensures After(env, s0, steps).cancelled
    ensures |After(env, s0, steps).tasks| == |After(env, s0, steps[..i]).tasks|
  {
    if i == |steps| {
      assert steps[..i] == steps;
    } else {
      var front := steps[..|steps| - 1];
      assert front[..i] == steps[..i];
      CancellationIsForGood(env, s0, front, i);
      CancelledStepSpawnsNothing(env, After(env, s0, front), steps[|steps| - 1]);
    }
  }

  /** Once the token is cancelled the loop starts no import. */
  lemma NoImportStartsAfterCancel(env: Env, s0: State, steps: seq<Step>, i: nat, j: nat)
    requires Legal(env, s0, steps) && i <= j < |steps| && Signalled(s0, steps[..i])
    ensures steps[j] != Tick
  {
    CancelledIff(env, s0, steps[..i]);
    Prefix(env, s0, steps, j);
    assert steps[..j][..i] == steps[..i];
    CancellationIsForGood(env, s0, steps[..j], i);
  }

  /** The same, step by step: no tick follows a cancelling step. */
  lemma NoTickFollowsCancel(env: Env, s0: State, steps: seq<Step>, i: nat, j: nat)
    requires Legal(env, s0, steps) && i < j < |steps| && Cancels(steps[i])
    ensures steps[j] != Tick
  {
    SignalledFrom(s0, steps, i);
    NoImportStartsAfterCancel(env, s0, steps, i + 1, j);
  }

  lemma StepKeepsFinished(env: Env, s: State, step: Step, id: nat)
    requires Enabled(env, s, step) && id < |s.tasks| && s.tasks[id].Finished?
    ensures id < |Apply(env, s, step).tasks| && Apply(env, s, step).tasks[id] == s.tasks[id]
  {
  }

  lemma {:induction false} FinishedStaysFinished(env: Env, s0: State, steps: seq<Step>, i: nat, id: nat)
    requires Legal(env, s0, steps) && i <= |steps|
    requires id < |After(env, s0, steps[..i]).tasks| && After(env, s0, steps[..i]).tasks[id].Finished?
    ensures id < |After(env, s0, steps).tasks|
    ensures After(env, s0, steps).tasks[id] == After(env, s0, steps[..i]).tasks[id]
  {
    if i == |steps| {
      assert steps[..i] == steps;
    } else {
      var front := steps[..|steps| - 1];
      assert front[..i] == steps[..i];
      FinishedStaysFinished(env, s0, front, i, id);
      StepKeepsFinished(env, After(env, s0, front), steps[|steps| - 1], id);
    }
  }

  /** At most one COMMIT is applied after cancellation. */
  lemma AtMostOneCommitAfterCancel(env: Env, s0: State, initial: seq<Node>, steps: seq<Step>, i: nat, j: nat, k: nat)
    requires Start(s0, initial) && Legal(env, s0, steps)
    requires i <= j < |steps| && i <= k < |steps| && Applies(steps[j]) && Applies(steps[k])
    requires Signalled(s0, steps[..i])
    ensures j == k
  {
    LateCommitWasInFlight(env, s0, initial, steps, i, j);
    LateCommitWasInFlight(env, s0, initial, steps, i, k);
    if j < k {
      CommitsInSpawnOrder(env, s0, initial, steps, j, k);
    } else if k < j {
      CommitsInSpawnOrder(env, s0, initial, steps, k, j);
    }
  }

  /** And it belongs to the import that was in flight when the token was cancelled. */
  lemma LateCommitWasInFlight(env: Env, s0: State, initial: seq<Node>, steps: seq<Step>, i: nat, j: nat)
    requires Start(s0, initial) && Legal(env, s0, steps)
    requires i <= j < |steps| && Applies(steps[j])
    requires Signalled(s0, steps[..i])
    ensures var s := After(env, s0, steps[..i]);
            steps[j].task < |s.tasks| && !s.tasks[steps[j].task].Finished? && s.loop == Joining(steps[j].task)
  {
    CancelledIff(env, s0, steps[..i]);
    CommitterIsNewest(env, s0, initial, steps, j);
    SameTasksAfterCancel(env, s0, steps, i, j);
    if After(env, s0, steps[..i]).tasks[steps[j].task].Finished? {
      FinishedLater(env, s0, steps, i, j, steps[j].task);
    }
    Prefix(env, s0, steps, i);
    ControlInvariant(env, s0, initial, steps[..i]);
  }

  /** The committing task is the newest one. */
  lemma CommitterIsNewest(env: Env, s0: State, initial: seq<Node>, steps: seq<Step>, j: nat)
    requires Start(s0, initial) && Legal(env, s0, steps) && j < |steps| && Applies(steps[j])
    ensures var s := After(env, s0, steps[..j]);
            steps[j].task == |s.tasks| - 1 && !s.tasks[steps[j].task].Finished?
  {
    Prefix(env, s0, steps, j);
    ControlInvariant(env, s0, initial, steps[..j]);
  }

  lemma CommitterIsYounger(env: Env, s: State, step: Step, id: nat)
    requires ControlInv(s) && Enabled(env, s, step) && Applies(step)
    requires id < |s.tasks| && s.tasks[id].Finished?
    ensures id < step.task
  {
    assert s.loop == Joining(step.task);
  }

  lemma CommitFinishes(env: Env, s0: State, steps: seq<Step>, j: nat)
    requires Legal(env, s0, steps) && j < |steps| && Applies(steps[j])
    ensures var s := After(env, s0, steps[..j + 1]);
            steps[j].task < |s.tasks| && s.tasks[steps[j].task].Finished?
  {
    Prefix(env, s0, steps, j);
  }

  lemma SameTasksAfterCancel(env: Env, s0: State, steps: seq<Step>, i: nat, k: nat)
    requires Legal(env, s0, steps) && i <= k <= |steps| && After(env, s0, steps[..i]).cancelled
    ensures |After(env, s0, steps[..k]).tasks| == |After(env, s0, steps[..i]).tasks|
  {
    Prefix(env, s0, steps, k);
    assert steps[..k][..i] == steps[..i];
    CancellationIsForGood(env, s0, steps[..k], i);
  }

  lemma FinishedLater(env: Env, s0: State, steps: seq<Step>, i: nat, k: nat, id: nat)
    requires Legal(env, s0, steps) && i <= k <= |steps|
    requires id < |After(env, s0, steps[..i]).tasks| && After(env, s0, steps[..i]).tasks[id].Finished?
    ensures id < |After(env, s0, steps[..k]).tasks| && After(env, s0, steps[..k]).tasks[id].Finished?
  {
    Prefix(env, s0, steps, k);
    assert steps[..k][..i] == steps[..i];
    FinishedStaysFinished(env, s0, steps[..k], i, id);
  }

  lemma FinishedByCommit(env: Env, s0: State, steps: seq<Step>, j: nat, k: nat)
    requires Legal(env, s0, steps) && j < k <= |steps| && Applies(steps[j])
    ensures var s := After(env, s0, steps[..k]);
            steps[j].task < |s.tasks| && s.tasks[steps[j].task].Finished?
  {
    CommitFinishes(env, s0, steps, j);
    FinishedLater(env, s0, steps, j + 1, k, steps[j].task);
  }

  /** Of two applied COMMITs the later belongs to a younger import. */
  lemma CommitsInSpawnOrder(env: Env, s0: State, initial: seq<Node>, steps: seq<Step>, j: nat, k: nat)
    requires Start(s0, initial) && Legal(env, s0, steps)
    requires j < k < |steps| && Applies(steps[j]) && Applies(steps[k])
    ensures steps[j].task < steps[k].task
  {
    FinishedByCommit(env, s0, steps, j, k);
    Prefix(env, s0, steps, k);
    ControlInvariant(env, s0, initial, steps[..k]);
    CommitterIsYounger(env, After(env, s0, steps[..k]), steps[k], steps[j].task);
  }

  // ---------------------------------------------------------------- last good snapshot

  predicate Succeeded(task: Task) {
    task.Finished? && task.outcome.Ok?
  }

  /** The batch of the newest task that reported success, or the initial list. */
  function LastReported(env: Env, initial: seq<Node>, steps: seq<Step>, tasks: seq<Task>): seq<Node> {
    if tasks == [] then initial
    else
      var last := tasks[|tasks| - 1];
      if Succeeded(last) then Batch(env, steps, |tasks| - 1)
      else LastReported(env, initial, steps, tasks[..|tasks| - 1])
  }

  /** Steps that fetch nothing for the listed tasks leave the last good batch alone. */
  lemma {:induction false} LastReportedKept(env: Env, initial: seq<Node>, front: seq<Step>, steps: seq<Step>,
                                        tasks: seq<Task>)
    requires steps != [] && front == steps[..|steps| - 1]
    requires steps[|steps| - 1].FetchDone? && steps[|steps| - 1].task < |tasks| ==>
               !Succeeded(tasks[steps[|steps| - 1].task])
    ensures LastReported(env, initial, steps, tasks) == LastReported(env, initial, front, tasks)
  {
    if tasks != [] {
      LastReportedKept(env, initial, front, steps, tasks[..|tasks| - 1]);
    }
  }

  lemma {:induction false} LastReportedIgnoresFailure(env: Env, initial: seq<Node>, steps: seq<Step>,
                                                  tasks: seq<Task>, id: nat, task: Task)
    requires id < |tasks|
    requires !Succeeded(tasks[id]) && !Succeeded(task)
    ensures LastReported(env, initial, steps, tasks[id := task]) == LastReported(env, initial, steps, tasks)
  {
    var changed := tasks[id := task];
    if id == |tasks| - 1 {
      assert changed[..|tasks| - 1] == tasks[..|tasks| - 1];
    } else {
      assert changed[..|tasks| - 1] == tasks[..|tasks| - 1][id := task];
      LastReportedIgnoresFailure(env, initial, steps, tasks[..|tasks| - 1], id, task);
    }
  }

  /** No COMMIT that reported failure has had the last word. */
  predicate Truthful(steps: seq<Step>) {
    AppliedAt(steps).None? || steps[AppliedAt(steps).value].CommitDone?
  }

  /** What a step does to the list of imports. */
  ghost predicate TasksStepTo(env: Env, committed: Table, tasks: seq<Task>, step: Step, tasks': seq<Task>) {
    if step == Tick then tasks' == tasks + [Fetching]
    else if IsTaskStep(step) then
      && step.task < |tasks| && !tasks[step.task].Finished?
      && tasks' == tasks[step.task := TaskAfter(env, committed, tasks[step.task], step)]
    else tasks' == tasks
  }

  lemma TasksStep(env: Env, s: State, step: Step)
    requires Enabled(env, s, step)
    ensures TasksStepTo(env, s.committed, s.tasks, step, Apply(env, s, step).tasks)
  {
  }

  lemma LastReportedTick(env: Env, initial: seq<Node>, steps: seq<Step>, tasks: seq<Task>)
    ensures LastReported(env, initial, steps, tasks + [Fetching]) == LastReported(env, initial, steps, tasks)
  {
    assert (tasks + [Fetching])[..|tasks|] == tasks;
  }

  lemma OnlyCommitStepSucceeds(env: Env, committed: Table, task: Task, step: Step)
    requires !Applies(step) && !task.Finished?
    ensures !Succeeded(TaskAfter(env, committed, task, step))
  {
  }

  lemma CommitIsLastReported(env: Env, initial: seq<Node>, front: seq<Step>, steps: seq<Step>, s: State)
    requires steps != [] && front == steps[..|steps| - 1] && Enabled(env, s, steps[|steps| - 1])
    requires ControlInv(s) && steps[|steps| - 1].CommitDone?
    ensures var s' := Apply(env, s, steps[|steps| - 1]);
            Latest(env, initial, steps) == LastReported(env, initial, steps, s'.tasks)
  {
    var id := steps[|steps| - 1].task;
    LatestFetchStep(steps);
    assert id == |s.tasks| - 1;
    assert Batch(env, steps, id) == Batch(env, front, id);
  }

  lemma LastReportedStep(env: Env, initial: seq<Node>, front: seq<Step>, steps: seq<Step>, committed: Table,
                     tasks: seq<Task>, tasks': seq<Task>)
    requires steps != [] && front == steps[..|steps| - 1] && !Applies(steps[|steps| - 1])
    requires TasksStepTo(env, committed, tasks, steps[|steps| - 1], tasks')
    ensures LastReported(env, initial, steps, tasks') == LastReported(env, initial, front, tasks)
  {
    var step := steps[|steps| - 1];
    LastReportedKept(env, initial, front, steps, tasks);
    if step == Tick {
      LastReportedTick(env, initial, steps, tasks);
    } else if IsTaskStep(step) {
      OnlyCommitStepSucceeds(env, committed, tasks[step.task], step);
      LastReportedIgnoresFailure(env, initial, steps, tasks, step.task, tasks'[step.task]);
    }
  }

  lemma {:induction false} LatestIsLastReported(env: Env, s0: State, initial: seq<Node>, steps: seq<Step>)
    requires Start(s0, initial) && Legal(env, s0, steps) && Truthful(steps)
    ensures Latest(env, initial, steps) == LastReported(env, initial, steps, After(env, s0, steps).tasks)
  {
    if steps != [] {
      var front := steps[..|steps| - 1];
      if Applies(steps[|steps| - 1]) {
        ControlInvariant(env, s0, initial, front);
        CommitIsLastReported(env, initial, front, steps, After(env, s0, front));
      } else {
        LatestIsLastReported(env, s0, initial, front);
        LatestFetchStep(steps);
        var s := After(env, s0, front);
        TasksStep(env, s, steps[|steps| - 1]);
        LastReportedStep(env, initial, front, steps, s.committed, s.tasks, After(env, s0, steps).tasks);
      }
    }
  }

  /** Whatever failed, was empty or panicked in between, the table holds the batch of the last
      import that reported success, unless a COMMIT that reported failure was applied since. */
  lemma CommittedIsLastGood(env: Env, s0: State, initial: seq<Node>, steps: seq<Step>)
    requires Start(s0, initial) && Legal(env, s0, steps) && Truthful(steps)
    ensures Represents(After(env, s0, steps).committed, LastReported(env, initial, steps, After(env, s0, steps).tasks))
  {
    CommittedIsLatest(env, s0, initial, steps);
    LatestIsLastReported(env, s0, initial, steps);
  }

  lemma LostCommitReportsFailure(env: Env, s: State, id: nat, e: ImportError)
    requires Enabled(env, s, CommitLost(id, e))
    ensures var s' := Apply(env, s, CommitLost(id, e));
            env.commitMayLie && id < |s'.tasks| && s'.tasks[id] == Finished(Err(e))
  {
  }

  /** An import that reported failure although its COMMIT was applied. */
  ghost predicate LostItsCommit(env: Env, s: State, id: nat) {
    env.commitMayLie && id < |s.tasks| && s.tasks[id].Finished? && !Succeeded(s.tasks[id])
  }

  lemma {:induction false} LostCommitIsReported(env: Env, s0: State, initial: seq<Node>, steps: seq<Step>)
    requires Start(s0, initial) && Legal(env, s0, steps) && !Truthful(steps)
    ensures LostItsCommit(env, After(env, s0, steps), steps[AppliedAt(steps).value].task)
    ensures Latest(env, initial, steps) == Batch(env, steps, steps[AppliedAt(steps).value].task)
  {
    var n := |steps| - 1;
    var front, step := steps[..n], steps[n];
    var id := steps[AppliedAt(steps).value].task;
    LatestFetchStep(steps);
    if Applies(step) {
      LostCommitReportsFailure(env, After(env, s0, front), id, step.error);
    } else {
      LostCommitIsReported(env, s0, initial, front);
      StepKeepsFinished(env, After(env, s0, front), step, id);
      FinishedFetchesNoMore(env, After(env, s0, front), step, id);
    }
  }

  lemma FinishedFetchesNoMore(env: Env, s: State, step: Step, id: nat)
    requires Enabled(env, s, step) && id < |s.tasks| && s.tasks[id].Finished?
    ensures !(step.FetchDone? && step.task == id)
  {
  }

  /** The other case: the table holds, whole, the batch of an import that reported failure. */
  lemma LostCommitIsStillWhole(env: Env, s0: State, initial: seq<Node>, steps: seq<Step>)
    requires Start(s0, initial) && Legal(env, s0, steps) && !Truthful(steps)
    ensures var id, s := steps[AppliedAt(steps).value].task, After(env, s0, steps);
            LostItsCommit(env, s, id) && Represents(s.committed, Batch(env, steps, id))
  {
    LostCommitIsReported(env, s0, initial, steps);
    CommittedIsLatest(env, s0, initial, steps);
  }

  lemma {:induction false} AppliedBatchIsNotEmpty(env: Env, s0: State, initial: seq<Node>, steps: seq<Step>)
    requires Start(s0, initial) && Legal(env, s0, steps) && LatestFetch(steps).Some?
    ensures Latest(env, initial, steps) != []
  {
    var front, step := steps[..|steps| - 1], steps[|steps| - 1];
    LatestFetchStep(steps);
    if Applies(step) {
      TasksInvariant(env, s0, initial, front);
      AppliedBatchIsStored(env, front, After(env, s0, front), step);
    } else {
      AppliedBatchIsNotEmpty(env, s0, initial, front);
    }
  }

  lemma NothingAppliedBefore(env: Env, initial: seq<Node>, steps: seq<Step>, i: nat)
    requires i <= |steps| && LatestFetch(steps).None?
    ensures Latest(env, initial, steps[..i]) == Latest(env, initial, steps)
  {
  }

  /** Once non-empty, the stored list is never empty again. */
  lemma NeverEmptiedAgain(env: Env, s0: State, initial: seq<Node>, steps: seq<Step>, i: nat)
    requires Start(s0, initial) && Legal(env, s0, steps) && i <= |steps|
    requires Latest(env, initial, steps[..i]) != []
    ensures Latest(env, initial, steps) != []
    ensures After(env, s0, steps).committed != map[]
  {
    if LatestFetch(steps).Some? {
      AppliedBatchIsNotEmpty(env, s0, initial, steps);
    } else {
      NothingAppliedBefore(env, initial, steps, i);
    }
    CommittedIsLatest(env, s0, initial, steps);
    assert Latest(env, initial, steps)[0].publicKey in After(env, s0, steps).committed;
  }

  // ---------------------------------------------------------------- outcomes

  ghost predicate HasStep(steps: seq<Step>, step: Step) {
    exists j :: 0 <= j < |steps| && steps[j] == step
  }

  /** An import reports success exactly when its COMMIT succeeded, and reports the number of
      nodes it stored. */
  lemma OutcomeIsExact(env: Env, s0: State, initial: seq<Node>, steps: seq<Step>, id: nat)
    requires Start(s0, initial) && Legal(env, s0, steps) && id < |After(env, s0, steps).tasks|
    ensures Succeeded(After(env, s0, steps).tasks[id]) <==> HasStep(steps, CommitDone(id))
    ensures Succeeded(After(env, s0, steps).tasks[id]) ==>
              After(env, s0, steps).tasks[id].outcome.value == |Batch(env, steps, id)| > 0
  {
    if Succeeded(After(env, s0, steps).tasks[id]) {
      SuccessMeansCommit(env, s0, initial, steps, id);
    }
    if HasStep(steps, CommitDone(id)) {
      var j :| 0 <= j < |steps| && steps[j] == CommitDone(id);
      CommitMeansSuccess(env, s0, steps, j);
    }
  }

  lemma CommitMeansSuccess(env: Env, s0: State, steps: seq<Step>, j: nat)
    requires Legal(env, s0, steps) && j < |steps| && steps[j].CommitDone?
    ensures steps[j].task < |After(env, s0, steps).tasks|
    ensures Succeeded(After(env, s0, steps).tasks[steps[j].task])
  {
    Prefix(env, s0, steps, j);
    FinishedStaysFinished(env, s0, steps, j + 1, steps[j].task);
  }

  lemma {:induction false} SuccessMeansCommit(env: Env, s0: State, initial: seq<Node>, steps: seq<Step>, id: nat)
    requires Start(s0, initial) && Legal(env, s0, steps) && id < |After(env, s0, steps).tasks|
    requires Succeeded(After(env, s0, steps).tasks[id])
    ensures HasStep(steps, CommitDone(id))
    ensures After(env, s0, steps).tasks[id].outcome.value == |Batch(env, steps, id)| > 0
  {
    var n := |steps| - 1;
    var front, step := steps[..n], steps[n];
    var s := After(env, s0, front);
    if step == CommitDone(id) {
      TasksInvariant(env, s0, initial, front);
      assert TaskInv(env, front, id, s.tasks[id]);
    } else {
      OnlyCommitSucceeds(env, s, step, id);
      SuccessMeansCommit(env, s0, initial, front, id);
      var j :| 0 <= j < |front| && front[j] == CommitDone(id);
      assert steps[j] == CommitDone(id);
    }
  }

  lemma OnlyCommitSucceeds(env: Env, s: State, step: Step, id: nat)
    requires Enabled(env, s, step) && step != CommitDone(id)
    requires id < |Apply(env, s, step).tasks| && Succeeded(Apply(env, s, step).tasks[id])
    ensures id < |s.tasks| && s.tasks[id] == Apply(env, s, step).tasks[id]
    ensures !(step.FetchDone? && step.task == id)
  {
  }
}
