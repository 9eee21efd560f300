/** Imports commit in the order they were fetched, so reads never go back to an older fetch.
    This needs the loop to await each import before it spawns the next. */
module FetchOrder {
  import opened Domain
  import opened Service
  import opened Shutdown
  import Http

  lemma {:induction false} TasksGrow(env: Env, s0: State, steps: seq<Step>, i: nat)
    requires Legal(env, s0, steps) && i <= |steps|
    ensures |After(env, s0, steps[..i]).tasks| <= |After(env, s0, steps).tasks|
  {
    if i == |steps| {
      assert steps[..i] == steps;
    } else {
      var front := steps[..|steps| - 1];
      assert front[..i] == steps[..i];
      TasksGrow(env, s0, front, i);
      TasksStep(env, After(env, s0, front), steps[|steps| - 1]);
    }
  }

  lemma TasksGrowBetween(env: Env, s0: State, steps: seq<Step>, i: nat, j: nat)
    requires Legal(env, s0, steps) && i <= j <= |steps|
    ensures |After(env, s0, steps[..i]).tasks| <= |After(env, s0, steps[..j]).tasks|
  {
    Prefix(env, s0, steps, j);
    assert steps[..j][..i] == steps[..i];
    TasksGrow(env, s0, steps[..j], i);
  }

  predicate FetchOf(step: Step, task: nat) {
    step.FetchDone? && step.task == task
  }

  /** The import fetched, and only between `lo` and `hi`. */
  ghost predicate FetchedWithin(steps: seq<Step>, task: nat, lo: int, hi: int) {
    && (exists f :: 0 <= f < |steps| && FetchOf(steps[f], task))
    && (forall f :: 0 <= f < |steps| && FetchOf(steps[f], task) ==> lo < f < hi)
  }

  lemma {:induction false} RecordsWereFetched(steps: seq<Step>, task: nat)
    requires RecordsOf(steps, task) != []
    ensures exists f :: 0 <= f < |steps| && FetchOf(steps[f], task)
  {
    var n := |steps| - 1;
    if FetchOf(steps[n], task) {
    } else {
      RecordsWereFetched(steps[..n], task);
      var f :| 0 <= f < n && FetchOf(steps[..n][f], task);
      assert FetchOf(steps[f], task);
    }
  }

  lemma CommitterFetched(env: Env, s0: State, initial: seq<Node>, steps: seq<Step>, k: nat)
    requires Start(s0, initial) && Legal(env, s0, steps) && k < |steps| && Applies(steps[k])
    ensures exists f :: 0 <= f < |steps| && FetchOf(steps[f], steps[k].task)
  {
    var front := steps[..k];
    Prefix(env, s0, steps, k);
    TasksInvariant(env, s0, initial, front);
    AppliedBatchIsStored(env, front, After(env, s0, front), steps[k]);
    RecordsWereFetched(front, steps[k].task);
    var f :| 0 <= f < |front| && FetchOf(front[f], steps[k].task);
    assert FetchOf(steps[f], steps[k].task);
  }

  /** An import fetches before it commits, and not again. */
  lemma FetchPrecedesCommit(env: Env, s0: State, initial: seq<Node>, steps: seq<Step>, f: nat, k: nat)
    requires Start(s0, initial) && Legal(env, s0, steps) && f < |steps| && k < |steps|
    requires Applies(steps[k]) && FetchOf(steps[f], steps[k].task)
    ensures f < k
  {
    if k < f {
      FinishedByCommit(env, s0, steps, k, f);
      Prefix(env, s0, steps, f);
      FinishedFetchesNoMore(env, After(env, s0, steps[..f]), steps[f], steps[k].task);
    }
  }

  lemma FetchFollowsEarlierCommit(env: Env, s0: State, initial: seq<Node>, steps: seq<Step>, j: nat, k: nat, f: nat)
    requires Start(s0, initial) && Legal(env, s0, steps) && j < k < |steps| && f < |steps|
    requires Applies(steps[j]) && Applies(steps[k]) && FetchOf(steps[f], steps[k].task)
    ensures j < f
  {
    if f < j {
      CommitsInSpawnOrder(env, s0, initial, steps, j, k);
      CommitterIsNewest(env, s0, initial, steps, j);
      TasksGrowBetween(env, s0, steps, f, j);
      Prefix(env, s0, steps, f);
    }
  }

  /** Of two applied COMMITs, the later one's data was fetched after the earlier one committed. */
  lemma CommitsInFetchOrder(env: Env, s0: State, initial: seq<Node>, steps: seq<Step>, j: nat, k: nat)
    requires Start(s0, initial) && Legal(env, s0, steps)
    requires j < k < |steps| && Applies(steps[j]) && Applies(steps[k])
    ensures steps[j].task < steps[k].task
    ensures FetchedWithin(steps, steps[k].task, j, k)
  {
    CommitsInSpawnOrder(env, s0, initial, steps, j, k);
    CommitterFetched(env, s0, initial, steps, k);
    forall f | 0 <= f < |steps| && FetchOf(steps[f], steps[k].task) ensures j < f < k {
      FetchPrecedesCommit(env, s0, initial, steps, f, k);
      FetchFollowsEarlierCommit(env, s0, initial, steps, j, k, f);
    }
  }

  // ---------------------------------------------------------------- what two reads show

  /** The reply shows the batch of the COMMIT at `origin`, or the initial list. */
  ghost predicate ShowsOrigin(env: Env, initial: seq<Node>, steps: seq<Step>, origin: Option<nat>, reply: Http.Reply) {
    match origin
    case None => Http.ShowsAll(env.format, initial, reply)
    case Some(c) =>
      && c < |steps| && Applies(steps[c])
      && Http.ShowsAll(env.format, Batch(env, steps[..c], steps[c].task), reply)
  }

  /** The second origin is the first one, or a younger import that fetched after the first committed. */
  ghost predicate NoOlder(steps: seq<Step>, first: Option<nat>, second: Option<nat>) {
    first.None? || first == second ||
    (&& second.Some? && first.value < second.value < |steps|
     && Applies(steps[first.value]) && Applies(steps[second.value])
     && steps[first.value].task < steps[second.value].task
     && FetchedWithin(steps, steps[second.value].task, first.value, second.value))
  }

  /** Step `j` answers the request that took its snapshot at step `i`. */
  predicate IsRead(steps: seq<Step>, i: nat, j: nat) {
    i < j < |steps| && steps[j].Reply? && steps[i] == TakeSnapshot(steps[j].read)
  }

  lemma ReadShowsOrigin(env: Env, s0: State, initial: seq<Node>, steps: seq<Step>, i: nat, j: nat)
    requires Start(s0, initial) && Legal(env, s0, steps) && IsRead(steps, i, j)
    ensures ShowsOrigin(env, initial, steps, AppliedAt(steps[..i]), ReplyTo(env, steps[j]))
  {
    ReadShowsOneSnapshot(env, s0, initial, steps, j);
    Prefix(env, s0, steps, j);
    assert steps[..j][i] == steps[i];
    SnapshotIsTakenOnce(env, s0, initial, steps[..j], i);
    if AppliedAt(steps[..i]).Some? {
      var c := AppliedAt(steps[..i]).value;
      assert steps[..i][..c] == steps[..c] && steps[..i][c] == steps[c];
    }
  }

  lemma OriginsAdvance(env: Env, s0: State, initial: seq<Node>, steps: seq<Step>, i1: nat, i2: nat)
    requires Start(s0, initial) && Legal(env, s0, steps) && i1 <= i2 <= |steps|
    ensures NoOlder(steps, AppliedAt(steps[..i1]), AppliedAt(steps[..i2]))
  {
    var first, second := AppliedAt(steps[..i1]), AppliedAt(steps[..i2]);
    if first.Some? {
      var c := first.value;
      assert steps[..i2][c] == steps[..i1][c] == steps[c];
      var d := second.value;
      assert c <= d && steps[..i2][d] == steps[d];
      if i1 > d {
        assert steps[..i1][d] == steps[d];
      }
      if c < d {
        CommitsInFetchOrder(env, s0, initial, steps, c, d);
      }
    }
  }

  /** Monotonic reads: of two successful reads, the one whose snapshot is taken later shows the same
      import as the earlier one or a younger import, fetched after the earlier batch committed. */
  lemma MonotonicReads(env: Env, s0: State, initial: seq<Node>, steps: seq<Step>, i1: nat, j1: nat, i2: nat, j2: nat)
    requires Start(s0, initial) && Legal(env, s0, steps)
    requires IsRead(steps, i1, j1) && IsRead(steps, i2, j2) && i1 <= i2
    ensures ShowsOrigin(env, initial, steps, AppliedAt(steps[..i1]), ReplyTo(env, steps[j1]))
    ensures ShowsOrigin(env, initial, steps, AppliedAt(steps[..i2]), ReplyTo(env, steps[j2]))
    ensures NoOlder(steps, AppliedAt(steps[..i1]), AppliedAt(steps[..i2]))
  {
    ReadShowsOrigin(env, s0, initial, steps, i1, j1);
    ReadShowsOrigin(env, s0, initial, steps, i2, j2);
    OriginsAdvance(env, s0, initial, steps, i1, i2);
  }
}
