/** The process may stop after any step and be started again on the table it left. */
module Lives {
  import opened Domain
  import opened Snapshot
  import opened Service
  import Shutdown
  import Source

  /** One life of the process: the state it starts serving in and the steps it gets to take. */
  datatype Life = Life(start: State, steps: seq<Step>)

  /** Nothing of an earlier life survives but the table. */
  predicate Fresh(s: State, table: Table) {
    && s.server.Listening? && s.poolOpen && s.loop.AtSelect?
    && s.tasks == [] && s.requests == [] && s.committed == table
  }

  /** The table the lives leave behind. */
  function TableAfter(env: Env, table: Table, lives: seq<Life>): Table {
    if lives == [] then table else After(env, lives[|lives| - 1].start, lives[|lives| - 1].steps).committed
  }

  /** Each life starts on the table the one before left, wherever it was stopped. */
  ghost predicate Succession(env: Env, table: Table, lives: seq<Life>) {
    lives != [] ==>
      var front, last := lives[..|lives| - 1], lives[|lives| - 1];
      && Succession(env, table, front)
      && Fresh(last.start, TableAfter(env, table, front))
      && Legal(env, last.start, last.steps)
  }

  /** The records behind the latest COMMIT applied in any life. */
  function LatestFetchOver(lives: seq<Life>): Option<seq<Source.Json>> {
    if lives == [] then None
    else
      var fetch := LatestFetch(lives[|lives| - 1].steps);
      if fetch.Some? then fetch else LatestFetchOver(lives[..|lives| - 1])
  }

  function LatestOver(env: Env, initial: seq<Node>, lives: seq<Life>): seq<Node> {
    match LatestFetchOver(lives)
    case None => initial
    case Some(records) => Source.ParseRecords(env.lib, records)
  }

  /** After any number of lives, each stopped anywhere, the table stores the whole batch of the
      latest COMMIT applied in any of them, or the initial list. */
  lemma {:induction false} TableOutlivesProcess(env: Env, table: Table, initial: seq<Node>, lives: seq<Life>)
    requires Represents(table, initial) && Succession(env, table, lives)
    ensures Represents(TableAfter(env, table, lives), LatestOver(env, initial, lives))
  {
    if lives != [] {
      var front, last := lives[..|lives| - 1], lives[|lives| - 1];
      TableOutlivesProcess(env, table, initial, front);
      var before := LatestOver(env, initial, front);
      assert Start(last.start, before);
      CommittedIsLatest(env, last.start, before, last.steps);
      assert Latest(env, before, last.steps) == LatestOver(env, initial, lives);
    }
  }

  lemma {:induction false} FetchedBatchIsNotEmpty(env: Env, table: Table, initial: seq<Node>, lives: seq<Life>)
    requires Represents(table, initial) && Succession(env, table, lives) && LatestFetchOver(lives).Some?
    ensures LatestOver(env, initial, lives) != []
  {
    var front, last := lives[..|lives| - 1], lives[|lives| - 1];
    if LatestFetch(last.steps).Some? {
      TableOutlivesProcess(env, table, initial, front);
      Shutdown.AppliedBatchIsNotEmpty(env, last.start, LatestOver(env, initial, front), last.steps);
    } else {
      FetchedBatchIsNotEmpty(env, table, initial, front);
    }
  }

  lemma {:induction false} NoFetchInEarlierLives(lives: seq<Life>, n: nat)
    requires n <= |lives| && LatestFetchOver(lives).None?
    ensures LatestFetchOver(lives[..n]).None?
  {
    if n == |lives| {
      assert lives[..n] == lives;
    } else {
      assert lives[..|lives| - 1][..n] == lives[..n];
      NoFetchInEarlierLives(lives[..|lives| - 1], n);
    }
  }

  /** Once non-empty, the table stays non-empty across every later restart. */
  lemma NeverEmptyAcrossRestarts(env: Env, table: Table, initial: seq<Node>, lives: seq<Life>, n: nat)
    requires Represents(table, initial) && Succession(env, table, lives) && n <= |lives|
    requires LatestOver(env, initial, lives[..n]) != []
    ensures LatestOver(env, initial, lives) != [] && TableAfter(env, table, lives) != map[]
  {
    if LatestFetchOver(lives).Some? {
      FetchedBatchIsNotEmpty(env, table, initial, lives);
    } else {
      NoFetchInEarlierLives(lives, n);
    }
    TableOutlivesProcess(env, table, initial, lives);
    assert LatestOver(env, initial, lives)[0].publicKey in TableAfter(env, table, lives);
  }
}
