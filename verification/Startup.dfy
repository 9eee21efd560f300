/** `app::run` up to serving: connect with retry, migrate with retry, build the client, spawn. */
module Startup {
  import opened Domain
  import opened Retry

  predicate IsConnectionError(e: SqlxError) {
    e.Io? || e.PoolTimedOut? || e.PoolClosed?
  }

  /** While connecting, everything but a bad configuration is retried. */
  predicate TransientConnect(e: StorageError) {
    !(e.Database? && e.sqlx.Configuration?)
  }

  /** A migration is retried only when the connection was the problem. */
  predicate TransientMigrate(e: StorageError) {
    match e
    case Database(sqlx) => IsConnectionError(sqlx)
    case Migration(Execute(sqlx)) => IsConnectionError(sqlx)
    case _ => false
  }

  // ---------------------------------------------------------------- what is retried

  /** The only errors a migration is retried for. */
  const CONNECTIVITY_ERRORS: set<StorageError> := {
    Database(Io), Database(PoolTimedOut), Database(PoolClosed),
    Migration(Execute(Io)), Migration(Execute(PoolTimedOut)), Migration(Execute(PoolClosed))
  }

  /** What the two phases are meant to retry, independent of the classifiers in the code. */
  const CONNECT_RETRIES: StorageError -> bool := (e: StorageError) => e != Database(Configuration)
  const MIGRATE_RETRIES: StorageError -> bool := (e: StorageError) => e in CONNECTIVITY_ERRORS

  lemma ConnectRetriesAllButConfiguration(e: StorageError)
    ensures TransientConnect(e) <==> e != Database(Configuration)
  {
  }

  lemma MigrationRetriesConnectivityOnly(e: StorageError)
    ensures TransientMigrate(e) <==> e in CONNECTIVITY_ERRORS
  {
  }

  /** Two classifiers that agree on every error make the same promise. */
  lemma SamePromise(w: World<(), StorageError>, f: StorageError -> bool, g: StorageError -> bool,
                    r: Result<Option<()>, StorageError>, calls: nat, endedAt: nat)
    requires forall e :: f(e) == g(e)
    requires Promised(w, f, r, calls, endedAt)
    ensures Promised(w, g, r, calls, endedAt)
  {
    SameFinals(w, f, g);
  }

  lemma SameFinals(w: World<(), StorageError>, f: StorageError -> bool, g: StorageError -> bool)
    requires forall e :: f(e) == g(e)
    ensures forall n: nat :: Final(w, f, n) == Final(w, g, n)
    ensures forall n: nat :: FirstFinal(w, f, n) == FirstFinal(w, g, n)
    ensures Ends(w, f) == Ends(w, g)
  {
    forall n: nat ensures Final(w, f, n) == Final(w, g, n) {
      if w.outcome(n).Err? { assert f(w.outcome(n).error) == g(w.outcome(n).error); }
    }
    forall n: nat ensures AllTransient(w, f, n) == AllTransient(w, g, n) {
    }
  }

  lemma ClassifiersAreRight()
    ensures forall e :: TransientConnect(e) == CONNECT_RETRIES(e)
    ensures forall e :: TransientMigrate(e) == MIGRATE_RETRIES(e)
  {
    forall e ensures TransientConnect(e) == CONNECT_RETRIES(e) { ConnectRetriesAllButConfiguration(e); }
    forall e ensures TransientMigrate(e) == MIGRATE_RETRIES(e) { MigrationRetriesConnectivityOnly(e); }
  }

  /** Every outcome and duration of the two phases, the client build, and the cancellation. */
  datatype Boot = Boot(
    connect: nat -> Result<(), StorageError>,
    connectTime: nat -> nat,
    migrate: nat -> Result<(), StorageError>,
    migrateTime: nat -> nat,
    clientError: Option<SourceError>,
    cancelAt: Option<nat>)
  {
    /** The world of the connect phase, which begins with the process. */
    function Connecting(): World<(), StorageError> {
      World(connect, connectTime, 0, cancelAt)
    }

    /** The world of a migration that begins at `start`. */
    function Migrating(start: nat): World<(), StorageError> {
      World(migrate, migrateTime, start, cancelAt)
    }
  }

  datatype AppError = StorageFailed(storage: StorageError) | ClientFailed(source: SourceError)

  datatype Ending = Serving | ShutDown | Failed(error: AppError)

  datatype Event = Connected | Migrated | ClosedPool | ImporterSpawned

  /** Call `n` is the first final one, it succeeds, and the token is not cancelled by then. */
  ghost predicate Succeeds(w: World<(), StorageError>, transient: StorageError -> bool, n: nat) {
    FirstFinal(w, transient, n) && w.outcome(n).Ok? && !CancelledBy(w.cancelAt, CallEnd(w, n))
  }

  /** Call `n` is the first final one, it fails with `e`, and the token is not cancelled by then. */
  ghost predicate FailsWith(w: World<(), StorageError>, transient: StorageError -> bool, n: nat, e: StorageError) {
    FirstFinal(w, transient, n) && w.outcome(n) == Err(e) && !CancelledBy(w.cancelAt, CallEnd(w, n))
  }

  /** One successful connect, then one successful migration, both before cancellation. */
  ghost predicate ComesUp(boot: Boot) {
    boot.clientError.None? && Migrates(boot)
  }

  ghost predicate Prepared(boot: Boot, n: nat, m: nat) {
    && Succeeds(boot.Connecting(), CONNECT_RETRIES, n)
    && Succeeds(boot.Migrating(CallEnd(boot.Connecting(), n)), MIGRATE_RETRIES, m)
  }

  /** The token is cancelled before any final outcome is there. */
  ghost predicate Interrupted(w: World<(), StorageError>, transient: StorageError -> bool) {
    w.cancelAt.Some? && forall n: nat :: FirstFinal(w, transient, n) ==> CancelledBy(w.cancelAt, CallEnd(w, n))
  }

  /** Cancelled while connecting, or while migrating after a successful connect. */
  ghost predicate StopsEarly(boot: Boot) {
    || Interrupted(boot.Connecting(), CONNECT_RETRIES)
    || exists n: nat ::
         && Succeeds(boot.Connecting(), CONNECT_RETRIES, n)
         && Interrupted(boot.Migrating(CallEnd(boot.Connecting(), n)), MIGRATE_RETRIES)
  }

  /** A permanent error while connecting, or while migrating after a successful connect. */
  ghost predicate FailsToStart(boot: Boot, e: StorageError) {
    || (exists n: nat :: FailsWith(boot.Connecting(), CONNECT_RETRIES, n, e))
    || exists n: nat, m: nat :: FailsMigrating(boot, n, m, e)
  }

  ghost predicate FailsMigrating(boot: Boot, n: nat, m: nat, e: StorageError) {
    && Succeeds(boot.Connecting(), CONNECT_RETRIES, n)
    && FailsWith(boot.Migrating(CallEnd(boot.Connecting(), n)), MIGRATE_RETRIES, m, e)
  }

  predicate FailedWith(ending: Ending, e: StorageError) {
    ending == Failed(StorageFailed(e))
  }

  ghost predicate Connects(boot: Boot) {
    exists n: nat :: Succeeds(boot.Connecting(), CONNECT_RETRIES, n)
  }

  ghost predicate Migrates(boot: Boot) {
    exists n: nat, m: nat :: Prepared(boot, n, m)
  }

  /** What happens after a successful connect: the migration and, once the client is built, the
      importer; or the pool is closed on a cancellation; or nothing more on an error. */
  ghost function EventsAfterConnect(boot: Boot): seq<Event> {
    if Migrates(boot) then [Migrated] + (if boot.clientError.None? then [ImporterSpawned] else [])
    else if StopsEarly(boot) then [ClosedPool]
    else []
  }

  ghost function Events(boot: Boot): seq<Event> {
    if Connects(boot) then [Connected] + EventsAfterConnect(boot) else []
  }

  /** How the startup ends, for each way the two phases and the client build can go. */
  ghost predicate EndsRightly(boot: Boot, ending: Ending) {
    && (ending.Serving? <==> ComesUp(boot))
    && (ending.ShutDown? <==> StopsEarly(boot))
    && (forall e :: FailedWith(ending, e) <==> FailsToStart(boot, e))
    && (forall e :: ending == Failed(ClientFailed(e)) <==> Migrates(boot) && boot.clientError == Some(e))
  }

  lemma SuccessIsUnique(w: World<(), StorageError>, transient: StorageError -> bool, n: nat, m: nat)
    requires FirstFinal(w, transient, n) && FirstFinal(w, transient, m)
    ensures n == m
  {
    assert !(n < m) && !(m < n);
  }

  /** A phase's result says whether the phase succeeded, was interrupted or failed for good, and
      which call decided it. */
  lemma PhaseResult(w: World<(), StorageError>, transient: StorageError -> bool,
                    r: Result<Option<()>, StorageError>, calls: nat, endedAt: nat)
    requires Promised(w, transient, r, calls, endedAt)
    ensures r.Ok? && r.value.Some? <==> exists n: nat :: Succeeds(w, transient, n)
    ensures r == Ok(None) <==> Interrupted(w, transient)
    ensures r.Err? <==> exists n: nat, e :: FailsWith(w, transient, n, e)
    ensures r.Err? ==> calls > 0 && FailsWith(w, transient, calls - 1, r.error) && !transient(r.error)
    ensures forall n: nat, e :: FailsWith(w, transient, n, e) ==> r == Err(e)
    ensures r.Ok? && r.value.Some? ==>
              calls > 0 && Succeeds(w, transient, calls - 1) && endedAt == CallEnd(w, calls - 1)
  {
    if r.Ok? && r.value.Some? {
      assert FirstFinal(w, transient, calls - 1);
      assert Succeeds(w, transient, calls - 1);
    }
    if n: nat :| Succeeds(w, transient, n) {
      assert r == Verdict(w.outcome(n));
    }
    if r.Err? {
      assert FirstFinal(w, transient, calls - 1);
      assert FailsWith(w, transient, calls - 1, r.error);
    }
    forall n: nat, e | FailsWith(w, transient, n, e) ensures r == Err(e) {
      assert r == Verdict(w.outcome(n));
    }
    if r == Ok(None) {
      forall n: nat | FirstFinal(w, transient, n) ensures CancelledBy(w.cancelAt, CallEnd(w, n)) {
        assert !CancelledBy(w.cancelAt, CallEnd(w, n)) ==> r == Verdict(w.outcome(n));
      }
    } else {
      assert FirstFinal(w, transient, calls - 1);
    }
  }

  lemma NotStoppedEarly(boot: Boot, n: nat)
    requires Succeeds(boot.Connecting(), CONNECT_RETRIES, n)
    requires !Interrupted(boot.Migrating(CallEnd(boot.Connecting(), n)), MIGRATE_RETRIES)
    ensures !StopsEarly(boot)
  {
    forall n': nat | Succeeds(boot.Connecting(), CONNECT_RETRIES, n') ensures n' == n {
      SuccessIsUnique(boot.Connecting(), CONNECT_RETRIES, n, n');
    }
  }

  lemma NotPrepared(boot: Boot, n: nat)
    requires Succeeds(boot.Connecting(), CONNECT_RETRIES, n)
    requires !exists m: nat :: Succeeds(boot.Migrating(CallEnd(boot.Connecting(), n)), MIGRATE_RETRIES, m)
    ensures !Migrates(boot)
  {
    forall n': nat, m: nat ensures !Prepared(boot, n', m) {
      if Prepared(boot, n', m) {
        SuccessIsUnique(boot.Connecting(), CONNECT_RETRIES, n, n');
      }
    }
  }

  lemma FailsWhileMigrating(boot: Boot, n: nat, e: StorageError)
    requires Succeeds(boot.Connecting(), CONNECT_RETRIES, n)
    ensures FailsToStart(boot, e) <==>
            exists m: nat :: FailsWith(boot.Migrating(CallEnd(boot.Connecting(), n)), MIGRATE_RETRIES, m, e)
  {
    forall n': nat | FirstFinal(boot.Connecting(), CONNECT_RETRIES, n') ensures n' == n {
      SuccessIsUnique(boot.Connecting(), CONNECT_RETRIES, n, n');
    }
    if m: nat :| FailsWith(boot.Migrating(CallEnd(boot.Connecting(), n)), MIGRATE_RETRIES, m, e) {
      assert FailsMigrating(boot, n, m, e);
    }
  }

  lemma NotConnected(boot: Boot)
    requires !Connects(boot)
    ensures !Migrates(boot)
    ensures StopsEarly(boot) <==> Interrupted(boot.Connecting(), CONNECT_RETRIES)
    ensures forall e :: FailsToStart(boot, e) <==>
              exists n: nat :: FailsWith(boot.Connecting(), CONNECT_RETRIES, n, e)
  {
    forall n: nat, m: nat ensures !Prepared(boot, n, m) {
    }
  }

  /** `retry` with the connect classifier. */
  method ConnectWithRetry(w: World<(), StorageError>)
    returns (r: Result<Option<()>, StorageError>, calls: nat, endedAt: nat)
    requires Ends(w, CONNECT_RETRIES)
    ensures Promised(w, CONNECT_RETRIES, r, calls, endedAt)
  {
    ClassifiersAreRight();
    SameFinals(w, TransientConnect, CONNECT_RETRIES);
    r, calls, endedAt := Retry.Run(w, TransientConnect);
    SamePromise(w, TransientConnect, CONNECT_RETRIES, r, calls, endedAt);
  }

  /** `retry` with the migration classifier. */
  method MigrateWithRetry(w: World<(), StorageError>)
    returns (r: Result<Option<()>, StorageError>, calls: nat, endedAt: nat)
    requires Ends(w, MIGRATE_RETRIES)
    ensures Promised(w, MIGRATE_RETRIES, r, calls, endedAt)
  {
    ClassifiersAreRight();
    SameFinals(w, TransientMigrate, MIGRATE_RETRIES);
    r, calls, endedAt := Retry.Run(w, TransientMigrate);
    SamePromise(w, TransientMigrate, MIGRATE_RETRIES, r, calls, endedAt);
  }

  /** The startup from a successful connect on; `before` is what has happened up to there. */
  method MigrateAndSpawn(boot: Boot, ghost n: nat, connectedAt: nat, before: seq<Event>)
    returns (ending: Ending, trace: seq<Event>)
    requires Ends(boot.Migrating(0), MIGRATE_RETRIES)
    requires Succeeds(boot.Connecting(), CONNECT_RETRIES, n) && connectedAt == CallEnd(boot.Connecting(), n)
    ensures EndsRightly(boot, ending)
    ensures trace == before + EventsAfterConnect(boot)
  {
    trace := before;
    var w := World(boot.migrate, boot.migrateTime, connectedAt, boot.cancelAt);
    EndsAnyTime(boot, connectedAt);
    var migrated, m, migratedAt := MigrateWithRetry(w);
    PhaseResult(w, MIGRATE_RETRIES, migrated, m, migratedAt);
    forall e ensures FailsToStart(boot, e) <==> migrated == Err(e) {
      FailsWhileMigrating(boot, n, e);
    }
    if migrated.Err? {
      NotPrepared(boot, n);
      NotStoppedEarly(boot, n);
      return Failed(StorageFailed(migrated.error)), trace;
    }
    if migrated.value.None? {
      NotPrepared(boot, n);
      trace := trace + [ClosedPool];
      return ShutDown, trace;
    }
    trace := trace + [Migrated];
    NotStoppedEarly(boot, n);
    assert Prepared(boot, n, m - 1);
    if boot.clientError.Some? { return Failed(ClientFailed(boot.clientError.value)), trace; }
    trace := trace + [ImporterSpawned];
    return Serving, trace;
  }

  /** Serving begins exactly when the service comes up; a clean return before that happens exactly
      when the token is cancelled while connecting or migrating; a storage error ends the startup
      exactly when it is the first final outcome of its phase; and what happens on the way is
      determined by which phases succeed. The migration needs to end only if it is reached. */
  method Run(boot: Boot) returns (ending: Ending, trace: seq<Event>)
    requires Ends(boot.Connecting(), CONNECT_RETRIES)
    requires Connects(boot) ==> Ends(boot.Migrating(0), MIGRATE_RETRIES)
    ensures EndsRightly(boot, ending)
    ensures trace == Events(boot)
  {
    trace := [];
    var w := World(boot.connect, boot.connectTime, 0, boot.cancelAt);
    var connected, calls, connectedAt := ConnectWithRetry(w);
    PhaseResult(w, CONNECT_RETRIES, connected, calls, connectedAt);
    if connected.Err? || connected.value.None? {
      NotConnected(boot);
    }
    if connected.Err? { return Failed(StorageFailed(connected.error)), trace; }
    if connected.value.None? { return ShutDown, trace; }
    trace := trace + [Connected];
    ending, trace := MigrateAndSpawn(boot, calls - 1, connectedAt, trace);
  }

  lemma EndsAnyTime(boot: Boot, start: nat)
    requires Ends(boot.Migrating(0), MIGRATE_RETRIES)
    ensures Ends(boot.Migrating(start), MIGRATE_RETRIES)
  {
    if boot.cancelAt.None? {
      var n: nat :| Final(boot.Migrating(0), MIGRATE_RETRIES, n);
      assert Final(boot.Migrating(start), MIGRATE_RETRIES, n);
    }
  }

  // ---------------------------------------------------------------- what that means

  /** A bad configuration is reported by the first connect that says so, and nothing else has happened. */
  lemma BadConfigurationEndsStartup(boot: Boot, ending: Ending, n: nat)
    requires EndsRightly(boot, ending)
    requires boot.connect(n) == Err(Database(Configuration))
    requires forall k: nat :: k < n ==> boot.connect(k).Err? && boot.connect(k) != Err(Database(Configuration))
    requires !CancelledBy(boot.cancelAt, CallEnd(boot.Connecting(), n))
    ensures ending == Failed(StorageFailed(Database(Configuration))) && Events(boot) == []
  {
    var w := boot.Connecting();
    assert FailsWith(w, CONNECT_RETRIES, n, Database(Configuration));
    assert FailsToStart(boot, Database(Configuration));
    assert FailedWith(ending, Database(Configuration));
    forall m: nat | FirstFinal(w, CONNECT_RETRIES, m) ensures m == n { SuccessIsUnique(w, CONNECT_RETRIES, n, m); }
  }

  /** A storage error that ends the startup is a bad configuration if nothing was connected yet, and
      otherwise none of the connectivity errors. */
  lemma FatalErrorsArePermanent(boot: Boot, ending: Ending, e: StorageError)
    requires EndsRightly(boot, ending) && ending == Failed(StorageFailed(e))
    ensures Events(boot) == [] ==> e == Database(Configuration)
    ensures Events(boot) != [] ==> Events(boot) == [Connected] && e !in CONNECTIVITY_ERRORS
  {
    assert FailedWith(ending, e);
    if Connects(boot) {
      var n: nat :| Succeeds(boot.Connecting(), CONNECT_RETRIES, n);
      FailsWhileMigrating(boot, n, e);
    }
  }

  /** The pool is closed exactly on a cancellation after a successful connect. */
  lemma PoolIsClosedIff(boot: Boot, ending: Ending)
    requires EndsRightly(boot, ending)
    ensures ClosedPool in Events(boot) <==> ending.ShutDown? && Connects(boot)
    ensures ending.ShutDown? && !Connects(boot) ==> Interrupted(boot.Connecting(), CONNECT_RETRIES)
  {
    if !Connects(boot) { NotConnected(boot); }
    if Migrates(boot) {
      var n: nat, m: nat :| Prepared(boot, n, m);
      NotStoppedEarly(boot, n);
    }
  }
}
