/** The interleaving machine and the imperative importer agree, both ways: the steps of one import
    can do whatever `SpawnAndJoin` does, and in no run do they report anything else. */
module Agreement {
  import opened Domain
  import opened Snapshot
  import opened Repository
  import opened Service
  import Import
  import Shutdown
  import Source

  // ---------------------------------------------------------------- the machine does what the importer does

  /** `more` consists of steps of task `id` only and takes it to `outcome`, leaving `table` committed. */
  ghost predicate ReachesBy(env: Env, s: State, id: nat, outcome: Result<nat, ImportError>, table: Table,
                            more: seq<Step>)
  {
    && Legal(env, s, more)
    && (forall i :: 0 <= i < |more| ==> IsTaskStep(more[i]) && more[i].task == id)
    && id < |After(env, s, more).tasks| && After(env, s, more).tasks[id] == Finished(outcome)
    && After(env, s, more).committed == table
  }

  ghost predicate Reaches(env: Env, s: State, id: nat, outcome: Result<nat, ImportError>, table: Table) {
    exists more :: ReachesBy(env, s, id, outcome, table, more)
  }

  lemma AlreadyThere(env: Env, s: State, id: nat)
    requires id < |s.tasks| && s.tasks[id].Finished?
    ensures Reaches(env, s, id, s.tasks[id].outcome, s.committed)
  {
    assert ReachesBy(env, s, id, s.tasks[id].outcome, s.committed, []);
  }

  lemma StepThen(env: Env, s: State, id: nat, step: Step, outcome: Result<nat, ImportError>, table: Table)
    requires IsTaskStep(step) && step.task == id && Enabled(env, s, step)
    requires Reaches(env, Apply(env, s, step), id, outcome, table)
    ensures Reaches(env, s, id, outcome, table)
  {
    var more :| ReachesBy(env, Apply(env, s, step), id, outcome, table, more);
    Single(env, s, step);
    Concat(env, s, [step], more);
    assert ReachesBy(env, s, id, outcome, table, [step] + more);
  }

  lemma FaultEnds(env: Env, s: State, id: nat, e: SqlxError)
    requires id < |s.tasks| && InTransaction(s.tasks[id])
    ensures Reaches(env, s, id, Err(FromStorage(Database(e))), s.committed)
  {
    var step := SqlFault(id, e);
    AlreadyThere(env, Apply(env, s, step), id);
    StepThen(env, s, id, step, Err(FromStorage(Database(e))), s.committed);
  }

  lemma PanicEnds(env: Env, s: State, id: nat)
    requires id < |s.tasks| && !s.tasks[id].Finished?
    ensures Reaches(env, s, id, Err(Panicked), s.committed)
  {
    AlreadyThere(env, Apply(env, s, Panic(id)), id);
    StepThen(env, s, id, Panic(id), Err(Panicked), s.committed);
  }

  /** What `replace_all` still has to report for these nodes. */
  function Remaining(nodes: seq<Node>, faults: Faults, panic: Option<Statement>): Result<nat, ImportError> {
    if Unwinds(nodes, faults, panic) then Err(Panicked)
    else
      match ReplaceResult(nodes, faults)
      case Err(e) => Err(FromStorage(e))
      case Ok(count) => Ok(count)
  }

  function FinalTable(committed: Table, nodes: seq<Node>, faults: Faults, panic: Option<Statement>): Table {
    if Unwinds(nodes, faults, panic) then committed else TableAfter(committed, Replace(nodes, faults))
  }

  /** The import can go on to what is left of `replace_all`. */
  ghost predicate Completes(env: Env, s: State, id: nat, nodes: seq<Node>, faults: Faults, panic: Option<Statement>) {
    Reaches(env, s, id, Remaining(nodes, faults, panic), FinalTable(s.committed, nodes, faults, panic))
  }

  lemma FromCommit(env: Env, s: State, id: nat, faults: Faults, panic: Option<Statement>)
    requires id < |s.tasks| && s.tasks[id].AwaitCommit? && ToColumns(s.tasks[id].nodes).Ok?
    requires Insert(map[], Unnest(ToColumns(s.tasks[id].nodes).value)) == Ok(s.tasks[id].working)
    requires faults.begin.None? && faults.delete.None? && faults.insert.None?
    requires panic.None? || panic.value.Commit?
    ensures Completes(env, s, id, s.tasks[id].nodes, faults, panic)
  {
    if panic.Some? {
      PanicEnds(env, s, id);
    } else if faults.commit.Some? {
      FaultEnds(env, s, id, faults.commit.value);
    } else {
      var step := CommitDone(id);
      AlreadyThere(env, Apply(env, s, step), id);
      StepThen(env, s, id, step, Ok(|s.tasks[id].nodes|), s.tasks[id].working);
    }
  }

  lemma FromInsert(env: Env, s: State, id: nat, faults: Faults, panic: Option<Statement>)
    requires id < |s.tasks| && s.tasks[id].AwaitInsert? && s.tasks[id].working == map[]
    requires RowsStore(s.tasks[id].rows, s.tasks[id].nodes) && faults.begin.None? && faults.delete.None?
    requires panic.None? || panic.value.InsertUnnest? || panic.value.Commit?
    ensures Completes(env, s, id, s.tasks[id].nodes, faults, panic)
  {
    var nodes := s.tasks[id].nodes;
    if panic == Some(InsertUnnest) {
      PanicEnds(env, s, id);
    } else if faults.insert.Some? {
      FaultEnds(env, s, id, faults.insert.value);
    } else {
      var step := InsertDone(id);
      var s' := Apply(env, s, step);
      if s'.tasks[id].Finished? {
        AlreadyThere(env, s', id);
      } else {
        FromCommit(env, s', id, faults, panic);
      }
      StepThen(env, s, id, step, Remaining(nodes, faults, panic), FinalTable(s.committed, nodes, faults, panic));
    }
  }

  lemma FromDelete(env: Env, s: State, id: nat, faults: Faults, panic: Option<Statement>)
    requires id < |s.tasks| && s.tasks[id].AwaitDelete?
    requires RowsStore(s.tasks[id].rows, s.tasks[id].nodes) && faults.begin.None?
    requires panic != Some(Begin)
    ensures Completes(env, s, id, s.tasks[id].nodes, faults, panic)
  {
    var nodes := s.tasks[id].nodes;
    if panic == Some(Delete) {
      PanicEnds(env, s, id);
    } else if faults.delete.Some? {
      FaultEnds(env, s, id, faults.delete.value);
    } else {
      var step := DeleteDone(id);
      FromInsert(env, Apply(env, s, step), id, faults, panic);
      StepThen(env, s, id, step, Remaining(nodes, faults, panic), FinalTable(s.committed, nodes, faults, panic));
    }
  }

  lemma FromBegin(env: Env, s: State, id: nat, faults: Faults, panic: Option<Statement>)
    requires id < |s.tasks| && s.tasks[id].AwaitBegin?
    requires RowsStore(s.tasks[id].rows, s.tasks[id].nodes)
    ensures Completes(env, s, id, s.tasks[id].nodes, faults, panic)
  {
    var nodes := s.tasks[id].nodes;
    if panic == Some(Begin) {
      PanicEnds(env, s, id);
    } else if faults.begin.Some? {
      FaultEnds(env, s, id, faults.begin.value);
    } else {
      var step := BeginDone(id);
      FromDelete(env, Apply(env, s, step), id, faults, panic);
      StepThen(env, s, id, step, Remaining(nodes, faults, panic), FinalTable(s.committed, nodes, faults, panic));
    }
  }

  lemma FromFetched(env: Env, s: State, id: nat, faults: Faults, panic: Option<Statement>)
    requires id < |s.tasks| && s.tasks[id].Fetched?
    ensures Completes(env, s, id, s.tasks[id].nodes, faults, panic)
  {
    var nodes := s.tasks[id].nodes;
    var step := Convert(id);
    var s' := Apply(env, s, step);
    if s'.tasks[id].Finished? {
      AlreadyThere(env, s', id);
    } else {
      FromBegin(env, s', id, faults, panic);
    }
    StepThen(env, s, id, step, Remaining(nodes, faults, panic), FinalTable(s.committed, nodes, faults, panic));
  }

  /** What `SpawnAndJoin` leaves in a table that was `before`. */
  ghost predicate Leaves(lib: Source.Libraries, a: Import.Attempt, before: Table, table: Table) {
    && (Import.AttemptResult(lib, a).Err? ==> table == before)
    && (Import.AttemptResult(lib, a).Ok? ==> Represents(table, Import.Batch(lib, a)))
  }

  /** From the spawn on, for every exchange, every combination of engine faults and every panic
      point, some run of that import alone ends with `SpawnAndJoin`'s result and leaves what
      `SpawnAndJoin` leaves. */
  lemma MachineRunsAttempt(env: Env, s: State, id: nat, a: Import.Attempt)
    requires id < |s.tasks| && s.tasks[id].Fetching?
    ensures exists table ::
              && Reaches(env, s, id, Import.AttemptResult(env.lib, a), table)
              && Leaves(env.lib, a, s.committed, table)
  {
    var step := FetchDone(id, a.exchange);
    var s' := Apply(env, s, step);
    var r := Import.AttemptResult(env.lib, a);
    if a.panic.BeforeStatements? {
      PanicEnds(env, s, id);
    } else if s'.tasks[id].Finished? {
      AlreadyThere(env, s', id);
      StepThen(env, s, id, step, r, s.committed);
    } else {
      var nodes, panic := s'.tasks[id].nodes, Import.PlannedAt(a);
      FromFetched(env, s', id, a.faults, panic);
      var table := FinalTable(s.committed, nodes, a.faults, panic);
      StepThen(env, s, id, step, r, table);
      ReplaceSucceedsIff(nodes, a.faults);
      InsertedRepresents(nodes);
      assert Leaves(env.lib, a, s.committed, table);
    }
  }

  // ---------------------------------------------------------------- a COMMIT can be lost

  /** The table that stores these nodes. */
  function Stored(nodes: seq<Node>): Table {
    TableAfter(map[], Replace(nodes, Faults(None, None, None, None)))
  }

  lemma LostFromInsert(env: Env, s: State, id: nat, e: ImportError)
    requires env.commitMayLie && id < |s.tasks| && s.tasks[id].AwaitInsert? && s.tasks[id].working == map[]
    requires RowsStore(s.tasks[id].rows, s.tasks[id].nodes) && Storable(s.tasks[id].nodes)
    ensures Reaches(env, s, id, Err(e), Stored(s.tasks[id].nodes))
  {
    var nodes := s.tasks[id].nodes;
    InsertedRepresents(nodes);
    ReplaceSucceedsIff(nodes, Faults(None, None, None, None));
    var s' := Apply(env, s, InsertDone(id));
    var lost := Apply(env, s', CommitLost(id, e));
    AlreadyThere(env, lost, id);
    StepThen(env, s', id, CommitLost(id, e), Err(e), Stored(nodes));
    StepThen(env, s, id, InsertDone(id), Err(e), Stored(nodes));
  }

  lemma LostFromBegin(env: Env, s: State, id: nat, e: ImportError)
    requires env.commitMayLie && id < |s.tasks| && s.tasks[id].AwaitBegin?
    requires RowsStore(s.tasks[id].rows, s.tasks[id].nodes) && Storable(s.tasks[id].nodes)
    ensures Reaches(env, s, id, Err(e), Stored(s.tasks[id].nodes))
  {
    var nodes := s.tasks[id].nodes;
    var begun := Apply(env, s, BeginDone(id));
    LostFromInsert(env, Apply(env, begun, DeleteDone(id)), id, e);
    StepThen(env, begun, id, DeleteDone(id), Err(e), Stored(nodes));
    StepThen(env, s, id, BeginDone(id), Err(e), Stored(nodes));
  }

  /** With an engine that may lie, an attempt that would succeed can instead report any failure although
      its whole batch is stored. */
  lemma LostCommitIsPossible(env: Env, s: State, id: nat, a: Import.Attempt, e: ImportError)
    requires env.commitMayLie && id < |s.tasks| && s.tasks[id].Fetching? && Import.AttemptResult(env.lib, a).Ok?
    ensures exists table :: Reaches(env, s, id, Err(e), table) && Represents(table, Import.Batch(env.lib, a))
  {
    var nodes := Import.Batch(env.lib, a);
    ReplaceSucceedsIff(nodes, a.faults);
    InsertedRepresents(nodes);
    var fetched := Apply(env, s, FetchDone(id, a.exchange));
    LostFromBegin(env, Apply(env, fetched, Convert(id)), id, e);
    StepThen(env, fetched, id, Convert(id), Err(e), Stored(nodes));
    StepThen(env, s, id, FetchDone(id, a.exchange), Err(e), Stored(nodes));
    ReplaceSucceedsIff(nodes, Faults(None, None, None, None));
  }

  // ---------------------------------------------------------------- and nothing else

  predicate LosesCommit(steps: seq<Step>, id: nat) {
    exists i :: 0 <= i < |steps| && steps[i].CommitLost? && steps[i].task == id
  }

  /** `a` saw the exchange of import `id`, if there was one, and gives its outcome. */
  predicate Explains(env: Env, steps: seq<Step>, id: nat, outcome: Result<nat, ImportError>, a: Import.Attempt) {
    && (ExchangeOf(steps, id).Some? ==> a.exchange == ExchangeOf(steps, id).value)
    && outcome == Import.AttemptResult(env.lib, a)
  }

  /** Where an import stands is where some attempt with its exchange would be. */
  ghost predicate Explained(env: Env, steps: seq<Step>, id: nat, task: Task) {
    match task
    case Fetching => ExchangeOf(steps, id).None?
    case Finished(outcome) => LosesCommit(steps, id) || exists a :: Explains(env, steps, id, outcome, a)
    case _ =>
      && task.nodes != []
      && ExchangeOf(steps, id).Some?
      && Source.FetchNodes(env.lib, ExchangeOf(steps, id).value) == Ok(task.nodes)
  }

  const NO_FAULTS := Faults(None, None, None, None)

  /** The engine's answer `e` to the statement a task awaits. */
  function FaultAt(task: Task, e: SqlxError): Faults {
    match task
    case AwaitBegin(_, _) => NO_FAULTS.(begin := Some(e))
    case AwaitDelete(_, _, _) => NO_FAULTS.(delete := Some(e))
    case AwaitInsert(_, _, _) => NO_FAULTS.(insert := Some(e))
    case _ => NO_FAULTS.(commit := Some(e))
  }

  function PanicAt(task: Task): Import.PanicPoint {
    match task
    case AwaitBegin(_, _) => Import.During(Begin)
    case AwaitDelete(_, _, _) => Import.During(Delete)
    case AwaitInsert(_, _, _) => Import.During(InsertUnnest)
    case AwaitCommit(_, _) => Import.During(Commit)
    case _ => Import.BeforeStatements
  }

  /** The attempt a task has made when `step` ends it. */
  function AttemptEndedBy(exchange: Source.Exchange, task: Task, step: Step): Import.Attempt {
    match step
    case SqlFault(_, e) => Import.Attempt(exchange, FaultAt(task, e), Import.Never, 0)
    case Panic(_) => Import.Attempt(exchange, NO_FAULTS, PanicAt(task), 0)
    case _ => Import.Attempt(exchange, NO_FAULTS, Import.Never, 0)
  }

  /** A statement's fault, seen by a task whose earlier statements went through. */
  lemma FaultEndsAttempt(env: Env, steps: seq<Step>, task: Task, id: nat, e: SqlxError, exchange: Source.Exchange)
    requires InTransaction(task) && TaskInv(env, steps, id, task)
    requires Source.FetchNodes(env.lib, exchange) == Ok(task.nodes)
    ensures Import.AttemptResult(env.lib, AttemptEndedBy(exchange, task, SqlFault(id, e))) ==
            Err(FromStorage(Database(e)))
  {
    if task.AwaitCommit? {
      RepresentedIsStorable(task.working, task.nodes);
      InsertedRepresents(task.nodes);
    }
  }

  lemma PanicEndsAttempt(env: Env, steps: seq<Step>, task: Task, id: nat, exchange: Source.Exchange)
    requires InTransaction(task) && TaskInv(env, steps, id, task)
    requires Source.FetchNodes(env.lib, exchange) == Ok(task.nodes)
    ensures Import.AttemptResult(env.lib, AttemptEndedBy(exchange, task, Panic(id))) == Err(Panicked)
  {
    if task.AwaitCommit? {
      RepresentedIsStorable(task.working, task.nodes);
      ReplaceSucceedsIff(task.nodes, NO_FAULTS);
    }
  }

  lemma CommitEndsAttempt(env: Env, steps: seq<Step>, task: Task, id: nat, exchange: Source.Exchange)
    requires task.AwaitCommit? && TaskInv(env, steps, id, task)
    requires Source.FetchNodes(env.lib, exchange) == Ok(task.nodes)
    ensures Import.AttemptResult(env.lib, AttemptEndedBy(exchange, task, CommitDone(id))) == Ok(|task.nodes|)
  {
    RepresentedIsStorable(task.working, task.nodes);
    ReplaceSucceedsIff(task.nodes, NO_FAULTS);
  }

  lemma InsertEndsAttempt(env: Env, steps: seq<Step>, task: Task, id: nat, exchange: Source.Exchange)
    requires task.AwaitInsert? && TaskInv(env, steps, id, task) && Insert(task.working, task.rows).Err?
    requires Source.FetchNodes(env.lib, exchange) == Ok(task.nodes)
    ensures Import.AttemptResult(env.lib, AttemptEndedBy(exchange, task, InsertDone(id))) ==
            Err(FromStorage(Database(Insert(task.working, task.rows).error)))
  {
  }

  /** An import that ends in the transaction ends as that attempt does. */
  lemma StatementEndsAttempt(env: Env, steps: seq<Step>, committed: Table, task: Task, step: Step,
                             exchange: Source.Exchange)
    requires IsTaskStep(step) && TaskStepEnabled(env, task, step) && !step.CommitLost?
    requires TaskInv(env, steps, step.task, task) && InTransaction(task)
    requires Source.FetchNodes(env.lib, exchange) == Ok(task.nodes)
    requires TaskAfter(env, committed, task, step).Finished?
    ensures TaskAfter(env, committed, task, step).outcome ==
            Import.AttemptResult(env.lib, AttemptEndedBy(exchange, task, step))
  {
    if step.SqlFault? {
      FaultEndsAttempt(env, steps, task, step.task, step.sqlx, exchange);
    } else if step.Panic? {
      PanicEndsAttempt(env, steps, task, step.task, exchange);
    } else if step.InsertDone? {
      InsertEndsAttempt(env, steps, task, step.task, exchange);
    } else {
      CommitEndsAttempt(env, steps, task, step.task, exchange);
    }
  }

  lemma StepKeepsExplained(env: Env, steps: seq<Step>, committed: Table, task: Task)
    requires steps != [] && IsTaskStep(steps[|steps| - 1]) && TaskStepEnabled(env, task, steps[|steps| - 1])
    requires var front, id := steps[..|steps| - 1], steps[|steps| - 1].task;
             TaskInv(env, front, id, task) && Explained(env, front, id, task)
    ensures var step := steps[|steps| - 1];
            Explained(env, steps, step.task, TaskAfter(env, committed, task, step))
  {
    var front, step := steps[..|steps| - 1], steps[|steps| - 1];
    var id, after := step.task, TaskAfter(env, committed, task, step);
    if after.Finished? && !step.CommitLost? {
      var exchange := ExchangeOf(steps, id);
      var a := AttemptEndedBy(if exchange.Some? then exchange.value else Source.SendFailed, task, step);
      if InTransaction(task) {
        StatementEndsAttempt(env, front, committed, task, step, exchange.value);
      }
      assert Explains(env, steps, id, after.outcome, a);
    }
  }

  lemma OtherStepKeepsExplained(env: Env, steps: seq<Step>, id: nat, task: Task)
    requires steps != [] && Explained(env, steps[..|steps| - 1], id, task)
    requires steps[|steps| - 1].FetchDone? ==> steps[|steps| - 1].task != id
    ensures Explained(env, steps, id, task)
  {
    var front := steps[..|steps| - 1];
    assert ExchangeOf(steps, id) == ExchangeOf(front, id);
    if task.Finished? {
      if LosesCommit(front, id) {
        var i :| 0 <= i < |front| && front[i].CommitLost? && front[i].task == id;
        assert steps[i] == front[i];
      } else {
        var a :| Explains(env, front, id, task.outcome, a);
        assert Explains(env, steps, id, task.outcome, a);
      }
    }
  }

  lemma {:induction false} NoExchangeYet(env: Env, s0: State, steps: seq<Step>, id: nat)
    requires s0.tasks == [] && Legal(env, s0, steps) && id >= |After(env, s0, steps).tasks|
    ensures ExchangeOf(steps, id).None?
  {
    if steps != [] {
      var front := steps[..|steps| - 1];
      Shutdown.TasksStep(env, After(env, s0, front), steps[|steps| - 1]);
      NoExchangeYet(env, s0, front, id);
    }
  }

  lemma {:induction false} EveryImportIsExplained(env: Env, s0: State, initial: seq<Node>, steps: seq<Step>, id: nat)
    requires Start(s0, initial) && Legal(env, s0, steps) && id < |After(env, s0, steps).tasks|
    ensures Explained(env, steps, id, After(env, s0, steps).tasks[id])
  {
    if steps != [] {
      var front, step := steps[..|steps| - 1], steps[|steps| - 1];
      var s := After(env, s0, front);
      if id >= |s.tasks| {
        NoExchangeYet(env, s0, front, id);
      } else {
        EveryImportIsExplained(env, s0, initial, front, id);
        if IsTaskStep(step) && step.task == id {
          TasksInvariant(env, s0, initial, front);
          StepKeepsExplained(env, steps, s.committed, s.tasks[id]);
        } else {
          OtherStepKeepsExplained(env, steps, id, s.tasks[id]);
        }
      }
    }
  }

  /** In every run, each finished import whose COMMIT was not lost reports what `SpawnAndJoin` reports
      for some attempt with that import's own exchange. */
  lemma MachineOutcomesAreAttempts(env: Env, s0: State, initial: seq<Node>, steps: seq<Step>, id: nat)
    requires Start(s0, initial) && Legal(env, s0, steps) && id < |After(env, s0, steps).tasks|
    requires After(env, s0, steps).tasks[id].Finished? && !LosesCommit(steps, id)
    ensures exists a :: Explains(env, steps, id, After(env, s0, steps).tasks[id].outcome, a)
  {
    EveryImportIsExplained(env, s0, initial, steps, id);
  }

  // ---------------------------------------------------------------- whole runs

  ghost predicate NoLostCommit(steps: seq<Step>) {
    forall i :: 0 <= i < |steps| ==> !steps[i].CommitLost?
  }

  /** An engine that does not lie about its COMMITs loses none. */
  lemma HonestEngineLosesNone(env: Env, s0: State, steps: seq<Step>)
    requires Legal(env, s0, steps) && !env.commitMayLie
    ensures NoLostCommit(steps)
  {
    forall i | 0 <= i < |steps| ensures !steps[i].CommitLost? { Prefix(env, s0, steps, i); }
  }

  function FinishedCount(tasks: seq<Task>): nat {
    if tasks == [] then 0
    else FinishedCount(tasks[..|tasks| - 1]) + if tasks[|tasks| - 1].Finished? then 1 else 0
  }

  lemma {:induction false} AllFinishedCount(tasks: seq<Task>)
    requires forall id :: 0 <= id < |tasks| ==> tasks[id].Finished?
    ensures FinishedCount(tasks) == |tasks|
  {
    if tasks != [] {
      AllFinishedCount(tasks[..|tasks| - 1]);
    }
  }

  /** Imports finish in the order they were spawned. */
  lemma FinishedFirst(s: State)
    requires Shutdown.ControlInv(s)
    ensures FinishedCount(s.tasks) <= |s.tasks| <= FinishedCount(s.tasks) + 1
    ensures forall id :: 0 <= id < |s.tasks| ==> (s.tasks[id].Finished? <==> id < FinishedCount(s.tasks))
  {
    if s.tasks != [] {
      AllFinishedCount(s.tasks[..|s.tasks| - 1]);
    }
  }

  /** An attempt that explains this import, taking this long. */
  ghost function AttemptFor(env: Env, steps: seq<Step>, id: nat, task: Task, duration: nat): (a: Import.Attempt)
    ensures a.duration == duration
    ensures task.Finished? && (exists b :: Explains(env, steps, id, task.outcome, b)) ==>
              Explains(env, steps, id, task.outcome, a)
  {
    if task.Finished? && exists b :: Explains(env, steps, id, task.outcome, b) then
      var b :| Explains(env, steps, id, task.outcome, b);
      b.(duration := duration)
    else Import.Attempt(Source.SendFailed, NO_FAULTS, Import.Never, duration)
  }

  ghost function AttemptsOf(env: Env, steps: seq<Step>, tasks: seq<Task>, duration: nat -> nat): nat -> Import.Attempt {
    (id: nat) => AttemptFor(env, steps, id, if id < |tasks| then tasks[id] else Fetching, duration(id))
  }

  /** `attempts` gives every finished import its own exchange, outcome and duration. */
  ghost predicate Replays(env: Env, steps: seq<Step>, tasks: seq<Task>, duration: nat -> nat,
                          attempts: nat -> Import.Attempt)
  {
    && (forall id: nat :: attempts(id).duration == duration(id))
    && forall id :: 0 <= id < |tasks| && tasks[id].Finished? ==>
         Explains(env, steps, id, tasks[id].outcome, attempts(id))
  }

  lemma EveryRunIsReplayed(env: Env, s0: State, initial: seq<Node>, steps: seq<Step>, duration: nat -> nat)
    requires Start(s0, initial) && Legal(env, s0, steps) && NoLostCommit(steps)
    ensures var tasks := After(env, s0, steps).tasks;
            Replays(env, steps, tasks, duration, AttemptsOf(env, steps, tasks, duration))
  {
    var tasks := After(env, s0, steps).tasks;
    forall id | 0 <= id < |tasks| && tasks[id].Finished?
      ensures Explains(env, steps, id, tasks[id].outcome, AttemptsOf(env, steps, tasks, duration)(id))
    {
      MachineOutcomesAreAttempts(env, s0, initial, steps, id);
    }
  }

  lemma BatchesAgree(env: Env, steps: seq<Step>, id: nat, outcome: Result<nat, ImportError>, a: Import.Attempt)
    requires Explains(env, steps, id, outcome, a) && outcome.Ok? && Batch(env, steps, id) != []
    ensures Import.Batch(env.lib, a) == Batch(env, steps, id)
  {
    Import.SucceedsOnBatch(env.lib, a);
  }

  /** The successes among these tasks have the batches of their attempts. */
  ghost predicate SameBatches(env: Env, steps: seq<Step>, tasks: seq<Task>, attempts: nat -> Import.Attempt) {
    forall id :: 0 <= id < |tasks| && Shutdown.Succeeded(tasks[id]) ==>
      Import.Batch(env.lib, attempts(id)) == Batch(env, steps, id)
  }

  lemma ReplayedBatches(env: Env, s0: State, initial: seq<Node>, steps: seq<Step>, duration: nat -> nat,
                        attempts: nat -> Import.Attempt)
    requires Start(s0, initial) && Legal(env, s0, steps)
    requires Replays(env, steps, After(env, s0, steps).tasks, duration, attempts)
    ensures SameBatches(env, steps, After(env, s0, steps).tasks, attempts)
  {
    var tasks := After(env, s0, steps).tasks;
    forall id | 0 <= id < |tasks| && Shutdown.Succeeded(tasks[id])
      ensures Import.Batch(env.lib, attempts(id)) == Batch(env, steps, id)
    {
      Shutdown.OutcomeIsExact(env, s0, initial, steps, id);
      BatchesAgree(env, steps, id, tasks[id].outcome, attempts(id));
    }
  }

  /** What the imports reported and what the attempts give are one last good list. */
  lemma {:induction false} LastGoodAgrees(env: Env, initial: seq<Node>, steps: seq<Step>, tasks: seq<Task>,
                                          duration: nat -> nat, attempts: nat -> Import.Attempt)
    requires forall id :: 0 <= id < |tasks| ==> tasks[id].Finished?
    requires Replays(env, steps, tasks, duration, attempts) && SameBatches(env, steps, tasks, attempts)
    ensures Shutdown.LastReported(env, initial, steps, tasks) == Import.LastGood(env.lib, initial, attempts, |tasks|)
  {
    if tasks != [] {
      var n := |tasks| - 1;
      assert Explains(env, steps, n, tasks[n].outcome, attempts(n));
      assert Shutdown.Succeeded(tasks[n]) ==> Import.Batch(env.lib, attempts(n)) == Batch(env, steps, n);
      LastGoodAgrees(env, initial, steps, tasks[..n], duration, attempts);
    }
  }

  /** These attempts, in the order of the imports, give every outcome of the run and its table. */
  ghost predicate ReplaysRun(env: Env, s: State, initial: seq<Node>, steps: seq<Step>, duration: nat -> nat,
                             attempts: nat -> Import.Attempt)
  {
    && Replays(env, steps, s.tasks, duration, attempts)
    && Represents(s.committed, Import.LastGood(env.lib, initial, attempts, FinishedCount(s.tasks)))
  }

  lemma ReplayedTable(env: Env, s0: State, initial: seq<Node>, steps: seq<Step>, duration: nat -> nat,
                      attempts: nat -> Import.Attempt)
    requires Start(s0, initial) && Legal(env, s0, steps) && NoLostCommit(steps)
    requires Replays(env, steps, After(env, s0, steps).tasks, duration, attempts)
    ensures ReplaysRun(env, After(env, s0, steps), initial, steps, duration, attempts)
  {
    var s := After(env, s0, steps);
    Shutdown.ControlInvariant(env, s0, initial, steps);
    FinishedFirst(s);
    ReplayedBatches(env, s0, initial, steps, duration, attempts);
    var n := FinishedCount(s.tasks);
    Shutdown.CommittedIsLastGood(env, s0, initial, steps);
    UnfinishedReportsNothing(env, initial, steps, s.tasks, n);
    LastGoodAgrees(env, initial, steps, s.tasks[..n], duration, attempts);
  }

  lemma UnfinishedReportsNothing(env: Env, initial: seq<Node>, steps: seq<Step>, tasks: seq<Task>, n: nat)
    requires n <= |tasks| <= n + 1 && (n < |tasks| ==> !tasks[n].Finished?)
    ensures Shutdown.LastReported(env, initial, steps, tasks) ==
            Shutdown.LastReported(env, initial, steps, tasks[..n])
  {
    if n == |tasks| {
      assert tasks[..n] == tasks;
    }
  }

  /** Every run of the machine that loses no COMMIT is a run of the importer: one sequence of attempts,
      whatever durations are asked for, gives each finished import its outcome, and the table stores
      what the importer's loop would have stored after as many attempts as imports have finished. */
  lemma RunIsAnImporterRun(env: Env, s0: State, initial: seq<Node>, steps: seq<Step>, duration: nat -> nat)
    requires Start(s0, initial) && Legal(env, s0, steps) && NoLostCommit(steps)
    ensures exists attempts: nat -> Import.Attempt ::
              ReplaysRun(env, After(env, s0, steps), initial, steps, duration, attempts)
    ensures forall id :: 0 <= id < |After(env, s0, steps).tasks| ==>
              (After(env, s0, steps).tasks[id].Finished? <==> id < FinishedCount(After(env, s0, steps).tasks))
  {
    var tasks := After(env, s0, steps).tasks;
    EveryRunIsReplayed(env, s0, initial, steps, duration);
    ReplayedTable(env, s0, initial, steps, duration, AttemptsOf(env, steps, tasks, duration));
    Shutdown.ControlInvariant(env, s0, initial, steps);
    FinishedFirst(After(env, s0, steps));
  }
}
