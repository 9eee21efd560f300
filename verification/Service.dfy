/** The running service as an interleaving machine: the import loop and its tasks, the
    statements of each transaction, any number of GET /nodes requests, and `serve`'s shutdown.
    A run is the sequence of its steps, and every result is about all runs. */
module Service {
  import opened Domain
  import opened Snapshot
  import Source
  import Http

  // ---------------------------------------------------------------- state

  /** One spawned `run_once`. The transaction's rows live in `working` until COMMIT. */
  datatype Task =
    | Fetching
    | Fetched(nodes: seq<Node>)
    | AwaitBegin(nodes: seq<Node>, rows: seq<KeyedRow>)
    | AwaitDelete(nodes: seq<Node>, rows: seq<KeyedRow>, working: Table)
    | AwaitInsert(nodes: seq<Node>, rows: seq<KeyedRow>, working: Table)
    | AwaitCommit(nodes: seq<Node>, working: Table)
    | Finished(outcome: Result<nat, ImportError>)

  /** `Importer::run`: at its `select!`, awaiting the import it spawned, or returned. */
  datatype Loop = AtSelect | Joining(task: nat) | Ended

  /** One GET /nodes: its SELECT has not started, has its snapshot, or the reply is out. */
  datatype Read = Requested | Holding(snapshot: Table) | Replied

  /** `serve`, from listening to returning. */
  datatype Server =
    | Listening
    | Stopped(failed: bool)
    | AwaitingImporter(failed: bool)
    | ClosingPool(failed: bool)
    | Returned(failed: bool)

  datatype State = State(
    server: Server,
    cancelled: bool,
    poolOpen: bool,
    loop: Loop,
    tasks: seq<Task>,
    committed: Table,
    requests: seq<Read>)

  /** Library behaviour, and whether a COMMIT that reports failure may have been applied. */
  datatype Env = Env(lib: Source.Libraries, format: Http.TimestampFormat, commitMayLie: bool)

  // ---------------------------------------------------------------- steps

  datatype Step =
    // the cancellation token and the import loop
    | Cancel
    | Tick
    | Break
    | Join
    // a spawned import
    | FetchDone(task: nat, exchange: Source.Exchange)
    | Convert(task: nat)
    | BeginDone(task: nat)
    | DeleteDone(task: nat)
    | InsertDone(task: nat)
    | CommitDone(task: nat)
    | CommitLost(task: nat, error: ImportError)
    | SqlFault(task: nat, sqlx: SqlxError)
    | Panic(task: nat)
    // requests
    | Request
    | TakeSnapshot(read: nat)
    | ReadFault(read: nat, storage: StorageError)
    | Reply(read: nat, rows: seq<KeyedRow>)
    // shutdown
    | ServerStops(failed: bool)
    | CancelToken
    | JoinImporter
    | ClosePool

  predicate IsTaskStep(step: Step) {
    || step.FetchDone? || step.Convert? || step.BeginDone? || step.DeleteDone? || step.InsertDone?
    || step.CommitDone? || step.CommitLost? || step.SqlFault? || step.Panic?
  }

  predicate InTransaction(task: Task) {
    task.AwaitBegin? || task.AwaitDelete? || task.AwaitInsert? || task.AwaitCommit?
  }

  predicate TaskStepEnabled(env: Env, task: Task, step: Step) {
    match step
    case FetchDone(_, _) => task.Fetching?
    case Convert(_) => task.Fetched?
    case BeginDone(_) => task.AwaitBegin?
    case DeleteDone(_) => task.AwaitDelete?
    case InsertDone(_) => task.AwaitInsert?
    case CommitDone(_) => task.AwaitCommit?
    case CommitLost(_, _) => task.AwaitCommit? && env.commitMayLie
    case SqlFault(_, _) => InTransaction(task)
    case Panic(_) => !task.Finished?
    case _ => false
  }

  ghost predicate Enabled(env: Env, s: State, step: Step) {
    match step
    case Cancel => true
    // `biased` select: a ready tick loses to a cancelled token.
    case Tick => s.loop.AtSelect? && !s.cancelled
    case Break => s.loop.AtSelect? && s.cancelled
    case Join => s.loop.Joining? && s.loop.task < |s.tasks| && s.tasks[s.loop.task].Finished?
    case Request => s.server.Listening?
    case TakeSnapshot(r) => r < |s.requests| && s.requests[r].Requested? && s.poolOpen
    case ReadFault(r, _) => r < |s.requests| && !s.requests[r].Replied?
    case Reply(r, rows) => r < |s.requests| && s.requests[r].Holding? && IsListing(s.requests[r].snapshot, rows)
    // A graceful end needs the token and every accepted request answered.
    case ServerStops(failed) =>
      && s.server.Listening?
      && (!failed ==> s.cancelled && forall r :: 0 <= r < |s.requests| ==> s.requests[r].Replied?)
    case CancelToken => s.server.Stopped?
    case JoinImporter => s.server.AwaitingImporter? && s.loop.Ended?
    case ClosePool => s.server.ClosingPool?
    case _ => step.task < |s.tasks| && TaskStepEnabled(env, s.tasks[step.task], step)
  }

  /** What one statement or one piece of `run_once` does to its own task. */
  function TaskAfter(env: Env, committed: Table, task: Task, step: Step): Task {
    match (step, task)
    case (FetchDone(_, exchange), Fetching) =>
      (match Source.FetchNodes(env.lib, exchange)
       case Err(e) => Finished(Err(FromSource(e)))
       case Ok(nodes) => if nodes == [] then Finished(Err(EmptySource)) else Fetched(nodes))
    case (Convert(_), Fetched(nodes)) =>
      (match ToColumns(nodes)
       case Err(e) => Finished(Err(FromStorage(e)))
       case Ok(columns) => AwaitBegin(nodes, Unnest(columns)))
    case (BeginDone(_), AwaitBegin(nodes, rows)) => AwaitDelete(nodes, rows, committed)
    case (DeleteDone(_), AwaitDelete(nodes, rows, _)) => AwaitInsert(nodes, rows, map[])
    case (InsertDone(_), AwaitInsert(nodes, rows, working)) =>
      (match Insert(working, rows)
       case Err(e) => Finished(Err(FromStorage(Database(e))))
       case Ok(filled) => AwaitCommit(nodes, filled))
    case (CommitDone(_), AwaitCommit(nodes, _)) => Finished(Ok(|nodes|))
    case (CommitLost(_, e), AwaitCommit(_, _)) => Finished(Err(e))
    case (SqlFault(_, e), _) => Finished(Err(FromStorage(Database(e))))
    case (Panic(_), _) => Finished(Err(Panicked))
    case (_, _) => task
  }

  predicate Applies(step: Step) {
    step.CommitDone? || step.CommitLost?
  }

  function Apply(env: Env, s: State, step: Step): State {
    match step
    case Cancel => s.(cancelled := true)
    case Tick => s.(loop := Joining(|s.tasks|), tasks := s.tasks + [Fetching])
    case Break => s.(loop := Ended)
    case Join => s.(loop := AtSelect)
    case Request => s.(requests := s.requests + [Requested])
    case TakeSnapshot(r) => if r < |s.requests| then s.(requests := s.requests[r := Holding(s.committed)]) else s
    case ReadFault(r, _) => if r < |s.requests| then s.(requests := s.requests[r := Replied]) else s
    case Reply(r, _) => if r < |s.requests| then s.(requests := s.requests[r := Replied]) else s
    case ServerStops(failed) => s.(server := Stopped(failed))
    case CancelToken => s.(server := AwaitingImporter(Failed(s)), cancelled := true)
    case JoinImporter => s.(server := ClosingPool(Failed(s)))
    case ClosePool => s.(server := Returned(Failed(s)), poolOpen := false)
    case _ =>
      if step.task >= |s.tasks| then s
      else
        var task := s.tasks[step.task];
        s.(tasks := s.tasks[step.task := TaskAfter(env, s.committed, task, step)],
           committed := if Applies(step) && task.AwaitCommit? then task.working else s.committed)
  }

  function Failed(s: State): bool {
    !s.server.Listening? && s.server.failed
  }

  // ---------------------------------------------------------------- runs

  function After(env: Env, s0: State, steps: seq<Step>): State {
    if steps == [] then s0
    else Apply(env, After(env, s0, steps[..|steps| - 1]), steps[|steps| - 1])
  }

  ghost predicate Legal(env: Env, s0: State, steps: seq<Step>) {
    steps != [] ==>
      && Legal(env, s0, steps[..|steps| - 1])
      && Enabled(env, After(env, s0, steps[..|steps| - 1]), steps[|steps| - 1])
  }

  /** `serve` begins with nothing running, on a table that stores `initial`. */
  ghost predicate Start(s0: State, initial: seq<Node>) {
    && s0.server.Listening? && s0.poolOpen && s0.loop.AtSelect?
    && s0.tasks == [] && s0.requests == []
    && Represents(s0.committed, initial)
  }

  lemma {:induction false} Prefix(env: Env, s0: State, steps: seq<Step>, i: nat)
    requires Legal(env, s0, steps) && i <= |steps|
    ensures Legal(env, s0, steps[..i])
    ensures i < |steps| ==>
              && Enabled(env, After(env, s0, steps[..i]), steps[i])
              && After(env, s0, steps[..i + 1]) == Apply(env, After(env, s0, steps[..i]), steps[i])
  {
    var n := |steps| - 1;
    if i == |steps| {
      assert steps[..i] == steps;
    } else {
      var front := steps[..n];
      assert steps[..i + 1][..i] == steps[..i];
      if i == n {
        assert steps[..n + 1] == steps;
      } else {
        Prefix(env, s0, front, i);
        assert front[..i] == steps[..i] && front[..i + 1] == steps[..i + 1];
      }
    }
  }

  lemma {:induction false} Concat(env: Env, s: State, xs: seq<Step>, ys: seq<Step>)
    requires Legal(env, s, xs) && Legal(env, After(env, s, xs), ys)
    ensures Legal(env, s, xs + ys) && After(env, s, xs + ys) == After(env, After(env, s, xs), ys)
  {
    if ys == [] {
      assert xs + ys == xs;
    } else {
      var front := ys[..|ys| - 1];
      Concat(env, s, xs, front);
      assert (xs + ys)[..|xs + ys| - 1] == xs + front;
    }
  }

  lemma Single(env: Env, s: State, step: Step)
    requires Enabled(env, s, step)
    ensures Legal(env, s, [step]) && After(env, s, [step]) == Apply(env, s, step)
  {
    assert [step][..0] == [];
  }

  // ---------------------------------------------------------------- what a run says was stored

  /** What the source answered to import `id`, if it has. */
  function ExchangeOf(steps: seq<Step>, id: nat): Option<Source.Exchange> {
    if steps == [] then None
    else
      var last := steps[|steps| - 1];
      if last.FetchDone? && last.task == id then Some(last.exchange) else ExchangeOf(steps[..|steps| - 1], id)
  }

  /** The records import `id` fetched. */
  function RecordsOf(steps: seq<Step>, id: nat): seq<Source.Json> {
    match ExchangeOf(steps, id)
    case Some(Answered(_, Records(records))) => records
    case _ => []
  }

  /** When the table last changed. */
  function AppliedAt(steps: seq<Step>): (r: Option<nat>)
    ensures r.Some? ==> r.value < |steps| && Applies(steps[r.value])
    ensures r.Some? ==> forall i :: r.value < i < |steps| ==> !Applies(steps[i])
    ensures r.None? ==> forall i :: 0 <= i < |steps| ==> !Applies(steps[i])
  {
    if steps == [] then None
    else if Applies(steps[|steps| - 1]) then Some(|steps| - 1)
    else AppliedAt(steps[..|steps| - 1])
  }

  /** The records behind the latest applied COMMIT, if any. */
  function LatestFetch(steps: seq<Step>): Option<seq<Source.Json>> {
    match AppliedAt(steps)
    case None => None
    case Some(c) => Some(RecordsOf(steps[..c], steps[c].task))
  }

  lemma LatestFetchStep(steps: seq<Step>)
    requires steps != []
    ensures var front, last := steps[..|steps| - 1], steps[|steps| - 1];
            LatestFetch(steps) == if Applies(last) then Some(RecordsOf(front, last.task)) else LatestFetch(front)
  {
    var front := steps[..|steps| - 1];
    if !Applies(steps[|steps| - 1]) && AppliedAt(front).Some? {
      var c := AppliedAt(front).value;
      assert front[..c] == steps[..c];
    }
  }

  function Latest(env: Env, initial: seq<Node>, steps: seq<Step>): seq<Node> {
    match LatestFetch(steps)
    case None => initial
    case Some(records) => Source.ParseRecords(env.lib, records)
  }

  /** When request `read` took its snapshot. */
  function SnapshotAt(steps: seq<Step>, read: nat): (r: Option<nat>)
    ensures r.Some? ==> r.value < |steps| && steps[r.value] == TakeSnapshot(read)
  {
    if steps == [] then None
    else if steps[|steps| - 1] == TakeSnapshot(read) then Some(|steps| - 1)
    else SnapshotAt(steps[..|steps| - 1], read)
  }

  // ---------------------------------------------------------------- invariants of the store

  function Batch(env: Env, steps: seq<Step>, task: nat): seq<Node> {
    Source.ParseRecords(env.lib, RecordsOf(steps, task))
  }

  ghost predicate RowsStore(rows: seq<KeyedRow>, nodes: seq<Node>) {
    ToColumns(nodes).Ok? && rows == Unnest(ToColumns(nodes).value)
  }

  ghost predicate TaskInv(env: Env, steps: seq<Step>, id: nat, task: Task) {
    && (!task.Fetching? && !task.Finished? ==>
          && task.nodes != [] && task.nodes == Batch(env, steps, id)
          && ExchangeOf(steps, id).Some? && Source.IsGoodAnswer(ExchangeOf(steps, id).value))
    && (task.AwaitBegin? || task.AwaitDelete? || task.AwaitInsert? ==> RowsStore(task.rows, task.nodes))
    && (task.AwaitInsert? ==> task.working == map[])
    && (task.AwaitCommit? ==> Represents(task.working, task.nodes))
    && (task.Finished? && task.outcome.Ok? ==> task.outcome.value == |Batch(env, steps, id)|)
  }

  ghost predicate TasksInv(env: Env, steps: seq<Step>, tasks: seq<Task>) {
    forall id :: 0 <= id < |tasks| ==> TaskInv(env, steps, id, tasks[id])
  }

  ghost predicate ReadInv(env: Env, initial: seq<Node>, steps: seq<Step>, id: nat, read: Read) {
    && (read.Requested? ==> SnapshotAt(steps, id).None?)
    && (read.Holding? ==>
          var at := SnapshotAt(steps, id);
          at.Some? && Represents(read.snapshot, Latest(env, initial, steps[..at.value])))
  }

  ghost predicate ReadsInv(env: Env, initial: seq<Node>, steps: seq<Step>, requests: seq<Read>) {
    && (forall id :: 0 <= id < |requests| ==> ReadInv(env, initial, steps, id, requests[id]))
    && (forall id :: id >= |requests| ==> SnapshotAt(steps, id).None?)
  }

  lemma TaskStepKeepsTask(env: Env, front: seq<Step>, steps: seq<Step>, committed: Table, task: Task)
    requires steps != [] && front == steps[..|steps| - 1] && IsTaskStep(steps[|steps| - 1])
    requires TaskStepEnabled(env, task, steps[|steps| - 1])
    requires TaskInv(env, front, steps[|steps| - 1].task, task)
    ensures var step := steps[|steps| - 1];
            TaskInv(env, steps, step.task, TaskAfter(env, committed, task, step))
  {
    var step := steps[|steps| - 1];
    if step.InsertDone? {
      InsertedRepresents(task.nodes);
    }
  }

  lemma OtherTaskKept(env: Env, front: seq<Step>, steps: seq<Step>, id: nat, task: Task)
    requires steps != [] && front == steps[..|steps| - 1]
    requires TaskInv(env, front, id, task)
    requires steps[|steps| - 1].FetchDone? ==> steps[|steps| - 1].task != id
    ensures TaskInv(env, steps, id, task)
  {
  }

  lemma {:induction false} TasksInvariant(env: Env, s0: State, initial: seq<Node>, steps: seq<Step>)
    requires Start(s0, initial) && Legal(env, s0, steps)
    ensures TasksInv(env, steps, After(env, s0, steps).tasks)
  {
    if steps != [] {
      var front, step := steps[..|steps| - 1], steps[|steps| - 1];
      TasksInvariant(env, s0, initial, front);
      var s, s' := After(env, s0, front), After(env, s0, steps);
      forall id | 0 <= id < |s'.tasks| ensures TaskInv(env, steps, id, s'.tasks[id]) {
        if IsTaskStep(step) && id == step.task {
          TaskStepKeepsTask(env, front, steps, s.committed, s.tasks[id]);
        } else if id < |s.tasks| {
          OtherTaskKept(env, front, steps, id, s.tasks[id]);
        }
      }
    }
  }

  /** At every moment the committed table stores the initial list or, whole and in source
      order, the batch of the latest applied COMMIT. */
  lemma {:induction false} CommittedIsLatest(env: Env, s0: State, initial: seq<Node>, steps: seq<Step>)
    requires Start(s0, initial) && Legal(env, s0, steps)
    ensures Represents(After(env, s0, steps).committed, Latest(env, initial, steps))
  {
    if steps != [] {
      var front, step := steps[..|steps| - 1], steps[|steps| - 1];
      CommittedIsLatest(env, s0, initial, front);
      LatestFetchStep(steps);
      if Applies(step) {
        TasksInvariant(env, s0, initial, front);
        AppliedBatchIsStored(env, front, After(env, s0, front), step);
      } else {
        OnlyCommitChangesTable(env, After(env, s0, front), step);
      }
    }
  }

  lemma AppliedBatchIsStored(env: Env, front: seq<Step>, s: State, step: Step)
    requires Applies(step) && Enabled(env, s, step) && TasksInv(env, front, s.tasks)
    ensures Represents(Apply(env, s, step).committed, Batch(env, front, step.task))
    ensures Batch(env, front, step.task) != []
    ensures ExchangeOf(front, step.task).Some? && Source.IsGoodAnswer(ExchangeOf(front, step.task).value)
  {
    assert TaskInv(env, front, step.task, s.tasks[step.task]);
  }

  /** Every applied COMMIT stores what one good answer of the source brought: a 2xx array with at least
      one accepted record. */
  lemma CommitsOnlyGoodAnswers(env: Env, s0: State, initial: seq<Node>, steps: seq<Step>, j: nat)
    requires Start(s0, initial) && Legal(env, s0, steps) && j < |steps| && Applies(steps[j])
    ensures var exchange := ExchangeOf(steps[..j], steps[j].task);
            && exchange.Some? && Source.IsGoodAnswer(exchange.value)
            && Source.AcceptedPositions(env.lib, exchange.value.body.records) != {}
            && Represents(After(env, s0, steps[..j + 1]).committed,
                          Source.ParseRecords(env.lib, exchange.value.body.records))
  {
    Prefix(env, s0, steps, j);
    TasksInvariant(env, s0, initial, steps[..j]);
    AppliedBatchIsStored(env, steps[..j], After(env, s0, steps[..j]), steps[j]);
    Source.ParsedCount(env.lib, ExchangeOf(steps[..j], steps[j].task).value.body.records);
  }

  lemma OnlyCommitChangesTable(env: Env, s: State, step: Step)
    requires !Applies(step)
    ensures Apply(env, s, step).committed == s.committed
  {
  }

  /** Ranks are 0..n-1 in every reachable table, so every SELECT has one possible answer. */
  lemma ReachableTablesAreWellRanked(env: Env, s0: State, initial: seq<Node>, steps: seq<Step>)
    requires Start(s0, initial) && Legal(env, s0, steps)
    ensures var table := After(env, s0, steps).committed;
            && WellRanked(table)
            && (forall a, b :: IsListing(table, a) && IsListing(table, b) ==> a == b)
            && (forall rows :: IsListing(table, rows) ==> DecodeRows(rows).Ok?)
  {
    var table := After(env, s0, steps).committed;
    CommittedIsLatest(env, s0, initial, steps);
    RepresentedIsWellRanked(table, Latest(env, initial, steps));
    OrderIsDeterministicIff(table);
    forall rows | IsListing(table, rows) ensures DecodeRows(rows).Ok? {
      ListingReadsBack(table, Latest(env, initial, steps), rows);
    }
  }

  lemma ReadKept(env: Env, initial: seq<Node>, front: seq<Step>, steps: seq<Step>, id: nat, read: Read)
    requires steps != [] && front == steps[..|steps| - 1]
    requires ReadInv(env, initial, front, id, read) && steps[|steps| - 1] != TakeSnapshot(id)
    ensures ReadInv(env, initial, steps, id, read)
  {
    assert SnapshotAt(steps, id) == SnapshotAt(front, id);
    if read.Holding? {
      var at := SnapshotAt(front, id).value;
      assert steps[..at] == front[..at];
    }
  }

  lemma ReadBegins(env: Env, initial: seq<Node>, front: seq<Step>, steps: seq<Step>, id: nat, table: Table)
    requires steps == front + [TakeSnapshot(id)] && Represents(table, Latest(env, initial, front))
    ensures ReadInv(env, initial, steps, id, Holding(table))
  {
    assert steps[..|front|] == front;
  }

  /** A step leaves every request but its own alone. */
  lemma RequestStep(env: Env, s: State, step: Step, id: nat)
    requires Enabled(env, s, step) && id < |Apply(env, s, step).requests|
    ensures var now := Apply(env, s, step).requests[id];
            || (step == TakeSnapshot(id) && now == Holding(s.committed))
            || (step != TakeSnapshot(id) && now.Replied?)
            || (step != TakeSnapshot(id) && id < |s.requests| && now == s.requests[id])
            || (step != TakeSnapshot(id) && id >= |s.requests| && now.Requested?)
  {
  }

  lemma {:induction false} ReadsInvariant(env: Env, s0: State, initial: seq<Node>, steps: seq<Step>)
    requires Start(s0, initial) && Legal(env, s0, steps)
    ensures ReadsInv(env, initial, steps, After(env, s0, steps).requests)
  {
    if steps != [] {
      var n := |steps| - 1;
      var front, step := steps[..n], steps[n];
      ReadsInvariant(env, s0, initial, front);
      CommittedIsLatest(env, s0, initial, front);
      assert steps == front + [step];
      ReadsStep(env, initial, front, After(env, s0, front), step);
    }
  }

  lemma ReadsStep(env: Env, initial: seq<Node>, front: seq<Step>, s: State, step: Step)
    requires ReadsInv(env, initial, front, s.requests) && Represents(s.committed, Latest(env, initial, front))
    requires Enabled(env, s, step)
    ensures ReadsInv(env, initial, front + [step], Apply(env, s, step).requests)
  {
    var steps, requests := front + [step], Apply(env, s, step).requests;
    assert steps[..|steps| - 1] == front;
    forall id | 0 <= id < |requests| ensures ReadInv(env, initial, steps, id, requests[id]) {
      RequestStep(env, s, step, id);
      if step == TakeSnapshot(id) {
        ReadBegins(env, initial, front, steps, id, s.committed);
      } else if !requests[id].Replied? {
        ReadKept(env, initial, front, steps, id, requests[id]);
      }
    }
    forall id | id >= |requests| ensures SnapshotAt(steps, id).None? {
      assert step != TakeSnapshot(id);
      assert SnapshotAt(steps, id) == SnapshotAt(front, id);
    }
  }

  // ---------------------------------------------------------------- what a request returns

  predicate Answers(step: Step) {
    step.Reply? || step.ReadFault?
  }

  /** What the client gets. */
  function ReplyTo(env: Env, step: Step): Http.Reply
    requires Answers(step)
  {
    Http.Respond(env.format, if step.Reply? then DecodeRows(step.rows) else Err(step.storage))
  }

  /** A successful GET /nodes shows the list that was latest when its SELECT started: one whole
      snapshot, in order, whatever the importer did before, between and since. */
  lemma ReadShowsOneSnapshot(env: Env, s0: State, initial: seq<Node>, steps: seq<Step>, j: nat)
    requires Start(s0, initial) && Legal(env, s0, steps) && j < |steps| && steps[j].Reply?
    ensures SnapshotAt(steps[..j], steps[j].read).Some?
    ensures var i := SnapshotAt(steps[..j], steps[j].read).value;
            && steps[i] == TakeSnapshot(steps[j].read)
            && Http.ShowsAll(env.format, Latest(env, initial, steps[..i]), ReplyTo(env, steps[j]))
  {
    var front, r := steps[..j], steps[j].read;
    Prefix(env, s0, steps, j);
    ReadsInvariant(env, s0, initial, front);
    var s := After(env, s0, front);
    assert ReadInv(env, initial, front, r, s.requests[r]);
    var i := SnapshotAt(front, r).value;
    assert front[..i] == steps[..i] && front[i] == steps[i];
    var nodes := Latest(env, initial, steps[..i]);
    ListingReadsBack(s.requests[r].snapshot, nodes, steps[j].rows);
    Http.RespondShowsAll(env.format, Ok(nodes));
  }

  lemma AnswerStep(env: Env, s: State, step: Step, r: nat)
    requires Enabled(env, s, step) && r < |s.requests| && s.requests[r].Replied?
    ensures r < |Apply(env, s, step).requests| && Apply(env, s, step).requests[r].Replied?
    ensures Answers(step) ==> step.read != r
  {
  }

  lemma {:induction false} AnsweredStaysSo(env: Env, s0: State, steps: seq<Step>, i: nat)
    requires Legal(env, s0, steps) && i < |steps| && Answers(steps[i])
    ensures var s := After(env, s0, steps); steps[i].read < |s.requests| && s.requests[steps[i].read].Replied?
  {
    var n := |steps| - 1;
    if i < n {
      AnsweredStaysSo(env, s0, steps[..n], i);
      AnswerStep(env, After(env, s0, steps[..n]), steps[n], steps[i].read);
    }
  }

  /** A request is answered once. */
  lemma AnsweredOnce(env: Env, s0: State, steps: seq<Step>, i: nat, j: nat)
    requires Legal(env, s0, steps) && i < j < |steps| && Answers(steps[i]) && Answers(steps[j])
    ensures steps[i].read != steps[j].read
  {
    Prefix(env, s0, steps, j);
    AnsweredStaysSo(env, s0, steps[..j], i);
    AnswerStep(env, After(env, s0, steps[..j]), steps[j], steps[i].read);
  }

  /** In every run a 200 comes from a read that went through, and its body shows the list that was
      latest at that read's snapshot; a read that fails is always the generic 500. */
  lemma OkMeansStored(env: Env, s0: State, initial: seq<Node>, steps: seq<Step>, j: nat)
    requires Start(s0, initial) && Legal(env, s0, steps) && j < |steps| && Answers(steps[j])
    ensures ReplyTo(env, steps[j]).Ok200? <==> steps[j].Reply?
    ensures steps[j].ReadFault? ==> ReplyTo(env, steps[j]) == Http.Error500("internal server error")
    ensures ReplyTo(env, steps[j]).Ok200? ==>
              exists i: nat :: && i < j && steps[i] == TakeSnapshot(steps[j].read)
                               && Http.ShowsAll(env.format, Latest(env, initial, steps[..i]), ReplyTo(env, steps[j]))
  {
    if steps[j].Reply? {
      ReadShowsOneSnapshot(env, s0, initial, steps, j);
    } else {
      Http.RespondShowsAll(env.format, Err(steps[j].storage));
    }
  }

  /** The response element carries the fields of this raw record. */
  ghost predicate ShowsRecord(env: Env, record: Source.Json, response: Http.NodeResponse) {
    exists node :: Source.Carries(env.lib, record, node) && Http.Shows(env.format, node, response)
  }

  ghost predicate ShowsAccepted(env: Env, records: seq<Source.Json>, indices: seq<int>, reply: Http.Reply) {
    && Source.ExactlyAccepted(env.lib, records, indices)
    && reply.Ok200? && |reply.body| == |indices|
    && forall a :: 0 <= a < |indices| ==> ShowsRecord(env, records[indices[a]], reply.body[a])
  }

  lemma ShownBatchShowsAccepted(env: Env, records: seq<Source.Json>, reply: Http.Reply)
    requires Http.ShowsAll(env.format, Source.ParseRecords(env.lib, records), reply)
    ensures exists indices :: ShowsAccepted(env, records, indices, reply)
  {
    var nodes := Source.ParseRecords(env.lib, records);
    Source.ParseKeepsAcceptedInOrder(env.lib, records);
    var indices :| Source.IsAcceptedSubsequence(env.lib, records, indices, nodes);
    forall a | 0 <= a < |indices| ensures ShowsRecord(env, records[indices[a]], reply.body[a]) {
      assert Source.Carries(env.lib, records[indices[a]], nodes[a]);
      assert Http.Shows(env.format, nodes[a], reply.body[a]);
    }
    assert ShowsAccepted(env, records, indices, reply);
  }

  /** The body shows exactly the accepted records of `fetch`, in source order, or the initial
      list if there is no fetch. */
  ghost predicate ShowsFetch(env: Env, initial: seq<Node>, fetch: Option<seq<Source.Json>>, reply: Http.Reply) {
    match fetch
    case None => Http.ShowsAll(env.format, initial, reply)
    case Some(records) => exists indices :: ShowsAccepted(env, records, indices, reply)
  }

  lemma ShownLatestShowsFetch(env: Env, initial: seq<Node>, steps: seq<Step>, reply: Http.Reply)
    requires Http.ShowsAll(env.format, Latest(env, initial, steps), reply)
    ensures ShowsFetch(env, initial, LatestFetch(steps), reply)
  {
    var fetch := LatestFetch(steps);
    if fetch.Some? {
      ShownBatchShowsAccepted(env, fetch.value, reply);
    }
  }

  /** End to end: a successful GET /nodes shows the latest fetch that had committed when its
      SELECT started. */
  lemma EndToEnd(env: Env, s0: State, initial: seq<Node>, steps: seq<Step>, j: nat)
    requires Start(s0, initial) && Legal(env, s0, steps) && j < |steps| && steps[j].Reply?
    ensures SnapshotAt(steps[..j], steps[j].read).Some?
    ensures var i := SnapshotAt(steps[..j], steps[j].read).value;
            ShowsFetch(env, initial, LatestFetch(steps[..i]), ReplyTo(env, steps[j]))
  {
    ReadShowsOneSnapshot(env, s0, initial, steps, j);
    var i := SnapshotAt(steps[..j], steps[j].read).value;
    ShownLatestShowsFetch(env, initial, steps[..i], ReplyTo(env, steps[j]));
  }

  lemma {:induction false} SnapshotIsTakenOnce(env: Env, s0: State, initial: seq<Node>, steps: seq<Step>, i: nat)
    requires Start(s0, initial) && Legal(env, s0, steps) && i < |steps| && steps[i].TakeSnapshot?
    ensures SnapshotAt(steps, steps[i].read) == Some(i)
  {
    var n := |steps| - 1;
    if i < n {
      var front := steps[..n];
      SnapshotIsTakenOnce(env, s0, initial, front, i);
      ReadsInvariant(env, s0, initial, front);
      if steps[n].TakeSnapshot? {
        SnapshotIsTheFirst(env, initial, front, After(env, s0, front), steps[n].read);
      }
    }
  }

  lemma SnapshotIsTheFirst(env: Env, initial: seq<Node>, front: seq<Step>, s: State, r: nat)
    requires ReadsInv(env, initial, front, s.requests) && Enabled(env, s, TakeSnapshot(r))
    ensures SnapshotAt(front, r).None?
  {
    assert ReadInv(env, initial, front, r, s.requests[r]);
  }
}
