/** `Importer`: one import, and the loop that runs imports on a ticker until cancelled. */
module Import {
  import opened Domain
  import opened Snapshot
  import opened Repository
  import opened Schedule
  import Source

  /** Where an import panics, if it gets there: during the fetch or the conversion, or while a
      statement is awaited. */
  datatype PanicPoint = Never | BeforeStatements | During(statement: Statement)

  /** What the world does to one import: the exchange with the source, the engine's faults,
      a panic, and how long it all takes. */
  datatype Attempt = Attempt(exchange: Source.Exchange, faults: Faults, panic: PanicPoint, duration: nat)

  /** The nodes an attempt fetches; empty when the fetch fails. */
  function Batch(lib: Source.Libraries, a: Attempt): seq<Node> {
    var fetched := Source.FetchNodes(lib, a.exchange);
    if fetched.Ok? then fetched.value else []
  }

  function OnceResult(lib: Source.Libraries, a: Attempt): Result<nat, ImportError> {
    match Source.FetchNodes(lib, a.exchange)
    case Err(e) => Err(FromSource(e))
    case Ok(nodes) =>
      if nodes == [] then Err(EmptySource)
      else
        match ReplaceResult(nodes, a.faults)
        case Err(e) => Err(FromStorage(e))
        case Ok(count) => Ok(count)
  }

  /** The statement the attempt's panic is planned for. */
  function PlannedAt(a: Attempt): Option<Statement> {
    if a.panic.During? then Some(a.panic.statement) else None
  }

  /** The planned panic strikes: before any statement, or at a statement that is sent. */
  predicate Strikes(lib: Source.Libraries, a: Attempt) {
    || a.panic.BeforeStatements?
    || (Batch(lib, a) != [] && Unwinds(Batch(lib, a), a.faults, PlannedAt(a)))
  }

  function AttemptResult(lib: Source.Libraries, a: Attempt): Result<nat, ImportError> {
    if Strikes(lib, a) then Err(Panicked) else OnceResult(lib, a)
  }

  lemma BatchIsParsed(lib: Source.Libraries, a: Attempt)
    ensures Batch(lib, a) ==
            if Source.IsGoodAnswer(a.exchange) then Source.ParseRecords(lib, a.exchange.body.records) else []
  {
    Source.FetchIsExact(lib, a.exchange);
  }

  lemma SucceedsOnBatch(lib: Source.Libraries, a: Attempt)
    ensures AttemptResult(lib, a).Ok? <==>
              && a.panic.Never? && a.faults.Absent()
              && Batch(lib, a) != [] && DistinctKeys(Batch(lib, a)) && |Batch(lib, a)| <= 0x8000_0000
    ensures AttemptResult(lib, a).Ok? ==> AttemptResult(lib, a).value == |Batch(lib, a)|
  {
    var nodes := Batch(lib, a);
    if nodes != [] {
      BatchIsParsed(lib, a);
      Source.ParsedNodesAreImportable(lib, a.exchange.body.records);
      assert forall i :: 0 <= i < |nodes| ==> Source.Importable(lib, nodes[i]);
      ReplaceSucceedsIff(nodes, a.faults);
    }
  }

  /** No two accepted records have one key. */
  ghost predicate AcceptedKeysDiffer(lib: Source.Libraries, records: seq<Source.Json>) {
    forall i, j :: 0 <= i < j < |records| && Source.Accepted(lib, records[i]) && Source.Accepted(lib, records[j]) ==>
      lib.decode(records[i]).value.publicKey != lib.decode(records[j]).value.publicKey
  }

  lemma ParsedKeysDiffer(lib: Source.Libraries, records: seq<Source.Json>)
    ensures DistinctKeys(Source.ParseRecords(lib, records)) <==> AcceptedKeysDiffer(lib, records)
  {
    var nodes := Source.ParseRecords(lib, records);
    Source.ParseKeepsAcceptedInOrder(lib, records);
    var indices :| Source.IsAcceptedSubsequence(lib, records, indices, nodes);
    if AcceptedKeysDiffer(lib, records) {
      NodesDiffer(lib, records, indices, nodes);
    }
    if DistinctKeys(nodes) {
      RecordsDiffer(lib, records, indices, nodes);
    }
  }

  lemma NodesDiffer(lib: Source.Libraries, records: seq<Source.Json>, indices: seq<int>, nodes: seq<Node>)
    requires Source.IsAcceptedSubsequence(lib, records, indices, nodes) && AcceptedKeysDiffer(lib, records)
    ensures DistinctKeys(nodes)
  {
    forall a, b | 0 <= a < b < |nodes| ensures nodes[a].publicKey != nodes[b].publicKey {
      KeysOfRecords(lib, records, indices, nodes, a, b);
    }
  }

  lemma RecordsDiffer(lib: Source.Libraries, records: seq<Source.Json>, indices: seq<int>, nodes: seq<Node>)
    requires Source.IsAcceptedSubsequence(lib, records, indices, nodes) && DistinctKeys(nodes)
    ensures AcceptedKeysDiffer(lib, records)
  {
    forall i, j | 0 <= i < j < |records| && Source.Accepted(lib, records[i]) && Source.Accepted(lib, records[j])
      ensures lib.decode(records[i]).value.publicKey != lib.decode(records[j]).value.publicKey
    {
      var a, b := PositionsOf(lib, records, indices, i, j);
      KeysOfRecords(lib, records, indices, nodes, a, b);
      assert nodes[a].publicKey != nodes[b].publicKey;
    }
  }

  lemma PositionsOf(lib: Source.Libraries, records: seq<Source.Json>, indices: seq<int>, i: nat, j: nat)
    returns (a: nat, b: nat)
    requires Source.ExactlyAccepted(lib, records, indices) && i < j < |records|
    requires Source.Accepted(lib, records[i]) && Source.Accepted(lib, records[j])
    ensures a < b < |indices| && indices[a] == i && indices[b] == j
  {
    assert i in indices && j in indices;
    a :| 0 <= a < |indices| && indices[a] == i;
    b :| 0 <= b < |indices| && indices[b] == j;
    assert !(b < a);
  }

  lemma KeysOfRecords(lib: Source.Libraries, records: seq<Source.Json>, indices: seq<int>, nodes: seq<Node>,
                      a: nat, b: nat)
    requires Source.IsAcceptedSubsequence(lib, records, indices, nodes) && a < b < |nodes|
    ensures 0 <= indices[a] < indices[b] < |records|
    ensures Source.Accepted(lib, records[indices[a]]) && Source.Accepted(lib, records[indices[b]])
    ensures lib.decode(records[indices[a]]).value.publicKey == nodes[a].publicKey
    ensures lib.decode(records[indices[b]]).value.publicKey == nodes[b].publicKey
  {
    assert indices[a] in indices && indices[b] in indices;
    assert Source.Carries(lib, records[indices[a]], nodes[a]) && Source.Carries(lib, records[indices[b]], nodes[b]);
  }

  /** The exchange brings something to import: a 2xx array with accepted records, no two of them with
      one key and no more of them than the rank column can number. */
  ghost predicate BringsRanking(lib: Source.Libraries, exchange: Source.Exchange) {
    && Source.IsGoodAnswer(exchange)
    && var records := exchange.body.records;
       && 0 < |Source.AcceptedPositions(lib, records)| <= 0x8000_0000
       && AcceptedKeysDiffer(lib, records)
  }

  /** An attempt succeeds exactly when its exchange brings a ranking and neither the engine nor the
      import itself fails, and it then reports the number of accepted records. */
  lemma AttemptSucceedsIff(lib: Source.Libraries, a: Attempt)
    ensures AttemptResult(lib, a).Ok? <==> a.panic.Never? && a.faults.Absent() && BringsRanking(lib, a.exchange)
    ensures AttemptResult(lib, a).Ok? ==>
              AttemptResult(lib, a).value == |Source.AcceptedPositions(lib, a.exchange.body.records)|
  {
    BatchIsParsed(lib, a);
    SucceedsOnBatch(lib, a);
    if Source.IsGoodAnswer(a.exchange) {
      Source.ParsedCount(lib, a.exchange.body.records);
      ParsedKeysDiffer(lib, a.exchange.body.records);
    }
  }

  /** And it fails with each of the source's errors exactly when the exchange calls for it, unless it
      panics before it gets there. */
  lemma SourceFailuresAreExact(lib: Source.Libraries, a: Attempt)
    ensures forall c :: AttemptResult(lib, a) == Err(FromSource(Status(c))) <==>
              !a.panic.BeforeStatements? && a.exchange.Answered? && a.exchange.status == c && (c < 200 || 300 <= c)
    ensures AttemptResult(lib, a) == Err(FromSource(SourceError.Request)) <==>
            && !a.panic.BeforeStatements?
            && (a.exchange.SendFailed? || (200 <= a.exchange.status <= 299 && a.exchange.body.BodyFailed?))
    ensures AttemptResult(lib, a) == Err(FromSource(Decode)) <==>
            && !a.panic.BeforeStatements? && a.exchange.Answered?
            && 200 <= a.exchange.status <= 299 && a.exchange.body.NotAnArray?
    ensures AttemptResult(lib, a) == Err(EmptySource) <==>
            && !a.panic.BeforeStatements? && Source.IsGoodAnswer(a.exchange)
            && Source.AcceptedPositions(lib, a.exchange.body.records) == {}
  {
    Source.FetchIsExact(lib, a.exchange);
    if Source.IsGoodAnswer(a.exchange) {
      Source.ParsedCount(lib, a.exchange.body.records);
    }
  }

  /** A planned panic strikes exactly when the import gets to it, and is then all that is reported. */
  lemma PanicIsReportedIff(lib: Source.Libraries, a: Attempt)
    ensures AttemptResult(lib, a) == Err(Panicked) <==>
            || a.panic.BeforeStatements?
            || (&& a.panic.During? && Source.IsGoodAnswer(a.exchange)
                && Reaches(Source.ParseRecords(lib, a.exchange.body.records), a.faults, a.panic.statement))
  {
    BatchIsParsed(lib, a);
    if a.panic.During? {
      StatementIsSentIff(Batch(lib, a), a.faults, a.panic.statement);
      BatchFitsBigint(lib, a);
    }
  }

  /** A non-empty batch that fits, and no earlier statement in the way. */
  ghost predicate Reaches(nodes: seq<Node>, faults: Faults, st: Statement) {
    && 0 < |nodes| <= 0x8000_0000
    && (!st.Begin? ==> faults.begin.None?)
    && (st.InsertUnnest? || st.Commit? ==> faults.delete.None?)
    && (st.Commit? ==> faults.insert.None? && DistinctKeys(nodes))
  }

  lemma BatchFitsBigint(lib: Source.Libraries, a: Attempt)
    ensures Convertible(Batch(lib, a)) <==> |Batch(lib, a)| <= 0x8000_0000
  {
    BatchIsParsed(lib, a);
    var nodes := Batch(lib, a);
    if nodes != [] {
      Source.ParsedNodesAreImportable(lib, a.exchange.body.records);
      assert forall i :: 0 <= i < |nodes| ==> Source.Importable(lib, nodes[i]);
    }
  }

  /** Record to node to row to node: whatever order ties could take, a parsed batch without
      repeated keys is stored and read back with all four fields intact. */
  lemma ImportPathRoundTrip(lib: Source.Libraries, records: seq<Source.Json>)
    requires DistinctKeys(Source.ParseRecords(lib, records))
    requires |Source.ParseRecords(lib, records)| <= 0x8000_0000
    ensures var nodes := Source.ParseRecords(lib, records);
            && ToColumns(nodes).Ok? && Insert(map[], Unnest(ToColumns(nodes).value)).Ok?
            && forall rows :: IsListing(Insert(map[], Unnest(ToColumns(nodes).value)).value, rows) ==>
                 DecodeRows(rows) == Ok(nodes)
  {
    var nodes := Source.ParseRecords(lib, records);
    Source.ParsedNodesAreImportable(lib, records);
    assert forall i :: 0 <= i < |nodes| ==> Source.Importable(lib, nodes[i]);
    InsertedRepresents(nodes);
    var table := Insert(map[], Unnest(ToColumns(nodes).value)).value;
    forall rows | IsListing(table, rows) ensures DecodeRows(rows) == Ok(nodes) {
      ListingReadsBack(table, nodes, rows);
    }
  }

  /** The batch of the last successful attempt among the first `n`, or the initial list. */
  function LastGood(lib: Source.Libraries, initial: seq<Node>, attempts: nat -> Attempt, n: nat): seq<Node>
    decreases n
  {
    if n == 0 then initial
    else if AttemptResult(lib, attempts(n - 1)).Ok? then Batch(lib, attempts(n - 1))
    else LastGood(lib, initial, attempts, n - 1)
  }

  /** If the table stored `initial` before, it now stores the last good list after `n` attempts. */
  ghost predicate StoresLastGood(lib: Source.Libraries, initial: seq<Node>, before: Table, table: Table,
                                 attempts: nat -> Attempt, n: nat)
  {
    Represents(before, initial) ==> Represents(table, LastGood(lib, initial, attempts, n))
  }

  function Durations(attempts: nat -> Attempt): nat -> nat {
    (k: nat) => attempts(k).duration
  }

  /** The imports recorded in `starts` began on schedule and before cancellation. */
  ghost predicate OnSchedule(interval: nat, attempts: nat -> Attempt, cancelAt: nat, starts: seq<nat>) {
    forall k {:trigger starts[k]} :: 0 <= k < |starts| ==>
      starts[k] == StartAt(interval, Durations(attempts), k) < cancelAt
  }

  ghost predicate ResultsOf(lib: Source.Libraries, attempts: nat -> Attempt, results: seq<Result<nat, ImportError>>) {
    forall k {:trigger results[k]} :: 0 <= k < |results| ==> results[k] == AttemptResult(lib, attempts(k))
  }

  /** The loop has run these imports: on schedule, with these results, and the table they leave. */
  ghost predicate RanSoFar(lib: Source.Libraries, interval: nat, attempts: nat -> Attempt, cancelAt: nat,
                           initial: seq<Node>, before: Table, table: Table,
                           starts: seq<nat>, results: seq<Result<nat, ImportError>>)
  {
    && |results| == |starts|
    && OnSchedule(interval, attempts, cancelAt, starts)
    && ResultsOf(lib, attempts, results)
    && StoresLastGood(lib, initial, before, table, attempts, |starts|)
  }

  /** When the last of the first `n` imports ends; 0 if there is none. */
  function LastEnd(interval: nat, attempts: nat -> Attempt, n: nat): nat {
    if n == 0 then 0 else EndAt(interval, Durations(attempts), n - 1)
  }

  /** A non-empty snapshot is never replaced by an empty one. */
  lemma {:induction false} LastGoodNeverEmpties(lib: Source.Libraries, initial: seq<Node>,
                                                attempts: nat -> Attempt, n: nat, m: nat)
    requires n <= m && LastGood(lib, initial, attempts, n) != []
    ensures LastGood(lib, initial, attempts, m) != []
    decreases m
  {
    if n < m {
      LastGoodNeverEmpties(lib, initial, attempts, n, m - 1);
      SucceedsOnBatch(lib, attempts(m - 1));
    }
  }

  /** `tokio::time::interval` with `MissedTickBehavior::Delay`. */
  class Ticker {
    const period: nat
    var deadline: nat

    constructor (period: nat, now: nat)
      requires period > 0
      ensures this.period == period && deadline == now
    {
      this.period := period;
      deadline := now;
    }

    /** When the pending tick is ready, seen from `now`. */
    function ReadyAt(now: nat): nat
      reads this
    {
      Max(now, deadline)
    }

    method Fire(now: nat) returns (at: nat)
      modifies this
      ensures at == old(ReadyAt(now))
      ensures deadline == at + period
    {
      if now > deadline {
        at := now;
        deadline := now + period;
      } else {
        at := deadline;
        deadline := deadline + period;
      }
    }
  }

  class Importer {
    const lib: Source.Libraries
    const repo: PgNodeRepository

    constructor (lib: Source.Libraries, repo: PgNodeRepository)
      ensures this.lib == lib && this.repo == repo
    {
      this.lib := lib;
      this.repo := repo;
    }

    /** Storage is touched only after a successful, non-empty fetch. No result means a panic. */
    method RunOnce(a: Attempt) returns (r: Option<Result<nat, ImportError>>)
      modifies repo
      ensures r == if Strikes(lib, a) then None else Some(OnceResult(lib, a))
      ensures r.Some? && r.value.Ok? ==> Represents(repo.committed, Batch(lib, a))
      ensures r.None? || r.value.Err? ==> repo.committed == old(repo.committed)
      ensures Batch(lib, a) == [] ==> repo.sent == old(repo.sent)
      ensures old(repo.sent) <= repo.sent
    {
      if a.panic.BeforeStatements? { return None; }
      var fetched := Source.FetchNodes(lib, a.exchange);
      if fetched.Err? { return Some(Err(FromSource(fetched.error))); }
      var nodes := fetched.value;
      if nodes == [] { return Some(Err(EmptySource)); }
      var replaced := repo.ReplaceAll(nodes, a.faults, PlannedAt(a));
      if replaced.None? { return None; }
      if replaced.value.Err? { return Some(Err(FromStorage(replaced.value.error))); }
      return Some(Ok(replaced.value.value));
    }

    /** The spawned import, awaited: a panic comes back as an error, its transaction rolled back. */
    method SpawnAndJoin(a: Attempt) returns (r: Result<nat, ImportError>)
      modifies repo
      ensures r == AttemptResult(lib, a)
      ensures r.Ok? ==> Represents(repo.committed, Batch(lib, a))
      ensures r.Err? ==> repo.committed == old(repo.committed)
      ensures Batch(lib, a) == [] ==> repo.sent == old(repo.sent)
    {
      var joined := RunOnce(a);
      return if joined.None? then Err(Panicked) else joined.value;
    }

    /** Imports on every tick until the token is cancelled at `cancelAt`; time starts at 0 with
        the loop. Every import that starts is awaited, whatever its outcome. */
    method Run(interval: nat, attempts: nat -> Attempt, cancelAt: nat, ghost initial: seq<Node>)
      returns (starts: seq<nat>, results: seq<Result<nat, ImportError>>, stoppedAt: nat)
      requires interval > 0
      modifies repo
      ensures RanSoFar(lib, interval, attempts, cancelAt, initial, old(repo.committed), repo.committed,
                       starts, results)
      ensures StartAt(interval, Durations(attempts), |starts|) >= cancelAt
      ensures stoppedAt == Max(cancelAt, LastEnd(interval, attempts, |starts|))
    {
      ghost var first := repo.committed;
      var ticker := new Ticker(interval, 0);
      var now := 0;
      starts, results := [], [];
      while true
        invariant ticker.period == interval && fresh(ticker)
        invariant RanSoFar(lib, interval, attempts, cancelAt, initial, first, repo.committed, starts, results)
        invariant now == LastEnd(interval, attempts, |starts|)
        invariant ticker.ReadyAt(now) == StartAt(interval, Durations(attempts), |starts|)
        decreases cancelAt - ticker.deadline
      {
        // Biased select: at the moment the tick is ready, a cancelled token wins.
        if cancelAt <= ticker.ReadyAt(now) {
          stoppedAt := Max(now, cancelAt);
          break;
        }
        ghost var before := repo.committed;
        var at, result;
        at, result, now := Iterate(ticker, attempts, |starts|, now);
        OneMoreRan(lib, interval, attempts, cancelAt, initial, first, before, repo.committed,
                   starts, results, at, result);
        starts := starts + [at];
        results := results + [result];
      }
    }

    /** One turn of the loop once the tick has won: fire, import, and be done when it is. After an
        overrun the next tick is ready at once; a full period of rest follows only an import that
        took no time. */
    method Iterate(ticker: Ticker, attempts: nat -> Attempt, k: nat, now: nat)
      returns (at: nat, result: Result<nat, ImportError>, next: nat)
      requires ticker.ReadyAt(now) == StartAt(ticker.period, Durations(attempts), k)
      modifies ticker, repo
      ensures at == StartAt(ticker.period, Durations(attempts), k)
      ensures next == EndAt(ticker.period, Durations(attempts), k)
      ensures ticker.ReadyAt(next) == StartAt(ticker.period, Durations(attempts), k + 1)
      ensures ticker.deadline == at + ticker.period
      ensures attempts(k).duration >= ticker.period ==> ticker.ReadyAt(next) == next
      ensures ticker.ReadyAt(next) >= next + ticker.period <==> attempts(k).duration == 0 || ticker.period == 0
      ensures result == AttemptResult(lib, attempts(k))
      ensures result.Ok? ==> Represents(repo.committed, Batch(lib, attempts(k)))
      ensures result.Err? ==> repo.committed == old(repo.committed)
    {
      at := ticker.Fire(now);
      result := SpawnAndJoin(attempts(k));
      next := at + attempts(k).duration;
      NextStart(ticker.period, attempts, k);
    }
  }

  lemma StoresNext(lib: Source.Libraries, initial: seq<Node>, first: Table, before: Table, table: Table,
                   attempts: nat -> Attempt, k: nat)
    requires StoresLastGood(lib, initial, first, before, attempts, k)
    requires AttemptResult(lib, attempts(k)).Ok? ==> Represents(table, Batch(lib, attempts(k)))
    requires AttemptResult(lib, attempts(k)).Err? ==> table == before
    ensures StoresLastGood(lib, initial, first, table, attempts, k + 1)
  {
  }

  lemma OneMoreRan(lib: Source.Libraries, interval: nat, attempts: nat -> Attempt, cancelAt: nat,
                   initial: seq<Node>, first: Table, before: Table, table: Table,
                   starts: seq<nat>, results: seq<Result<nat, ImportError>>, at: nat, result: Result<nat, ImportError>)
    requires RanSoFar(lib, interval, attempts, cancelAt, initial, first, before, starts, results)
    requires at == StartAt(interval, Durations(attempts), |starts|) < cancelAt
    requires result == AttemptResult(lib, attempts(|starts|))
    requires result.Ok? ==> Represents(table, Batch(lib, attempts(|starts|)))
    requires result.Err? ==> table == before
    ensures RanSoFar(lib, interval, attempts, cancelAt, initial, first, table, starts + [at], results + [result])
  {
    ScheduleGrows(interval, attempts, cancelAt, starts, at);
    ResultsGrow(lib, attempts, results, result);
    StoresNext(lib, initial, first, before, table, attempts, |starts|);
  }

  lemma ScheduleGrows(interval: nat, attempts: nat -> Attempt, cancelAt: nat, starts: seq<nat>, at: nat)
    requires OnSchedule(interval, attempts, cancelAt, starts)
    requires at == StartAt(interval, Durations(attempts), |starts|) < cancelAt
    ensures OnSchedule(interval, attempts, cancelAt, starts + [at])
  {
    var more := starts + [at];
    forall k | 0 <= k < |more| ensures more[k] == StartAt(interval, Durations(attempts), k) < cancelAt {
      assert k < |starts| ==> more[k] == starts[k];
    }
  }

  lemma ResultsGrow(lib: Source.Libraries, attempts: nat -> Attempt, results: seq<Result<nat, ImportError>>,
                    result: Result<nat, ImportError>)
    requires ResultsOf(lib, attempts, results) && result == AttemptResult(lib, attempts(|results|))
    ensures ResultsOf(lib, attempts, results + [result])
  {
    var more := results + [result];
    forall k | 0 <= k < |more| ensures more[k] == AttemptResult(lib, attempts(k)) {
      assert k < |results| ==> more[k] == results[k];
    }
  }

  lemma NextStart(interval: nat, attempts: nat -> Attempt, k: nat)
    ensures StartAt(interval, Durations(attempts), k + 1) ==
            Max(StartAt(interval, Durations(attempts), k) + interval, EndAt(interval, Durations(attempts), k))
    ensures EndAt(interval, Durations(attempts), k) == StartAt(interval, Durations(attempts), k) + attempts(k).duration
  {
  }
}
