# Verified model of the node-ranking service

The service copies a Lightning node ranking from mempool.space into one PostgreSQL
table on a timer and serves that table at `GET /nodes`. What makes it more than a
copy loop is the promise that readers always see one whole ranking, in order,
while the importer replaces it, fails, panics or is shut down underneath them.

The model follows the program's components:

| file | what it holds |
|---|---|
| `Domain.dfy` | machine integers, `Node`, the error types |
| `BtcFormat.dfy` | `format_btc` and a parser for its output |
| `Source.dfy` | record validation, `parse_records`, the tail of `fetch_nodes` |
| `Snapshot.dfy` | column vectors, UNNEST/INSERT, ORDER BY rank, row decoding; what it means for a table to store a list |
| `Repository.dfy` | `PgNodeRepository` as a class, and its refinement of the `NodeRepository` trait |
| `Http.dfy` | the response mapping of `GET /nodes` |
| `Schedule.dfy` | start times under the ticker's Delay rule |
| `Import.dfy` | `Importer` and its ticker as classes: `run_once` and the loop `run` |
| `Retry.dfy`, `Startup.dfy` | backoff, `retry`, the error classifiers, `run` up to serving |
| `Service.dfy` | `serve` as an interleaving machine: import loop, spawned imports, each SQL statement, requests, shutdown |
| `Shutdown.dfy` | that machine's control: one import at a time, last good snapshot, quiet after the return |
| `FetchOrder.dfy` | imports commit in the order they were fetched, so later reads never show an older fetch |
| `Progress.dfy` | bounds on every import and every shutdown, and their completion without faults |
| `Lives.dfy` | any number of stops and restarts on one table |
| `Agreement.dfy` | the machine's imports can do what the imperative importer does, and report nothing else; whole runs are runs of the importer |
| `Timed.dfy` | the machine with a clock: ticks on schedule, timed runs and runs of the imperative loop are the same |
| `Freshness.dfy` | how stale a read can be |

A table is an unordered map from primary key to row. `Represents(table, nodes)`
says that it stores exactly the list `nodes`, each node ranked by its position; the
schema does not enforce this (rank is not unique), the code does. A run of the
service is any sequence of steps that are enabled one after the other, so a result
about "every run" covers every interleaving, every fault and every moment the
process may stop.

## Assumptions

- One instance of the service writes the table.
- Each poll of a `select!`, each SQL statement and each synchronous piece of code is one step.
- INSERT checks each row's capacity and then its key, and may fail for any other reason. Text the engine cannot hold (a NUL character) or a timestamp outside its
  range counts as such an engine fault.
- A SELECT sees the table committed when it starts; rows of equal rank come in any order.
- A COMMIT that reports failure was not applied, unless `commitMayLie` is set. The
  results about whole snapshots hold either way.
- The ticker has no tolerance: a late tick fires at once, and the next deadline is one
  period after that firing.
- With a clock, the loop takes a tick the moment it is ready, unless the token is cancelled; how
  long each import takes is arbitrary.
- An operation of `retry` counts as started when it is first polled. `select!` builds the
  future before it looks at the token, but the operations do nothing until polled.
- `first_seen` is a whole number of unix seconds, as the importer produces it. Which
  numbers are valid, how they are printed, and how a JSON record decodes are arbitrary
  functions.
- At the start the table stores some list: the empty one after a first migration, or
  what an earlier run left (`Lives.TableOutlivesProcess`).

## Where the code and its comments differ

`src/importer.rs:78-79` says that after an overrun the loop waits a full interval. The
Delay rule does not do that: the next import starts the moment the overrunning one ends.
`Import.Importer.Iterate` states this for every overrun, and
`Schedule.FullIntervalOfRestIff` says exactly when a full interval of rest does follow.
The promise of the specification, no burst of catch-up imports, holds
(`Schedule.WindowBound`).

## Model

| member | source | states |
|---|---|---|
| `Service.EndToEnd` | src/http/handlers.rs:16-24 | In every run a successful reply shows, in source order and with capacities readable to the last sat, exactly the accepted records of the latest fetch that had committed when the request's SELECT started, or the initial list if none had |
| `Service.ReadShowsOneSnapshot` | src/storage/postgres.rs:58-88 | In every run each successful read returns one whole stored list, the one that was latest at its snapshot; never a mix and never the emptied table between DELETE and INSERT |
| `FetchOrder.MonotonicReads` | src/storage/postgres.rs:58-88 | Of two successful reads in any run, the one whose snapshot is taken later shows the same import as the earlier one, or a younger import that fetched after the earlier one's batch had committed |
| `FetchOrder.CommitsInFetchOrder` | src/importer.rs:83-98 | Of two applied COMMITs the later belongs to a younger import, all of whose fetching lies between the two COMMITs |
| `FetchOrder.ReadShowsOrigin` | src/storage/postgres.rs:80-88 | A read shows exactly the batch of the last COMMIT applied before its own snapshot step, or the initial list |
| `Service.SnapshotIsTakenOnce` | src/storage/postgres.rs:80-88 | A request's snapshot step is unique in its run |
| `Service.CommittedIsLatest` | src/storage/postgres.rs:62-77 | After any steps the table stores the initial list or the whole batch of the latest applied COMMIT; holds also when a COMMIT that reports failure may have been applied |
| `Service.CommitsOnlyGoodAnswers` | src/source/mempool.rs:37-60 | In every run each applied COMMIT stores the parsed array of one exchange that came back with a status from 200 to 299, a JSON array and at least one accepted record |
| `Service.OkMeansStored` | src/http/handlers.rs:16-24 | In every run a request is answered with 200 if and only if its read went through, and the body then shows the list that was latest at its snapshot; a failed read is always the generic 500 |
| `Service.AnsweredOnce` | src/http/handlers.rs:16-24 | No request is answered twice |
| `Service.ReachableTablesAreWellRanked` | migrations/0001_create_nodes.sql:3-13 | Every reachable table has ranks 0..n-1 once each and no negative capacity, so each SELECT has one possible answer and decoding never reports a value out of range |
| `Service.TasksInvariant` | src/importer.rs:60-67 | What every spawned import carries at each statement: a non-empty batch equal to its own fetch, rows that store it, and before COMMIT a private table that represents it |
| `Service.ReadsInvariant` | src/storage/postgres.rs:80-88 | Every request in flight holds the list that was latest at its own snapshot step, whatever is committed later |
| `Shutdown.AtMostOneImportInFlight` | src/importer.rs:83-98 | Of any two spawned imports the older has finished |
| `Shutdown.ControlInvariant` | src/app.rs:70-90 | What every step keeps about the loop, the token, the server and the pool |
| `Shutdown.BegunTransactionSeesTable` | src/storage/postgres.rs:62-63 | A transaction that has begun and not yet deleted sees the committed table, which no other import can change in between |
| `Shutdown.CancelledIff` | src/importer.rs:83-88 | The token is cancelled if and only if it was so from the start or a step of the run cancelled it |
| `Shutdown.ResultIsServers` | src/app.rs:76-90 | The server is down if and only if a step stopped it, and the result carried to the return is how that step stopped it |
| `Shutdown.GracefulStopFollowsCancel` | src/app.rs:76-78 | The server stops by itself only after a cancellation and with every request answered |
| `Shutdown.CommittedIsLastGood` | src/importer.rs:56-67 | The table holds the batch of the last import that reported success, or the initial list, unless a COMMIT that reported failure was applied since |
| `Shutdown.LostCommitIsStillWhole` | src/storage/postgres.rs:75-77 | In that remaining case the table holds, whole, the batch of an import that reported failure |
| `Shutdown.NeverEmptiedAgain` | src/importer.rs:60-67 | Once the stored list is non-empty it is never empty again in the run |
| `Shutdown.OutcomeIsExact` | src/importer.rs:60-67 | An import reports success if and only if its COMMIT succeeded, and then reports the number of nodes it stored |
| `Shutdown.NoImportStartsAfterCancel` | src/importer.rs:83-89 | No tick is taken once the token was cancelled, before the run or by any of its steps |
| `Shutdown.NoTickFollowsCancel` | src/importer.rs:83-89 | No tick comes after a step that cancels the token |
| `Shutdown.AtMostOneCommitAfterCancel` | src/importer.rs:83-98 | At most one COMMIT is applied after the token was cancelled, before the run or by any of its steps |
| `Shutdown.LateCommitWasInFlight` | src/importer.rs:83-98 | A COMMIT applied after cancellation belongs to the import the loop was awaiting when the token was cancelled |
| `Shutdown.ImportsRunOnOpenPool` | src/app.rs:80-87 | Every step of an import finds the pool open and the loop not ended |
| `Shutdown.ReturnedMeansQuiet` | src/app.rs:80-90 | When `serve` has returned, the token is cancelled, the loop has ended, every import has finished and the pool is closed |
| `Progress.ShutdownTerminates` | src/app.rs:80-90 | After cancellation every continuation does a bounded amount of work, plus two steps for each request that still arrives, and until `serve` has returned a step is enabled that is no fault and no panic |
| `Progress.ShutdownCompletesCalmly` | src/app.rs:80-90 | From every reachable cancelled state, whatever the source answers, the import in flight can run to its own end and `serve` returns the server's result, without a fault or a panic and within the bound; all requests can be answered too if and only if none still waits for its SELECT on a closed pool |
| `Progress.SignalShutsDown` | src/app.rs:74-90 | At every moment of every run the token can be cancelled, and `serve` can then be brought to its return without a fault or a panic |
| `Progress.OpenRequestCanFail` | src/http/error.rs:18-35 | Any open request can fail with any storage error and is then answered with the generic 500 |
| `Progress.GracefulEndAnswersAll` | src/app.rs:76-78 | Unless the server itself failed, every accepted request has been answered once it has stopped |
| `Progress.StrandedIsNeverServed` | src/app.rs:87-90 | A request whose SELECT had not started when the pool closed is never served in any continuation: it fails or stays open |
| `Progress.FailingServerStrandsRequest` | src/app.rs:76-90 | Such a request exists in some run, from every start: the server fails before the request's SELECT |
| `Progress.StepLowersRank` | src/app.rs:80-90 | In a cancelled service every step but a new request or another cancellation strictly lowers what is left to do |
| `Progress.NextImportStarts` | src/importer.rs:69-98 | Until cancelled the loop has not ended, and from every reachable state, whatever the source answers, the current import ends and the next one starts within eight steps, none of them a fault, a panic or a lost COMMIT |
| `Progress.ImportTakesAtMostSixSteps` | src/importer.rs:60-67 | In every run an import takes at most six steps: those taken and those its phase still has before it never exceed six together |
| `Lives.TableOutlivesProcess` | src/storage/postgres.rs:58-61 | Over any number of lives of the process, each stopped after any step, the table stores the whole batch of the latest COMMIT applied in any of them, or the initial list |
| `Lives.NeverEmptyAcrossRestarts` | src/importer.rs:60-67 | Once the stored list is non-empty, it is non-empty after every later life |
| `Agreement.MachineRunsAttempt` | src/importer.rs:60-96 | For every exchange, every combination of engine faults and every panic point, the machine's import, left alone, can reach the result and the table of the imperative importer |
| `Agreement.LostCommitIsPossible` | src/storage/postgres.rs:75-77 | If COMMIT may lie, an attempt that would succeed can report any failure instead with its whole batch stored |
| `Agreement.MachineOutcomesAreAttempts` | src/importer.rs:60-96 | The converse: in every run, each finished import whose COMMIT was not lost reports what the imperative importer reports for some attempt with that import's own exchange |
| `Agreement.RunIsAnImporterRun` | src/importer.rs:56-98 | Every run that loses no COMMIT replays one sequence of attempts: each finished import has its attempt's outcome, imports finish in spawn order, and the table stores the importer's last good list after as many attempts |
| `Timed.TicksFollowSchedule` | src/importer.rs:76-98 | In every timed run tick k is taken at the scheduled start of import k and import k is joined at its scheduled end |
| `Timed.TimedRunIsLoopRun` | src/importer.rs:76-100 | Every timed run that loses no COMMIT has the starts, results and table of the imperative loop for one sequence of attempts with the same durations |
| `Timed.LoopRunIsTimedRun` | src/importer.rs:76-98 | The converse: for every sequence of attempts and every number of them, some timed run makes exactly those attempts on the loop's schedule, with their results and their table |
| `Freshness.DoneByEnd` | src/importer.rs:83-98 | After the scheduled end of import k, unless cancelled, import k has been spawned and has finished |
| `Freshness.ReadIsFresh` | src/storage/postgres.rs:80-88 | A read whose snapshot comes after the scheduled end of a successful import k shows import k or a younger one, and nothing fetched before import k's scheduled start |
| `Freshness.ReadsLagBelowTwoIntervals` | src/importer.rs:69-71 | If every import succeeds within the interval, a read at time t shows import number t / interval - 1 or a younger one, fetched less than two intervals ago |
| `Repository.HistoryRefinesList` | src/storage/mod.rs:22-33 | Over every history of calls, whatever the engine answers, the table behaves as the trait's plain list: whole replacement exactly on success, listing in order |
| `Repository.ReplaceSucceedsIff` | src/storage/postgres.rs:42-78 | `replace_all` succeeds if and only if keys are distinct, capacities fit `i64`, there are at most 2^31 nodes and no statement faults; otherwise inconvertible input is reported as out of range |
| `Repository.StatementIsSentIff` | src/storage/postgres.rs:42-78 | Each statement is sent if and only if the nodes fit the columns and everything before it went through |
| `Repository.FirstFaultIsReported` | src/storage/postgres.rs:58-78 | The first fault in statement order is the error of the call; a repeated key is the INSERT's `nodes_pkey` violation |
| `Repository.PgNodeRepository.constructor` | src/storage/postgres.rs:14-18 | A repository on a given table that has sent nothing |
| `Repository.PgNodeRepository.BuildColumns` | src/storage/postgres.rs:45-56 | The five-vector loop with early return computes `ToColumns` |
| `Repository.PgNodeRepository.ReplaceAll` | src/storage/postgres.rs:42-78 | The exact result and the exact statements sent; on success the table represents the nodes; on any error, and on a panic at any statement, it is unchanged; a conversion error sends no statement |
| `Repository.PgNodeRepository.ListNodes` | src/storage/postgres.rs:80-88 | Returns the engine's error, or exactly the stored list for any ORDER BY result |
| `Repository.ErrorIsFinal` | src/storage/postgres.rs:50-56 | The error of the first prefix that fails to convert is the error of the whole call |
| `Snapshot.ColumnsExact` | src/storage/postgres.rs:45-56 | Conversion succeeds if and only if every capacity fits `i64` and every position fits `i32`, and each column then holds each node's own field, the rank its position |
| `Snapshot.ConversionReportsFirstError` | src/storage/postgres.rs:50-56 | The error names the field and prints the value of the first node with a capacity above 2^63-1 or a position of 2^31, the capacity first |
| `Snapshot.InsertExact` | migrations/0001_create_nodes.sql:3-11 | INSERT succeeds if and only if no key repeats, none is taken and no capacity is negative |
| `Snapshot.InsertReportsFirstError` | migrations/0001_create_nodes.sql:3-11 | A failed INSERT names the constraint the first offending row breaks |
| `Snapshot.InsertAdds` | src/storage/postgres.rs:64-74 | A successful INSERT adds exactly the given rows and keeps the others |
| `Snapshot.InsertedRepresents` | src/storage/postgres.rs:45-74 | Converting, unnesting and inserting into the emptied table works exactly for storable lists and stores exactly the list |
| `Snapshot.ListingReadsBack` | src/storage/postgres.rs:80-88 | Any rank-sorted listing of a table that stores a list decodes to that list |
| `Snapshot.DecodeReportsFirstNegative` | src/storage/postgres.rs:28-39 | Row decoding fails if and only if some capacity is negative, and prints the first such value |
| `Snapshot.OrderIsDeterministicIff` | src/storage/postgres.rs:81-85 | ORDER BY rank has one result if and only if no two rows share a rank |
| `Snapshot.ListingExists` | src/storage/postgres.rs:81-85 | Every table has an ORDER BY result |
| `Snapshot.WellRankedIffRepresents` | migrations/0001_create_nodes.sql:3-13 | A table stores some list if and only if its ranks are 0..n-1 once each and no capacity is negative |
| `Snapshot.RepresentedIsStorable` | src/storage/postgres.rs:94-113 | A stored list has distinct keys and fits the column types |
| `Snapshot.RepresentsIsFunctional` | src/storage/mod.rs:31-32 | A table stores at most one list |
| `Import.Importer.RunOnce` | src/importer.rs:56-67 | The exact result, or none if the import panics; storage is replaced only on success and no statement is sent without a non-empty fetch |
| `Import.Importer.SpawnAndJoin` | src/importer.rs:91-96 | A panic before the statements or at any statement that is reached becomes an error and leaves the table unchanged; otherwise the result is that of `run_once` |
| `Import.Importer.Iterate` | src/importer.rs:78-98 | One turn starts and ends on schedule and leaves the ticker ready for the next start; after an overrun that start is the moment the turn ends, and a full (positive) period of rest follows if and only if the import took no time |
| `Import.Importer.Run` | src/importer.rs:76-100 | Imports start exactly at the scheduled times before cancellation and at no other, the loop stops at cancellation or when the import in flight ends, and the table holds the last good batch |
| `Import.Importer.constructor` | src/importer.rs:52-54 | An importer over the given source libraries and repository |
| `Import.Ticker.constructor` | src/importer.rs:77-80 | The first tick is due at once |
| `Import.Ticker.Fire` | src/importer.rs:77-89 | A tick fires when due, or at once when late, and the next is due one period after the firing |
| `Import.AttemptSucceedsIff` | src/importer.rs:60-67 | An attempt succeeds if and only if its exchange is a 2xx array with at least one and at most 2^31 accepted records, no two with one key, and there is no engine fault and no panic; it reports the number of accepted records |
| `Import.SourceFailuresAreExact` | src/source/mempool.rs:37-60 | Each status, a failed request, a body that is no array and an empty ranking are reported exactly when the exchange is of that kind, unless the import panicked before |
| `Import.PanicIsReportedIff` | src/importer.rs:91-96 | A panic is reported if and only if the import gets to the point where it is planned |
| `Import.ImportPathRoundTrip` | src/storage/postgres.rs:28-56 | Record to node to row to node keeps all four fields of every batch without repeated keys |
| `Import.LastGoodNeverEmpties` | src/importer.rs:60-67 | Over any attempts a non-empty snapshot is never replaced by an empty one |
| `Schedule.StartsAreSpaced` | src/importer.rs:76-98 | Imports do not overlap and start at least an interval apart |
| `Schedule.WindowBound` | src/importer.rs:76-98 | Any window of length W holds at most floor(W/interval)+1 starts, for all durations |
| `Schedule.OnTheGridIff` | src/importer.rs:76-98 | Import k starts at exactly k intervals, for all k, if and only if no import overruns |
| `Schedule.FullIntervalOfRestIff` | src/importer.rs:78-80 | A full interval of rest follows an import if and only if the import took no time |
| `Retry.Run` | src/app.rs:105-139 | For all outcomes, durations and cancellation times: the first final outcome if it is there before the cancellation, otherwise none; no call starts once cancelled; a transient error is never returned |
| `Retry.OneTurn` | src/app.rs:117-138 | One turn ends with that result or is ready to call again at the scheduled time |
| `Retry.CancellationWinsTies` | src/app.rs:117-135 | With a cancellation at c the first final outcome is returned if and only if it is there strictly before c, and no call starts at c or later |
| `Retry.UncancelledTiming` | src/app.rs:105-139 | After n transient outcomes `op` has run n+1 times and the backoff totals 1000(2^n-1) milliseconds up to n=5 and 1000(31+30(n-5)) beyond |
| `Retry.TotalSleepIs` | src/app.rs:92-98 | The closed form of the backoff sum for every n, past the saturation of the counter |
| `Retry.BackoffIsCapped` | src/app.rs:92-98 | Delays double from one second and stay at thirty from the sixth retry on, for every `u32` |
| `Startup.Run` | src/app.rs:34-71 | Serving begins if and only if one connect and then one migration succeed before cancellation and the client can be built; it stops cleanly if and only if cancelled while connecting or migrating; it fails with a storage or client error if and only if that error comes first; connecting retries every error but a bad configuration, migrating only the six connectivity errors; the events are exactly those of the phases that succeeded |
| `Startup.MigrateAndSpawn` | src/app.rs:44-71 | The same from a successful connect on: migrated and spawned, or the pool closed on a cancellation, or nothing more |
| `Startup.BadConfigurationEndsStartup` | src/app.rs:173-175 | The first connect that reports a bad configuration ends the startup with that error, before anything else has happened |
| `Startup.FatalErrorsArePermanent` | src/app.rs:173-193 | A storage error that ends the startup is a bad configuration before a connect, and none of the connectivity errors after one |
| `Startup.PoolIsClosedIff` | src/app.rs:44-46 | The pool is closed during startup if and only if the startup is cancelled after a successful connect |
| `Startup.PhaseResult` | src/app.rs:143-169 | The result of `connect_with_retry` or `migrate_with_retry` tells apart, both ways, success, interruption and a permanent error, and names the call that decided it |
| `Source.ParseKeepsAcceptedInOrder` | src/source/dto.rs:54-80 | The parsed nodes are exactly the decodable valid records, in order, each with its record's four fields |
| `Source.ParseConcat` | src/source/dto.rs:58-80 | Parsing distributes over concatenation |
| `Source.ParseIsLocal` | src/source/dto.rs:54-80 | Changing one record changes only its own contribution |
| `Source.SkippedCountIsExact` | src/source/mempool.rs:50-58 | `received - nodes.len()` never underflows and counts the rejected records |
| `Source.ParsedNodesAreImportable` | src/source/dto.rs:36-51 | Every parsed node has a key, a capacity within `i64` and a valid timestamp |
| `Http.RespondShowsAll` | src/http/response.rs:21-30 | A list that was read gives a 200 with one element per node, in order, from which key, alias, exact capacity and formatted time can be read; any failure gives the same generic 500 and never a 200 |
| `Http.ShowsAllIsInjective` | src/http/response.rs:21-30 | Two lists with one body are equal, if the timestamp text tells instants apart |
| `BtcFormat.FormatShape` | src/domain/format.rs:9-17 | The text is digits, one dot, eight digits, no redundant leading zero, and denotes the amount |
| `BtcFormat.FormatThenParse` | src/domain/format.rs:9-17 | Parsing the text gives back the exact sats for every `u64` |
| `BtcFormat.ParseThenFormat` | src/domain/format.rs:9-17 | Every text the parser accepts is the text of its amount |
| `BtcFormat.FormatPreservesOrder` | src/domain/format.rs:9-17 | Comparing texts by length and then by characters compares the amounts; the format is injective |

## Left out

- Retry.Run: requires that a cancellation or a final outcome comes at some time, because otherwise the loop never returns; Startup.Run asks the same of connecting, and of migrating only if connecting succeeds.
- Import.Importer.SpawnAndJoin: takes a panic while COMMIT is awaited to leave the transaction rolled back, as the machine in `Service.dfy` does.
- Agreement.MachineOutcomesAreAttempts: excludes, like Agreement.RunIsAnImporterRun and Timed.TimedRunIsLoopRun, an import whose COMMIT was applied but reported as failed, which the imperative importer does not model; `Shutdown.LostCommitIsStillWhole` covers it.
- Repository.PgNodeRepository.ReplaceAll: a COMMIT that fails after being applied is modelled in `Service.dfy` only.
- Calendar arithmetic and RFC 3339 text: single calls into chrono.
- JSON decoding: an arbitrary partial function from a record to its fields.
- The HTTP client, routing, timeout, trace and panic layers, `GET /health` and signal handling: library plumbing.
- Configuration parsing and URL redaction; a positive interval is taken from `src/config.rs:147-153`.
- Several writing replicas: the program has no lock and assumes a single instance.
- Logging, which changes no modelled state.
- Closing the pool on startup errors: `run` and `serve` return early and rely on drop.
- A panic of the import loop itself, outside the imports it spawns.
