/** Imports and shutdown make progress by their own ordinary steps: bounds that hold for every
    run, and completion without a fault or a panic. */
module Progress {
  import opened Domain
  import opened Snapshot
  import opened Service
  import opened Shutdown
  import Http
  import Source

  // ---------------------------------------------------------------- ranks

  /** Steps an import still has before it, at most. */
  function Phase(task: Task): nat {
    match task
    case Fetching => 6
    case Fetched(_) => 5
    case AwaitBegin(_, _) => 4
    case AwaitDelete(_, _, _) => 3
    case AwaitInsert(_, _, _) => 2
    case AwaitCommit(_, _) => 1
    case Finished(_) => 0
  }

  function LoopRank(s: State): nat {
    match s.loop
    case Ended => 0
    case AtSelect => 1
    case Joining(id) => 2 + if id < |s.tasks| then Phase(s.tasks[id]) else 0
  }

  function ServerRank(s: State): nat {
    match s.server
    case Listening => 4
    case Stopped(_) => 3
    case AwaitingImporter(_) => 2
    case ClosingPool(_) => 1
    case Returned(_) => 0
  }

  function ReadRank(read: Read): nat {
    match read
    case Requested => 2
    case Holding(_) => 1
    case Replied => 0
  }

  function Pending(requests: seq<Read>): nat {
    if requests == [] then 0
    else Pending(requests[..|requests| - 1]) + ReadRank(requests[|requests| - 1])
  }

  /** What is left to do in a cancelled service. */
  function Rank(s: State): nat {
    LoopRank(s) + ServerRank(s) + Pending(s.requests)
  }

  lemma {:induction false} PendingAfter(requests: seq<Read>, r: nat, read: Read)
    requires r < |requests|
    ensures Pending(requests[r := read]) == Pending(requests) - ReadRank(requests[r]) + ReadRank(read)
  {
    var n := |requests| - 1;
    var changed := requests[r := read];
    if r == n {
      assert changed[..n] == requests[..n];
    } else {
      assert changed[..n] == requests[..n][r := read];
      PendingAfter(requests[..n], r, read);
    }
  }

  lemma PendingMore(requests: seq<Read>, read: Read)
    ensures Pending(requests + [read]) == Pending(requests) + ReadRank(read)
  {
    assert (requests + [read])[..|requests|] == requests;
  }

  // ---------------------------------------------------------------- imports

  lemma TaskStepLowersPhase(env: Env, committed: Table, task: Task, step: Step)
    requires TaskStepEnabled(env, task, step)
    ensures Phase(TaskAfter(env, committed, task, step)) < Phase(task)
  {
  }

  function StepsOf(steps: seq<Step>, id: nat): nat {
    if steps == [] then 0
    else
      var last := steps[|steps| - 1];
      StepsOf(steps[..|steps| - 1], id) + if IsTaskStep(last) && last.task == id then 1 else 0
  }

  /** No import takes more than six steps, in any run. */
  lemma {:induction false} ImportTakesAtMostSixSteps(env: Env, s0: State, initial: seq<Node>, steps: seq<Step>, id: nat)
    requires Start(s0, initial) && Legal(env, s0, steps)
    ensures id >= |After(env, s0, steps).tasks| ==> StepsOf(steps, id) == 0
    ensures id < |After(env, s0, steps).tasks| ==> StepsOf(steps, id) + Phase(After(env, s0, steps).tasks[id]) <= 6
  {
    if steps != [] {
      var front, step := steps[..|steps| - 1], steps[|steps| - 1];
      var s := After(env, s0, front);
      ImportTakesAtMostSixSteps(env, s0, initial, front, id);
      TasksStep(env, s, step);
      if IsTaskStep(step) && step.task == id {
        TaskStepLowersPhase(env, s.committed, s.tasks[id], step);
      }
    }
  }

  /** Neither a fault nor a panic nor a failing server; a fetch comes back with `exchange`. */
  predicate Calm(exchange: Source.Exchange, step: Step) {
    match step
    case FetchDone(_, e) => e == exchange
    case ServerStops(failed) => !failed
    case CommitLost(_, _) => false
    case SqlFault(_, _) => false
    case Panic(_) => false
    case ReadFault(_, _) => false
    case Cancel => false
    case Request => false
    case _ => true
  }

  function NextOf(task: Task, id: nat, exchange: Source.Exchange): Step
    requires !task.Finished?
  {
    match task
    case Fetching => FetchDone(id, exchange)
    case Fetched(_) => Convert(id)
    case AwaitBegin(_, _) => BeginDone(id)
    case AwaitDelete(_, _, _) => DeleteDone(id)
    case AwaitInsert(_, _, _) => InsertDone(id)
    case AwaitCommit(_, _) => CommitDone(id)
  }

  /** Every unfinished import can take its next ordinary step, whatever the source answers. */
  lemma ImportHasCalmStep(env: Env, s: State, id: nat, exchange: Source.Exchange)
    requires id < |s.tasks| && !s.tasks[id].Finished?
    ensures var step := NextOf(s.tasks[id], id, exchange);
            Calm(exchange, step) && IsTaskStep(step) && step.task == id && Enabled(env, s, step)
  {
  }

  /** `more` takes the current import to its end by ordinary steps and then starts the next one. */
  ghost predicate StartsNext(env: Env, s: State, exchange: Source.Exchange, more: seq<Step>) {
    && Legal(env, s, more) && 1 <= |more| <= LoopRank(s)
    && more[|more| - 1] == Tick
    && forall i :: 0 <= i < |more| ==> Calm(exchange, more[i])
  }

  lemma StepThenNext(env: Env, s: State, exchange: Source.Exchange, step: Step, more: seq<Step>)
    requires Enabled(env, s, step) && Calm(exchange, step)
    requires LoopRank(Apply(env, s, step)) < LoopRank(s)
    requires StartsNext(env, Apply(env, s, step), exchange, more)
    ensures StartsNext(env, s, exchange, [step] + more)
  {
    Single(env, s, step);
    Concat(env, s, [step], more);
  }

  lemma ImportStepLowersLoop(env: Env, s: State, step: Step)
    requires ControlInv(s) && IsTaskStep(step) && Enabled(env, s, step)
    ensures LoopRank(Apply(env, s, step)) < LoopRank(s)
    ensures Apply(env, s, step) == s.(tasks := Apply(env, s, step).tasks, committed := Apply(env, s, step).committed)
  {
    TasksStep(env, s, step);
    TaskStepLowersPhase(env, s.committed, s.tasks[step.task], step);
    assert s.loop == Joining(step.task);
  }

  lemma JoinLowersLoop(env: Env, s: State)
    requires ControlInv(s) && Enabled(env, s, Join)
    ensures LoopRank(Apply(env, s, Join)) < LoopRank(s)
  {
  }

  lemma {:induction false} CanStartNext(env: Env, s: State, exchange: Source.Exchange)
    requires ControlInv(s) && !s.cancelled
    ensures exists more :: StartsNext(env, s, exchange, more)
    decreases LoopRank(s)
  {
    if s.loop.AtSelect? {
      Single(env, s, Tick);
      assert StartsNext(env, s, exchange, [Tick]);
    } else {
      var id := s.loop.task;
      var step := if s.tasks[id].Finished? then Join else NextOf(s.tasks[id], id, exchange);
      if s.tasks[id].Finished? {
        JoinLowersLoop(env, s);
        OtherStepKeepsControl(env, s, step);
      } else {
        ImportHasCalmStep(env, s, id, exchange);
        ImportStepLowersLoop(env, s, step);
        TaskStepKeepsControl(env, s, step);
      }
      CanStartNext(env, Apply(env, s, step), exchange);
      var more :| StartsNext(env, Apply(env, s, step), exchange, more);
      StepThenNext(env, s, exchange, step, more);
    }
  }

  lemma LoopRankBound(s: State)
    ensures LoopRank(s) <= 8
  {
  }

  /** Until the token is cancelled the loop has not ended, and from every reachable state, whatever
      the source answers, the current import ends and the next one starts within eight steps, none
      of which is a fault, a panic or a lost COMMIT. */
  lemma NextImportStarts(env: Env, s0: State, initial: seq<Node>, steps: seq<Step>, exchange: Source.Exchange)
    requires Start(s0, initial) && Legal(env, s0, steps) && !Signalled(s0, steps)
    ensures !After(env, s0, steps).loop.Ended?
    ensures exists more :: StartsNext(env, After(env, s0, steps), exchange, more)
    ensures LoopRank(After(env, s0, steps)) <= 8
  {
    CancelledIff(env, s0, steps);
    ControlInvariant(env, s0, initial, steps);
    CanStartNext(env, After(env, s0, steps), exchange);
    LoopRankBound(After(env, s0, steps));
  }

  // ---------------------------------------------------------------- shutdown is bounded

  /** Everything but a further cancellation and a newly arriving request. */
  predicate Work(step: Step) {
    step != Cancel && step != Step.Request
  }

  function WorkCount(steps: seq<Step>): nat {
    if steps == [] then 0
    else WorkCount(steps[..|steps| - 1]) + if Work(steps[|steps| - 1]) then 1 else 0
  }

  function RequestCount(steps: seq<Step>): nat {
    if steps == [] then 0
    else RequestCount(steps[..|steps| - 1]) + if steps[|steps| - 1] == Step.Request then 1 else 0
  }

  predicate IsReadStep(step: Step) {
    step.TakeSnapshot? || step.ReadFault? || step.Reply?
  }

  lemma ReadStepLowersRank(env: Env, s: State, step: Step)
    requires IsReadStep(step) && Enabled(env, s, step)
    ensures Rank(Apply(env, s, step)) < Rank(s) && Apply(env, s, step).cancelled == s.cancelled
  {
    var after := if step.TakeSnapshot? then Holding(s.committed) else Replied;
    assert Apply(env, s, step) == s.(requests := s.requests[step.read := after]);
    PendingAfter(s.requests, step.read, after);
  }

  lemma ControlStepLowersRank(env: Env, s: State, step: Step)
    requires ControlInv(s) && s.cancelled && Enabled(env, s, step)
    requires Work(step) && !IsReadStep(step) && !IsTaskStep(step)
    ensures Rank(Apply(env, s, step)) < Rank(s) && Apply(env, s, step).cancelled
  {
    assert Apply(env, s, step).requests == s.requests;
  }

  /** In a cancelled service every step but a new request or another cancellation leaves less to do. */
  lemma StepLowersRank(env: Env, s: State, step: Step)
    requires ControlInv(s) && s.cancelled && Enabled(env, s, step) && Work(step)
    ensures Rank(Apply(env, s, step)) < Rank(s)
    ensures Apply(env, s, step).cancelled && ControlInv(Apply(env, s, step))
  {
    if IsTaskStep(step) {
      ImportStepLowersLoop(env, s, step);
      TaskStepKeepsControl(env, s, step);
    } else {
      OtherStepKeepsControl(env, s, step);
      if IsReadStep(step) {
        ReadStepLowersRank(env, s, step);
      } else {
        ControlStepLowersRank(env, s, step);
      }
    }
  }

  lemma IdleStepRank(env: Env, s: State, step: Step)
    requires ControlInv(s) && s.cancelled && Enabled(env, s, step) && !Work(step)
    ensures Rank(Apply(env, s, step)) == Rank(s) + if step == Step.Request then 2 else 0
    ensures Apply(env, s, step).cancelled && ControlInv(Apply(env, s, step))
  {
    OtherStepKeepsControl(env, s, step);
    if step == Step.Request {
      PendingMore(s.requests, Requested);
    }
  }

  lemma {:induction false} WorkIsBounded(env: Env, s: State, more: seq<Step>)
    requires ControlInv(s) && s.cancelled && Legal(env, s, more)
    ensures WorkCount(more) + Rank(After(env, s, more)) <= Rank(s) + 2 * RequestCount(more)
    ensures After(env, s, more).cancelled && ControlInv(After(env, s, more))
  {
    if more != [] {
      var front, step := more[..|more| - 1], more[|more| - 1];
      WorkIsBounded(env, s, front);
      if Work(step) {
        StepLowersRank(env, After(env, s, front), step);
      } else {
        IdleStepRank(env, After(env, s, front), step);
      }
    }
  }

  // ---------------------------------------------------------------- shutdown is never stuck

  ghost predicate CalmWork(env: Env, s: State, exchange: Source.Exchange, step: Step) {
    Enabled(env, s, step) && Calm(exchange, step) && Work(step) && Failed(Apply(env, s, step)) == Failed(s)
  }

  lemma ImporterHasCalmStep(env: Env, s: State, exchange: Source.Exchange)
    requires ControlInv(s) && s.cancelled && !s.loop.Ended?
    ensures exists step :: CalmWork(env, s, exchange, step)
  {
    if s.loop.AtSelect? {
      assert CalmWork(env, s, exchange, Break);
    } else if s.tasks[s.loop.task].Finished? {
      assert CalmWork(env, s, exchange, Join);
    } else {
      var step := NextOf(s.tasks[s.loop.task], s.loop.task, exchange);
      ImportHasCalmStep(env, s, s.loop.task, exchange);
      ImportStepLowersLoop(env, s, step);
      assert CalmWork(env, s, exchange, step);
    }
  }

  /** Every request that still needs the database finds the pool open. */
  predicate Answerable(s: State) {
    s.poolOpen || forall r :: 0 <= r < |s.requests| ==> !s.requests[r].Requested?
  }

  predicate AllReplied(s: State) {
    forall r :: 0 <= r < |s.requests| ==> s.requests[r].Replied?
  }

  /** An open request can go on towards a successful reply. */
  lemma RequestHasCalmStep(env: Env, s: State, exchange: Source.Exchange, r: nat)
    requires Answerable(s) && r < |s.requests| && !s.requests[r].Replied?
    ensures exists step :: IsReadStep(step) && CalmWork(env, s, exchange, step)
  {
    if s.requests[r].Requested? {
      assert CalmWork(env, s, exchange, TakeSnapshot(r));
    } else {
      ListingExists(s.requests[r].snapshot);
      var rows :| IsListing(s.requests[r].snapshot, rows);
      assert CalmWork(env, s, exchange, Reply(r, rows));
    }
  }

  lemma ServerHasCalmStep(env: Env, s: State, exchange: Source.Exchange)
    requires ControlInv(s) && s.cancelled && s.loop.Ended? && !s.server.Returned?
    requires forall r :: 0 <= r < |s.requests| ==> s.requests[r].Replied?
    ensures exists step :: CalmWork(env, s, exchange, step)
  {
    if s.server.Listening? {
      assert CalmWork(env, s, exchange, ServerStops(false));
    } else if s.server.Stopped? {
      assert CalmWork(env, s, exchange, CancelToken);
    } else if s.server.AwaitingImporter? {
      assert CalmWork(env, s, exchange, JoinImporter);
    } else {
      assert CalmWork(env, s, exchange, ClosePool);
    }
  }

  lemma CalmWorkRemains(env: Env, s: State, exchange: Source.Exchange)
    requires ControlInv(s) && s.cancelled && !s.server.Returned?
    ensures exists step :: CalmWork(env, s, exchange, step)
  {
    if !s.loop.Ended? {
      ImporterHasCalmStep(env, s, exchange);
    } else if r :| 0 <= r < |s.requests| && !s.requests[r].Replied? {
      RequestHasCalmStep(env, s, exchange, r);
    } else {
      ServerHasCalmStep(env, s, exchange);
    }
  }

  /** Shutdown terminates: after cancellation every continuation does a bounded amount of work (two
      more steps for each request that still arrives), and as long as `serve` has not returned some
      ordinary step, no fault and no panic, is enabled. So a continuation that goes on while it can
      reaches the return. */
  lemma ShutdownTerminates(env: Env, s0: State, initial: seq<Node>, steps: seq<Step>, more: seq<Step>,
                           exchange: Source.Exchange)
    requires Start(s0, initial) && Legal(env, s0, steps) && Signalled(s0, steps)
    requires Legal(env, After(env, s0, steps), more)
    ensures WorkCount(more) <= Rank(After(env, s0, steps)) + 2 * RequestCount(more)
    ensures var s := After(env, After(env, s0, steps), more);
            s.server.Returned? || exists step :: CalmWork(env, s, exchange, step)
  {
    var s := After(env, s0, steps);
    CancelledIff(env, s0, steps);
    ControlInvariant(env, s0, initial, steps);
    WorkIsBounded(env, s, more);
    if !After(env, s, more).server.Returned? {
      CalmWorkRemains(env, After(env, s, more), exchange);
    }
  }

  ghost predicate ReturnsCalmly(env: Env, s: State, exchange: Source.Exchange, more: seq<Step>) {
    && Legal(env, s, more) && |more| <= Rank(s)
    && (forall i :: 0 <= i < |more| ==> Calm(exchange, more[i]))
    && After(env, s, more).server == Returned(Failed(s))
  }

  lemma StepThenReturn(env: Env, s: State, exchange: Source.Exchange, step: Step, more: seq<Step>)
    requires CalmWork(env, s, exchange, step) && Rank(Apply(env, s, step)) < Rank(s)
    requires ReturnsCalmly(env, Apply(env, s, step), exchange, more)
    ensures ReturnsCalmly(env, s, exchange, [step] + more)
  {
    Single(env, s, step);
    Concat(env, s, [step], more);
  }

  lemma StepThenSomeReturn(env: Env, s: State, exchange: Source.Exchange, step: Step)
    requires CalmWork(env, s, exchange, step) && Rank(Apply(env, s, step)) < Rank(s)
    requires exists more :: ReturnsCalmly(env, Apply(env, s, step), exchange, more)
    ensures exists more :: ReturnsCalmly(env, s, exchange, more)
  {
    var more :| ReturnsCalmly(env, Apply(env, s, step), exchange, more);
    StepThenReturn(env, s, exchange, step, more);
  }

  lemma {:induction false} CanReturnCalmly(env: Env, s: State, exchange: Source.Exchange)
    requires ControlInv(s) && s.cancelled
    ensures exists more :: ReturnsCalmly(env, s, exchange, more)
    decreases Rank(s)
  {
    if s.server.Returned? {
      assert ReturnsCalmly(env, s, exchange, []);
    } else {
      CalmWorkRemains(env, s, exchange);
      var step :| CalmWork(env, s, exchange, step);
      StepLowersRank(env, s, step);
      CanReturnCalmly(env, Apply(env, s, step), exchange);
      StepThenSomeReturn(env, s, exchange, step);
    }
  }

  // ---------------------------------------------------------------- requests at shutdown

  /** `more` makes `serve` return as above and answers every request on the way or afterwards. */
  ghost predicate AnswersAll(env: Env, s: State, exchange: Source.Exchange, more: seq<Step>) {
    ReturnsCalmly(env, s, exchange, more) && AllReplied(After(env, s, more))
  }

  lemma ReadStepKeepsAnswerable(env: Env, s: State, step: Step)
    requires Answerable(s) && IsReadStep(step) && Enabled(env, s, step)
    ensures Answerable(Apply(env, s, step))
  {
    var s' := Apply(env, s, step);
    forall r | 0 <= r < |s'.requests| && !s'.poolOpen ensures !s'.requests[r].Requested? {
      assert !s.requests[r].Requested?;
    }
  }

  lemma CalmStepKeepsReplied(env: Env, s: State, exchange: Source.Exchange, step: Step)
    requires AllReplied(s) && Enabled(env, s, step) && Calm(exchange, step)
    ensures AllReplied(Apply(env, s, step))
  {
    assert Apply(env, s, step).requests == s.requests;
  }

  lemma StepThenAnswer(env: Env, s: State, exchange: Source.Exchange, step: Step)
    requires CalmWork(env, s, exchange, step) && Rank(Apply(env, s, step)) < Rank(s)
    requires exists more :: AnswersAll(env, Apply(env, s, step), exchange, more)
    ensures exists more :: AnswersAll(env, s, exchange, more)
  {
    var more :| AnswersAll(env, Apply(env, s, step), exchange, more);
    StepThenReturn(env, s, exchange, step, more);
    Single(env, s, step);
    Concat(env, s, [step], more);
    assert AnswersAll(env, s, exchange, [step] + more);
  }

  /** The next ordinary step towards answering everything and then returning. */
  lemma AnsweringStep(env: Env, s: State, exchange: Source.Exchange)
    requires ControlInv(s) && s.cancelled && Answerable(s) && !(s.server.Returned? && AllReplied(s))
    ensures exists step :: CalmWork(env, s, exchange, step) && Answerable(Apply(env, s, step))
  {
    if r :| 0 <= r < |s.requests| && !s.requests[r].Replied? {
      RequestHasCalmStep(env, s, exchange, r);
      var step :| IsReadStep(step) && CalmWork(env, s, exchange, step);
      ReadStepKeepsAnswerable(env, s, step);
    } else {
      CalmWorkRemains(env, s, exchange);
      var step :| CalmWork(env, s, exchange, step);
      CalmStepKeepsReplied(env, s, exchange, step);
      assert Answerable(Apply(env, s, step));
    }
  }

  lemma {:induction false} CanAnswerAll(env: Env, s: State, exchange: Source.Exchange)
    requires ControlInv(s) && s.cancelled && Answerable(s)
    ensures exists more :: AnswersAll(env, s, exchange, more)
    decreases Rank(s)
  {
    if s.server.Returned? && AllReplied(s) {
      assert AnswersAll(env, s, exchange, []);
    } else {
      AnsweringStep(env, s, exchange);
      var step :| CalmWork(env, s, exchange, step) && Answerable(Apply(env, s, step));
      StepLowersRank(env, s, step);
      CanAnswerAll(env, Apply(env, s, step), exchange);
      StepThenAnswer(env, s, exchange, step);
    }
  }

  /** A request whose SELECT had not started when the pool closed. */
  predicate Stranded(s: State, r: nat) {
    r < |s.requests| && s.requests[r].Requested? && !s.poolOpen
  }

  predicate Serves(step: Step, r: nat) {
    (step.TakeSnapshot? || step.Reply?) && step.read == r
  }

  predicate FaultOf(step: Step, r: nat) {
    step.ReadFault? && step.read == r
  }

  predicate FaultIn(steps: seq<Step>, r: nat) {
    exists i :: 0 <= i < |steps| && FaultOf(steps[i], r)
  }

  lemma StrandedStep(env: Env, s: State, step: Step, r: nat)
    requires Stranded(s, r) && Enabled(env, s, step)
    ensures !Serves(step, r)
    ensures Stranded(Apply(env, s, step), r) || FaultOf(step, r)
  {
  }

  /** It is never served: it fails, or it stays open for ever. */
  lemma {:induction false} StrandedIsNeverServed(env: Env, s: State, more: seq<Step>, r: nat)
    requires Stranded(s, r) && Legal(env, s, more)
    ensures forall i :: 0 <= i < |more| ==> !Serves(more[i], r)
    ensures !FaultIn(more, r) ==> Stranded(After(env, s, more), r)
    ensures FaultIn(more, r) ==> FailedRead(After(env, s, more), r)
  {
    if more != [] {
      var front, step := more[..|more| - 1], more[|more| - 1];
      StrandedIsNeverServed(env, s, front, r);
      assert FaultIn(more, r) <==> FaultIn(front, r) || FaultOf(step, r) by { FaultInMore(more, r); }
      if FaultIn(front, r) {
        FailedReadStaysSo(env, After(env, s, front), step, r);
      } else {
        StrandedStep(env, After(env, s, front), step, r);
      }
    }
  }

  lemma FaultInMore(steps: seq<Step>, r: nat)
    requires steps != []
    ensures FaultIn(steps, r) <==> FaultIn(steps[..|steps| - 1], r) || FaultOf(steps[|steps| - 1], r)
  {
    var n := |steps| - 1;
    if FaultIn(steps[..n], r) {
      var i :| 0 <= i < n && FaultOf(steps[..n][i], r);
      assert FaultOf(steps[i], r);
    }
    if i :| 0 <= i < n && FaultOf(steps[i], r) {
      assert FaultOf(steps[..n][i], r);
    }
  }

  predicate FailedRead(s: State, r: nat) {
    r < |s.requests| && s.requests[r].Replied?
  }

  lemma FailedReadStaysSo(env: Env, s: State, step: Step, r: nat)
    requires FailedRead(s, r) && Enabled(env, s, step)
    ensures FailedRead(Apply(env, s, step), r) && !Serves(step, r) && !FaultOf(step, r)
  {
  }

  /** Any open request can fail, with any error, and is then answered with the generic 500. */
  lemma OpenRequestCanFail(env: Env, s0: State, steps: seq<Step>, r: nat, e: StorageError)
    requires Legal(env, s0, steps) && r < |After(env, s0, steps).requests|
    requires !After(env, s0, steps).requests[r].Replied?
    ensures Legal(env, s0, steps + [ReadFault(r, e)])
    ensures FailedRead(After(env, s0, steps + [ReadFault(r, e)]), r)
    ensures ReplyTo(env, ReadFault(r, e)) == Http.Error500("internal server error")
  {
    assert (steps + [ReadFault(r, e)])[..|steps|] == steps;
    Http.RespondShowsAll(env.format, Err(e));
  }

  lemma UnanswerableStaysOpen(env: Env, s: State, exchange: Source.Exchange, more: seq<Step>)
    requires !Answerable(s) && ReturnsCalmly(env, s, exchange, more)
    ensures !AllReplied(After(env, s, more))
  {
    var r :| 0 <= r < |s.requests| && s.requests[r].Requested?;
    StrandedIsNeverServed(env, s, more, r);
  }

  /** From every reachable cancelled state, whatever the source answers, the import in flight can run
      to its own end and `serve` returns with the server's result, without a fault or a panic and
      within the bound. All requests can be answered along the way exactly when none of them is still
      waiting for its SELECT on a closed pool. */
  lemma ShutdownCompletesCalmly(env: Env, s0: State, initial: seq<Node>, steps: seq<Step>, exchange: Source.Exchange)
    requires Start(s0, initial) && Legal(env, s0, steps) && Signalled(s0, steps)
    ensures exists more :: ReturnsCalmly(env, After(env, s0, steps), exchange, more)
    ensures (exists more :: AnswersAll(env, After(env, s0, steps), exchange, more)) <==>
            Answerable(After(env, s0, steps))
  {
    var s := After(env, s0, steps);
    CancelledIff(env, s0, steps);
    ControlInvariant(env, s0, initial, steps);
    CanReturnCalmly(env, s, exchange);
    if Answerable(s) {
      CanAnswerAll(env, s, exchange);
    }
    if more :| AnswersAll(env, s, exchange, more) {
      if !Answerable(s) {
        UnanswerableStaysOpen(env, s, exchange, more);
      }
    }
  }

  /** The token can be cancelled at any moment, and from there the service can be brought to its return
      by ordinary steps. */
  lemma SignalShutsDown(env: Env, s0: State, initial: seq<Node>, steps: seq<Step>, exchange: Source.Exchange)
    requires Start(s0, initial) && Legal(env, s0, steps)
    ensures Legal(env, s0, steps + [Cancel])
    ensures exists more :: ReturnsCalmly(env, After(env, s0, steps + [Cancel]), exchange, more)
  {
    assert (steps + [Cancel])[..|steps|] == steps;
    assert Cancels((steps + [Cancel])[|steps|]);
    ShutdownCompletesCalmly(env, s0, initial, steps + [Cancel], exchange);
  }

  /** Stranding takes a failing server: a graceful end has every accepted request answered. */
  lemma {:induction false} GracefulEndAnswersAll(env: Env, s0: State, initial: seq<Node>, steps: seq<Step>)
    requires Start(s0, initial) && Legal(env, s0, steps)
    ensures var s := After(env, s0, steps); s.server.Listening? || Failed(s) || AllReplied(s)
  {
    if steps != [] {
      var front, step := steps[..|steps| - 1], steps[|steps| - 1];
      GracefulEndAnswersAll(env, s0, initial, front);
      GracefulEndStep(env, After(env, s0, front), step);
    }
  }

  lemma GracefulEndStep(env: Env, s: State, step: Step)
    requires Enabled(env, s, step) && (s.server.Listening? || Failed(s) || AllReplied(s))
    ensures var s' := Apply(env, s, step); s'.server.Listening? || Failed(s') || AllReplied(s')
  {
  }

  lemma OneMore(env: Env, s0: State, steps: seq<Step>, step: Step) returns (more: seq<Step>)
    requires Legal(env, s0, steps) && Enabled(env, After(env, s0, steps), step)
    ensures Legal(env, s0, more) && After(env, s0, more) == Apply(env, After(env, s0, steps), step)
  {
    more := steps + [step];
    assert more[..|steps|] == steps;
  }

  lemma ServerFails(env: Env, s0: State, steps: seq<Step>) returns (more: seq<Step>)
    requires Legal(env, s0, steps) && After(env, s0, steps).server.Listening? && After(env, s0, steps).loop.AtSelect?
    ensures Legal(env, s0, more)
    ensures After(env, s0, more) ==
            After(env, s0, steps).(server := AwaitingImporter(true), cancelled := true, loop := Ended)
  {
    more := OneMore(env, s0, steps, ServerStops(true));
    more := OneMore(env, s0, more, CancelToken);
    more := OneMore(env, s0, more, Break);
  }

  lemma PoolCloses(env: Env, s0: State, steps: seq<Step>) returns (more: seq<Step>)
    requires Legal(env, s0, steps)
    requires After(env, s0, steps).server == AwaitingImporter(true) && After(env, s0, steps).loop.Ended?
    ensures Legal(env, s0, more)
    ensures After(env, s0, more) == After(env, s0, steps).(server := Returned(true), poolOpen := false)
  {
    more := OneMore(env, s0, steps, JoinImporter);
    more := OneMore(env, s0, more, ClosePool);
  }

  /** And a failing server does strand requests, from wherever a run starts. */
  lemma FailingServerStrandsRequest(env: Env, s0: State, initial: seq<Node>)
    requires Start(s0, initial)
    ensures exists steps :: Legal(env, s0, steps) && Stranded(After(env, s0, steps), 0)
  {
    var more := OneMore(env, s0, [], Step.Request);
    more := ServerFails(env, s0, more);
    more := PoolCloses(env, s0, more);
    assert Stranded(After(env, s0, more), 0);
  }
}
