/** `PgNodeRepository`: `replace_all` and `list_nodes` against one database, and the proof
    that they behave like the plain list the `NodeRepository` trait describes. */
module Repository {
  import opened Domain
  import opened Snapshot

  datatype Statement = Begin | Delete | InsertUnnest | Commit

  /** The engine faults of one call: a statement with a fault fails, whatever it would have done. */
  datatype Faults = Faults(
    begin: Option<SqlxError>,
    delete: Option<SqlxError>,
    insert: Option<SqlxError>,
    commit: Option<SqlxError>)
  {
    predicate Absent() {
      begin.None? && delete.None? && insert.None? && commit.None?
    }
  }

  /** The result of `replace_all` under these faults: the count, or the first thing that went wrong. */
  function ReplaceResult(nodes: seq<Node>, faults: Faults): Result<nat, StorageError> {
    match ToColumns(nodes)
    case Err(e) => Err(e)
    case Ok(columns) =>
      if faults.begin.Some? then Err(Database(faults.begin.value))
      else if faults.delete.Some? then Err(Database(faults.delete.value))
      else if faults.insert.Some? then Err(Database(faults.insert.value))
      else
        match Insert(map[], Unnest(columns))
        case Err(e) => Err(Database(e))
        case Ok(_) => if faults.commit.Some? then Err(Database(faults.commit.value)) else Ok(|nodes|)
  }

  const TRANSACTION: seq<Statement> := [Begin, Delete, InsertUnnest, Commit]

  /** How many statements `replace_all` sends under these faults. */
  function StatementCount(nodes: seq<Node>, faults: Faults): (n: nat)
    ensures n <= |TRANSACTION|
  {
    match ToColumns(nodes)
    case Err(_) => 0
    case Ok(columns) =>
      if faults.begin.Some? then 1
      else if faults.delete.Some? then 2
      else if faults.insert.Some? || Insert(map[], Unnest(columns)).Err? then 3
      else 4
  }

  function Position(st: Statement): (n: nat)
    ensures 1 <= n <= |TRANSACTION| && TRANSACTION[n - 1] == st
  {
    match st
    case Begin => 1
    case Delete => 2
    case InsertUnnest => 3
    case Commit => 4
  }

  /** A panic planned for a statement strikes exactly when that statement is sent. */
  predicate Unwinds(nodes: seq<Node>, faults: Faults, panic: Option<Statement>) {
    panic.Some? && Position(panic.value) <= StatementCount(nodes, faults)
  }

  /** `replace_all` succeeds exactly on storable lists without an engine fault. */
  lemma ReplaceSucceedsIff(nodes: seq<Node>, faults: Faults)
    ensures ReplaceResult(nodes, faults).Ok? <==> Storable(nodes) && faults.Absent()
    ensures ReplaceResult(nodes, faults).Ok? ==> ReplaceResult(nodes, faults).value == |nodes|
    ensures !Convertible(nodes) ==> ReplaceResult(nodes, faults).Err? && ReplaceResult(nodes, faults).error.OutOfRange?
    ensures ReplaceResult(nodes, faults).Ok? ==> StatementCount(nodes, faults) == 4
  {
    InsertedRepresents(nodes);
    ColumnsExact(nodes);
    if ToColumns(nodes).Err? {
      ConversionReportsFirstError(nodes);
    }
  }

  /** A statement is sent exactly when everything before it went through. */
  lemma StatementIsSentIff(nodes: seq<Node>, faults: Faults, st: Statement)
    ensures Position(st) <= StatementCount(nodes, faults) <==>
            && Convertible(nodes)
            && (!st.Begin? ==> faults.begin.None?)
            && (st.InsertUnnest? || st.Commit? ==> faults.delete.None?)
            && (st.Commit? ==> faults.insert.None? && DistinctKeys(nodes))
  {
    InsertedRepresents(nodes);
    ColumnsExact(nodes);
  }

  /** The first fault in statement order is the one reported; a repeated key counts as the INSERT's. */
  lemma FirstFaultIsReported(nodes: seq<Node>, faults: Faults)
    requires Convertible(nodes)
    ensures faults.begin.Some? ==> ReplaceResult(nodes, faults) == Err(Database(faults.begin.value))
    ensures faults.begin.None? && faults.delete.Some? ==>
              ReplaceResult(nodes, faults) == Err(Database(faults.delete.value))
    ensures faults.begin.None? && faults.delete.None? && faults.insert.Some? ==>
              ReplaceResult(nodes, faults) == Err(Database(faults.insert.value))
    ensures faults.begin.None? && faults.delete.None? && faults.insert.None? && !DistinctKeys(nodes) ==>
              ReplaceResult(nodes, faults) == Err(Database(ConstraintViolation("nodes_pkey")))
    ensures faults.begin.None? && faults.delete.None? && faults.insert.None? && DistinctKeys(nodes) ==>
              ReplaceResult(nodes, faults) ==
              if faults.commit.Some? then Err(Database(faults.commit.value)) else Ok(|nodes|)
  {
    InsertedRepresents(nodes);
    ColumnsExact(nodes);
    var rows := Unnest(ToColumns(nodes).value);
    if !DistinctKeys(nodes) {
      InsertReportsFirstError(map[], rows);
    }
  }

  lemma InsertStores(nodes: seq<Node>)
    ensures ToColumns(nodes).Ok? <==> Convertible(nodes)
    ensures ToColumns(nodes).Ok? && Insert(map[], Unnest(ToColumns(nodes).value)).Ok? ==>
              Represents(Insert(map[], Unnest(ToColumns(nodes).value)).value, nodes)
  {
    InsertedRepresents(nodes);
    ColumnsExact(nodes);
  }

  class PgNodeRepository {
    /** The committed contents of the table, which is what any other connection sees. */
    var committed: Table
    /** Every statement sent to the engine so far. */
    var sent: seq<Statement>

    constructor (table: Table)
      ensures committed == table && sent == []
    {
      committed := table;
      sent := [];
    }

    /** The conversion loop of `replace_all`: five vectors grow together until a value does not fit. */
    method BuildColumns(nodes: seq<Node>) returns (r: Result<Columns, StorageError>)
      ensures r == ToColumns(nodes)
    {
      var publicKeys: seq<string> := [];
      var aliases: seq<string> := [];
      var capacities: seq<I64> := [];
      var firstSeens: seq<int> := [];
      var ranks: seq<I32> := [];
      var index := 0;
      while index < |nodes|
        invariant 0 <= index <= |nodes|
        invariant ToColumns(nodes[..index]) == Ok(Columns(publicKeys, aliases, capacities, firstSeens, ranks))
      {
        var node := nodes[index];
        assert nodes[..index + 1][..index] == nodes[..index];
        publicKeys := publicKeys + [node.publicKey];
        aliases := aliases + [node.alias];
        var capacity := CapacityToDb(node.capacitySats);
        if capacity.Err? {
          ErrorIsFinal(nodes, index + 1);
          return Err(capacity.error);
        }
        capacities := capacities + [capacity.value];
        firstSeens := firstSeens + [node.firstSeen];
        var rank := RankToDb(index);
        if rank.Err? {
          ErrorIsFinal(nodes, index + 1);
          return Err(rank.error);
        }
        ranks := ranks + [rank.value];
        index := index + 1;
      }
      assert nodes[..index] == nodes;
      return Ok(Columns(publicKeys, aliases, capacities, firstSeens, ranks));
    }

    /** The next statement of the transaction, after those already sent since `before`. */
    method Send(st: Statement, ghost before: seq<Statement>)
      requires sent == before + TRANSACTION[..Position(st) - 1]
      modifies this`sent
      ensures sent == before + TRANSACTION[..Position(st)]
    {
      sent := sent + [st];
    }

    /** DELETE and INSERT work on a private copy; only COMMIT makes it the table. With `panic` the
        call unwinds while that statement is awaited, which gives no result and drops the copy. */
    method ReplaceAll(nodes: seq<Node>, faults: Faults, panic: Option<Statement>)
      returns (r: Option<Result<nat, StorageError>>)
      modifies this
      ensures r == if Unwinds(nodes, faults, panic) then None else Some(ReplaceResult(nodes, faults))
      ensures r.Some? && r.value.Ok? ==> Represents(committed, nodes)
      ensures r.None? || r.value.Err? ==> committed == old(committed)
      ensures !Convertible(nodes) ==> sent == old(sent)
      ensures sent == old(sent) +
              TRANSACTION[..if r.None? then Position(panic.value) else StatementCount(nodes, faults)]
    {
      InsertStores(nodes);
      var columns := BuildColumns(nodes);
      if columns.Err? { return Some(Err(columns.error)); }
      ghost var before := sent;

      Send(Begin, before);
      if panic == Some(Begin) { return None; }
      if faults.begin.Some? { return Some(Err(Database(faults.begin.value))); }
      var working := committed;

      Send(Delete, before);
      if panic == Some(Delete) { return None; }
      if faults.delete.Some? { return Some(Err(Database(faults.delete.value))); }
      working := map[];

      Send(InsertUnnest, before);
      if panic == Some(InsertUnnest) { return None; }
      if faults.insert.Some? { return Some(Err(Database(faults.insert.value))); }
      var inserted := Insert(working, Unnest(columns.value));
      if inserted.Err? { return Some(Err(Database(inserted.error))); }
      working := inserted.value;

      Send(Commit, before);
      if panic == Some(Commit) { return None; }
      if faults.commit.Some? { return Some(Err(Database(faults.commit.value))); }
      committed := working;
      return Some(Ok(|nodes|));
    }

    /** `rows` is what the engine answered: any ORDER BY result of the committed table. */
    method ListNodes(rows: seq<KeyedRow>, fault: Option<SqlxError>) returns (r: Result<seq<Node>, StorageError>)
      requires IsListing(committed, rows)
      ensures fault.Some? ==> r == Err(Database(fault.value))
      ensures fault.None? ==> r == DecodeRows(rows)
      ensures fault.None? ==> forall stored :: Represents(committed, stored) ==> r == Ok(stored)
    {
      if fault.Some? { return Err(Database(fault.value)); }
      forall stored | Represents(committed, stored) ensures DecodeRows(rows) == Ok(stored) {
        ListingReadsBack(committed, stored, rows);
      }
      return DecodeRows(rows);
    }
  }

  /** Once a prefix of the nodes fails to convert, the whole list fails the same way. */
  lemma {:induction false} ErrorIsFinal(nodes: seq<Node>, n: nat)
    requires n <= |nodes| && ToColumns(nodes[..n]).Err?
    ensures ToColumns(nodes) == ToColumns(nodes[..n])
  {
    if n == |nodes| {
      assert nodes[..n] == nodes;
    } else {
      var front := nodes[..|nodes| - 1];
      assert front[..n] == nodes[..n];
      ErrorIsFinal(front, n);
    }
  }

  // ---------------------------------------------------------------- refinement over histories

  /** One call and what the engine contributed to it. */
  datatype Call = Replace(nodes: seq<Node>, faults: Faults) | List(rows: seq<KeyedRow>, fault: Option<SqlxError>)

  datatype Reply = Replaced(count: Result<nat, StorageError>) | Listed(nodes: Result<seq<Node>, StorageError>)

  /** The concrete store: the table after a call. */
  function TableAfter(table: Table, call: Call): Table {
    if call.Replace? && ReplaceResult(call.nodes, call.faults).Ok?
    then Insert(map[], Unnest(ToColumns(call.nodes).value)).value
    else table
  }

  function ConcreteReply(call: Call): Reply {
    match call
    case Replace(nodes, faults) => Replaced(ReplaceResult(nodes, faults))
    case List(rows, fault) =>
      if fault.Some? then Listed(Err(Database(fault.value))) else Listed(DecodeRows(rows))
  }

  /** The trait's store: a list, replaced as a whole or left untouched. */
  ghost function ListAfter(list: seq<Node>, call: Call): seq<Node> {
    if call.Replace? && Storable(call.nodes) && call.faults.Absent() then call.nodes else list
  }

  /** What the trait promises about a reply, given the list stored before the call. */
  ghost predicate AllowedReply(list: seq<Node>, call: Call, reply: Reply) {
    match call
    case Replace(nodes, faults) =>
      && reply.Replaced?
      && (reply.count.Ok? <==> Storable(nodes) && faults.Absent())
      && (reply.count.Ok? ==> reply.count.value == |nodes|)
    case List(_, fault) => reply == Listed(if fault.Some? then Err(Database(fault.value)) else Ok(list))
  }

  /** A history is possible when every SELECT answered with a listing of the table it met. */
  ghost predicate Possible(table: Table, calls: seq<Call>)
    decreases |calls|
  {
    calls != [] ==>
      && (calls[0].List? ==> IsListing(table, calls[0].rows))
      && Possible(TableAfter(table, calls[0]), calls[1..])
  }

  ghost predicate Simulates(list: seq<Node>, calls: seq<Call>)
    decreases |calls|
  {
    calls != [] ==>
      && AllowedReply(list, calls[0], ConcreteReply(calls[0]))
      && Simulates(ListAfter(list, calls[0]), calls[1..])
  }

  /** Over every history the table answers exactly as the plain list would. */
  lemma {:induction false} HistoryRefinesList(table: Table, list: seq<Node>, calls: seq<Call>)
    requires Represents(table, list) && Possible(table, calls)
    ensures Simulates(list, calls)
    decreases |calls|
  {
    if calls != [] {
      var call := calls[0];
      if call.Replace? {
        ReplaceSucceedsIff(call.nodes, call.faults);
        InsertedRepresents(call.nodes);
      } else {
        ListingReadsBack(table, list, call.rows);
      }
      HistoryRefinesList(TableAfter(table, call), ListAfter(list, call), calls[1..]);
    }
  }
}
