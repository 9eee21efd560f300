/** The `nodes` table: column conversion, UNNEST/INSERT, ORDER BY rank and row decoding,
    and the relation between a table and the list of nodes it stores. */
module Snapshot {
  import opened Domain
  import BtcFormat

  /** A row without its primary key. `rank` has no uniqueness constraint. */
  datatype Row = Row(alias: string, capacitySats: I64, firstSeen: int, rank: I32)

  /** Rows by primary key; the table itself has no order. */
  type Table = map<string, Row>

  datatype KeyedRow = KeyedRow(publicKey: string, row: Row)

  /** The five parallel vectors bound to the INSERT. */
  datatype Columns = Columns(
    publicKeys: seq<string>,
    aliases: seq<string>,
    capacities: seq<I64>,
    firstSeens: seq<int>,
    ranks: seq<I32>)
  {
    predicate Aligned() {
      |publicKeys| == |aliases| == |capacities| == |firstSeens| == |ranks|
    }
  }

  // ---------------------------------------------------------------- conversions

  function CapacityToDb(sats: U64): Result<I64, StorageError> {
    if sats <= I64_MAX then Ok(sats) else Err(OutOfRange("capacity_sats", BtcFormat.IntText(sats)))
  }

  function CapacityFromDb(sats: I64): Result<U64, StorageError> {
    if sats >= 0 then Ok(sats) else Err(OutOfRange("capacity_sats", BtcFormat.IntText(sats)))
  }

  function RankToDb(index: nat): Result<I32, StorageError> {
    if index <= I32_MAX then Ok(index) else Err(OutOfRange("rank", BtcFormat.IntText(index)))
  }

  /** The conversion loop's result on the first nodes, one node at a time. */
  function ToColumns(nodes: seq<Node>): (r: Result<Columns, StorageError>)
    ensures r.Ok? ==> r.value.Aligned() && |r.value.ranks| == |nodes|
  {
    if nodes == [] then Ok(Columns([], [], [], [], []))
    else
      var index := |nodes| - 1;
      var node := nodes[index];
      match ToColumns(nodes[..index])
      case Err(e) => Err(e)
      case Ok(c) =>
        match CapacityToDb(node.capacitySats)
        case Err(e) => Err(e)
        case Ok(capacity) =>
          match RankToDb(index)
          case Err(e) => Err(e)
          case Ok(rank) =>
            Ok(Columns(c.publicKeys + [node.publicKey], c.aliases + [node.alias], c.capacities + [capacity],
                       c.firstSeens + [node.firstSeen], c.ranks + [rank]))
  }

  function Unnest(c: Columns): seq<KeyedRow>
    requires c.Aligned()
  {
    seq(|c.ranks|, i requires 0 <= i < |c.ranks| =>
      KeyedRow(c.publicKeys[i], Row(c.aliases[i], c.capacities[i], c.firstSeens[i], c.ranks[i])))
  }

  /** INSERT adds every row or fails as a whole, on the primary key or on the capacity CHECK. */
  function Insert(table: Table, rows: seq<KeyedRow>): Result<Table, SqlxError> {
    if rows == [] then Ok(table)
    else
      var last := rows[|rows| - 1];
      match Insert(table, rows[..|rows| - 1])
      case Err(e) => Err(e)
      case Ok(t) =>
        if last.row.capacitySats < 0 then Err(ConstraintViolation("nodes_capacity_sats_check"))
        else if last.publicKey in t then Err(ConstraintViolation("nodes_pkey"))
        else Ok(t[last.publicKey := last.row])
  }

  /** `TryFrom<NodeRow>`. */
  function NodeFromRow(r: KeyedRow): Result<Node, StorageError> {
    match CapacityFromDb(r.row.capacitySats)
    case Err(e) => Err(e)
    case Ok(sats) => Ok(Node(r.publicKey, r.row.alias, sats, r.row.firstSeen))
  }

  /** `collect()` into a `Result`: the first bad row is the error. */
  function DecodeRows(rows: seq<KeyedRow>): Result<seq<Node>, StorageError> {
    if rows == [] then Ok([])
    else
      match NodeFromRow(rows[0])
      case Err(e) => Err(e)
      case Ok(node) =>
        match DecodeRows(rows[1..])
        case Err(e) => Err(e)
        case Ok(rest) => Ok([node] + rest)
  }

  predicate Lists(rows: seq<KeyedRow>, key: string) {
    exists i :: 0 <= i < |rows| && rows[i].publicKey == key
  }

  ghost predicate RowsOfTable(table: Table, rows: seq<KeyedRow>) {
    forall i :: 0 <= i < |rows| ==> rows[i].publicKey in table && table[rows[i].publicKey] == rows[i].row
  }

  ghost predicate KeysDiffer(rows: seq<KeyedRow>) {
    forall i, j :: 0 <= i < j < |rows| ==> rows[i].publicKey != rows[j].publicKey
  }

  ghost predicate SortedByRank(rows: seq<KeyedRow>) {
    forall i, j :: 0 <= i < j < |rows| ==> rows[i].row.rank <= rows[j].row.rank
  }

  ghost predicate Covers(table: Table, rows: seq<KeyedRow>) {
    forall k :: k in table ==> Lists(rows, k)
  }

  /** A result of SELECT ... ORDER BY rank: every row once, by rank, ties in any order. */
  ghost predicate IsListing(table: Table, rows: seq<KeyedRow>) {
    RowsOfTable(table, rows) && KeysDiffer(rows) && SortedByRank(rows) && Covers(table, rows)
  }

  // ---------------------------------------------------------------- abstraction

  predicate Mentions(nodes: seq<Node>, key: string) {
    exists i :: 0 <= i < |nodes| && nodes[i].publicKey == key
  }

  ghost predicate Holds(row: Row, node: Node, position: int) {
    && row.alias == node.alias && row.capacitySats == node.capacitySats
    && row.firstSeen == node.firstSeen && row.rank == position
  }

  /** The table stores exactly the list `nodes`, each node ranked by its position. */
  ghost predicate Represents(table: Table, nodes: seq<Node>) {
    && (forall k :: k in table ==> Mentions(nodes, k))
    && forall i :: 0 <= i < |nodes| ==>
         nodes[i].publicKey in table && Holds(table[nodes[i].publicKey], nodes[i], i)
  }

  ghost predicate DistinctKeys(nodes: seq<Node>) {
    forall i, j :: 0 <= i < j < |nodes| ==> nodes[i].publicKey != nodes[j].publicKey
  }

  /** Every capacity fits a BIGINT and every position an INTEGER. */
  ghost predicate Convertible(nodes: seq<Node>) {
    && (forall i :: 0 <= i < |nodes| ==> nodes[i].capacitySats <= 0x7FFF_FFFF_FFFF_FFFF)
    && |nodes| <= 0x8000_0000
  }

  /** The lists `replace_all` can store. */
  ghost predicate Storable(nodes: seq<Node>) {
    DistinctKeys(nodes) && Convertible(nodes)
  }

  /** Ranks are 0, 1, ..., n - 1, each once, and no capacity is negative. */
  ghost predicate WellRanked(table: Table) {
    && (forall k :: k in table ==> 0 <= table[k].rank < |table| && table[k].capacitySats >= 0)
    && RanksDistinct(table)
  }

  ghost predicate RanksDistinct(table: Table) {
    forall k, l :: k in table && l in table && k != l ==> table[k].rank != table[l].rank
  }

  // ---------------------------------------------------------------- write path

  lemma {:induction false} ColumnsExact(nodes: seq<Node>)
    ensures ToColumns(nodes).Ok? <==> Convertible(nodes)
    ensures ToColumns(nodes).Ok? ==>
              var c := ToColumns(nodes).value;
              forall i :: 0 <= i < |nodes| ==>
                && c.publicKeys[i] == nodes[i].publicKey && c.aliases[i] == nodes[i].alias
                && c.capacities[i] == nodes[i].capacitySats && c.firstSeens[i] == nodes[i].firstSeen
                && c.ranks[i] == i
  {
    if nodes != [] {
      var front := nodes[..|nodes| - 1];
      ColumnsExact(front);
      assert forall i :: 0 <= i < |front| ==> front[i] == nodes[i];
    }
  }

  /** `error` names this field and prints this value. */
  ghost predicate ReportsValue(error: StorageError, field: string, value: int) {
    error.OutOfRange? && error.field == field && BtcFormat.Denotes(error.text, value)
  }

  /** Node `i` is the first that does not fit, and `error` says how; its capacity is looked at before
      its rank. */
  ghost predicate ReportsNode(nodes: seq<Node>, i: nat, error: StorageError) {
    && i < |nodes| && Convertible(nodes[..i])
    && if nodes[i].capacitySats > 0x7FFF_FFFF_FFFF_FFFF
       then ReportsValue(error, "capacity_sats", nodes[i].capacitySats)
       else i == 0x8000_0000 && ReportsValue(error, "rank", i)
  }

  /** A failed conversion reports the first offending node. */
  lemma {:induction false} ConversionReportsFirstError(nodes: seq<Node>)
    requires ToColumns(nodes).Err?
    ensures exists i: nat :: ReportsNode(nodes, i, ToColumns(nodes).error)
  {
    var n := |nodes| - 1;
    var front := nodes[..n];
    if ToColumns(front).Err? {
      ConversionReportsFirstError(front);
      var i: nat :| ReportsNode(front, i, ToColumns(front).error);
      assert front[..i] == nodes[..i];
      assert ReportsNode(nodes, i, ToColumns(nodes).error);
    } else {
      ColumnsExact(front);
      BtcFormat.IntTextDenotes(nodes[n].capacitySats);
      BtcFormat.IntTextDenotes(n);
      assert ReportsNode(nodes, n, ToColumns(nodes).error);
    }
  }

  ghost predicate Insertable(table: Table, rows: seq<KeyedRow>) {
    && KeysDiffer(rows)
    && forall i :: 0 <= i < |rows| ==> rows[i].publicKey !in table && rows[i].row.capacitySats >= 0
  }

  /** `t` is `table` with exactly these rows added. */
  ghost predicate Added(table: Table, rows: seq<KeyedRow>, t: Table) {
    && RowsOfTable(t, rows)
    && (forall k :: k in t ==> k in table || Lists(rows, k))
    && (forall k :: k in table ==> k in t && t[k] == table[k])
  }

  lemma ListsMore(front: seq<KeyedRow>, last: KeyedRow, k: string)
    requires Lists(front, k) || k == last.publicKey
    ensures Lists(front + [last], k)
  {
    var rows := front + [last];
    if Lists(front, k) {
      var i :| 0 <= i < |front| && front[i].publicKey == k;
      assert rows[i].publicKey == k;
    } else {
      assert rows[|front|].publicKey == k;
    }
  }

  lemma AddedOne(table: Table, front: seq<KeyedRow>, t: Table, last: KeyedRow)
    requires Added(table, front, t) && last.publicKey !in t
    ensures Added(table, front + [last], t[last.publicKey := last.row])
  {
    var t' := t[last.publicKey := last.row];
    forall k | k in t' ensures k in table || Lists(front + [last], k) {
      if k !in table { ListsMore(front, last, k); }
    }
  }

  /** A successful INSERT adds exactly the given rows. */
  lemma {:induction false} InsertAdds(table: Table, rows: seq<KeyedRow>)
    requires Insert(table, rows).Ok?
    ensures Added(table, rows, Insert(table, rows).value)
  {
    if rows != [] {
      var front, last := rows[..|rows| - 1], rows[|rows| - 1];
      InsertAdds(table, front);
      AddedOne(table, front, Insert(table, front).value, last);
      assert front + [last] == rows;
    }
  }

  lemma {:induction false} InsertableInserts(table: Table, rows: seq<KeyedRow>)
    requires Insertable(table, rows)
    ensures Insert(table, rows).Ok?
  {
    if rows != [] {
      var n := |rows| - 1;
      var front := rows[..n];
      assert forall i :: 0 <= i < n ==> front[i] == rows[i];
      assert Insertable(table, front);
      InsertableInserts(table, front);
      InsertAdds(table, front);
      assert !Lists(front, rows[n].publicKey);
    }
  }

  lemma {:induction false} InsertedWasInsertable(table: Table, rows: seq<KeyedRow>)
    requires Insert(table, rows).Ok?
    ensures Insertable(table, rows)
  {
    if rows != [] {
      var n := |rows| - 1;
      var front := rows[..n];
      InsertedWasInsertable(table, front);
      InsertAdds(table, front);
      var t := Insert(table, front).value;
      forall i | 0 <= i < n
        ensures rows[i].publicKey != rows[n].publicKey
        ensures rows[i].publicKey !in table && rows[i].row.capacitySats >= 0
      {
        assert front[i] == rows[i] && front[i].publicKey in t;
      }
      forall i, j | 0 <= i < j < n ensures rows[i].publicKey != rows[j].publicKey {
        assert front[i].publicKey != front[j].publicKey;
      }
    }
  }

  /** INSERT succeeds exactly when no key repeats, none is taken and the CHECK holds. */
  lemma InsertExact(table: Table, rows: seq<KeyedRow>)
    ensures Insert(table, rows).Ok? <==> Insertable(table, rows)
  {
    if Insert(table, rows).Ok? { InsertedWasInsertable(table, rows); }
    if Insertable(table, rows) { InsertableInserts(table, rows); }
  }

  /** Row `i` is the first that cannot be added, and `error` names the constraint it breaks. */
  ghost predicate ReportsConstraint(table: Table, rows: seq<KeyedRow>, i: nat, error: SqlxError) {
    && i < |rows| && Insertable(table, rows[..i])
    && if rows[i].row.capacitySats < 0 then error == ConstraintViolation("nodes_capacity_sats_check")
       else
         && (rows[i].publicKey in table || Lists(rows[..i], rows[i].publicKey))
         && error == ConstraintViolation("nodes_pkey")
  }

  /** A failed INSERT reports the first offending row. */
  lemma {:induction false} InsertReportsFirstError(table: Table, rows: seq<KeyedRow>)
    requires Insert(table, rows).Err?
    ensures exists i: nat :: ReportsConstraint(table, rows, i, Insert(table, rows).error)
  {
    var n := |rows| - 1;
    var front := rows[..n];
    if Insert(table, front).Err? {
      InsertReportsFirstError(table, front);
      var i: nat :| ReportsConstraint(table, front, i, Insert(table, front).error);
      assert front[..i] == rows[..i];
      assert ReportsConstraint(table, rows, i, Insert(table, rows).error);
    } else {
      InsertExact(table, front);
      InsertAdds(table, front);
      assert ReportsConstraint(table, rows, n, Insert(table, rows).error);
    }
  }

  /** Converting, unnesting and inserting into an emptied table stores exactly the list. */
  lemma InsertedRepresents(nodes: seq<Node>)
    ensures ToColumns(nodes).Ok? && Insert(map[], Unnest(ToColumns(nodes).value)).Ok? <==> Storable(nodes)
    ensures Storable(nodes) ==> Represents(Insert(map[], Unnest(ToColumns(nodes).value)).value, nodes)
  {
    ColumnsExact(nodes);
    if ToColumns(nodes).Ok? {
      var rows := Unnest(ToColumns(nodes).value);
      assert RowsOf(nodes, rows);
      InsertExact(map[], rows);
      if Insert(map[], rows).Ok? { InsertAdds(map[], rows); }
      RowsOfInsertable(nodes, rows);
      if Insertable(map[], rows) {
        var table := Insert(map[], rows).value;
        forall k | k in table ensures Mentions(nodes, k) {
          var i :| 0 <= i < |rows| && rows[i].publicKey == k;
          assert nodes[i].publicKey == k;
        }
        forall i | 0 <= i < |nodes|
          ensures nodes[i].publicKey in table && Holds(table[nodes[i].publicKey], nodes[i], i)
        {
          assert rows[i].publicKey in table;
        }
      }
    }
  }

  ghost predicate RowsOf(nodes: seq<Node>, rows: seq<KeyedRow>) {
    && |rows| == |nodes|
    && forall i :: 0 <= i < |rows| ==> rows[i].publicKey == nodes[i].publicKey && Holds(rows[i].row, nodes[i], i)
  }

  lemma RowsOfInsertable(nodes: seq<Node>, rows: seq<KeyedRow>)
    requires RowsOf(nodes, rows)
    ensures Insertable(map[], rows) <==> DistinctKeys(nodes)
  {
    if Insertable(map[], rows) {
      forall i, j | 0 <= i < j < |nodes| ensures nodes[i].publicKey != nodes[j].publicKey {
        assert rows[i].publicKey != rows[j].publicKey;
      }
    }
    if DistinctKeys(nodes) {
      forall i, j | 0 <= i < j < |rows| ensures rows[i].publicKey != rows[j].publicKey {
        assert nodes[i].publicKey != nodes[j].publicKey;
      }
      forall i | 0 <= i < |rows| ensures rows[i].row.capacitySats >= 0 {
        assert rows[i].publicKey == nodes[i].publicKey;
      }
    }
  }

  // ---------------------------------------------------------------- read path

  lemma RepresentedIsStorable(table: Table, nodes: seq<Node>)
    requires Represents(table, nodes)
    ensures Storable(nodes)
  {
    if |nodes| > 0 {
      assert Holds(table[nodes[|nodes| - 1].publicKey], nodes[|nodes| - 1], |nodes| - 1);
    }
  }

  /** Row number i of any listing of a represented list is node number i. */
  lemma {:induction false} ListingPosition(table: Table, nodes: seq<Node>, rows: seq<KeyedRow>, i: nat)
    requires Represents(table, nodes) && IsListing(table, rows)
    requires i < |rows| || i < |nodes|
    ensures i < |rows| && i < |nodes|
    ensures rows[i].publicKey == nodes[i].publicKey && rows[i].row.rank == i
  {
    forall m | 0 <= m < i
      ensures m < |rows| && m < |nodes| && rows[m].publicKey == nodes[m].publicKey && rows[m].row.rank == m
    {
      ListingPosition(table, nodes, rows, m);
    }
    if i < |nodes| {
      // Node i is somewhere in the listing, and not before position i.
      assert Lists(rows, nodes[i].publicKey);
      var p :| 0 <= p < |rows| && rows[p].publicKey == nodes[i].publicKey;
      assert rows[p].row.rank == i;
      assert p >= i;
      assert rows[i].row.rank <= i;
    }
    assert Mentions(nodes, rows[i].publicKey);
    var j :| 0 <= j < |nodes| && nodes[j].publicKey == rows[i].publicKey;
    assert rows[i].row.rank == j;
    assert j >= i;
  }

  lemma {:induction false} DecodeRowsExact(rows: seq<KeyedRow>, nodes: seq<Node>)
    requires |rows| == |nodes|
    requires forall i :: 0 <= i < |rows| ==> NodeFromRow(rows[i]) == Ok(nodes[i])
    ensures DecodeRows(rows) == Ok(nodes)
  {
    if rows != [] {
      DecodeRowsExact(rows[1..], nodes[1..]);
      assert nodes == [nodes[0]] + nodes[1..];
    }
  }

  /** Row `i` holds the first negative capacity, and `error` prints it. */
  ghost predicate ReportsRow(rows: seq<KeyedRow>, i: nat, error: StorageError) {
    && i < |rows| && rows[i].row.capacitySats < 0
    && (forall j :: 0 <= j < i ==> rows[j].row.capacitySats >= 0)
    && ReportsValue(error, "capacity_sats", rows[i].row.capacitySats)
  }

  /** Decoding fails exactly on a negative capacity, and reports the first one. */
  lemma {:induction false} DecodeReportsFirstNegative(rows: seq<KeyedRow>)
    ensures DecodeRows(rows).Ok? <==> forall i :: 0 <= i < |rows| ==> rows[i].row.capacitySats >= 0
    ensures DecodeRows(rows).Err? ==> exists i: nat :: ReportsRow(rows, i, DecodeRows(rows).error)
  {
    if rows != [] {
      var rest := rows[1..];
      assert forall i :: 1 <= i < |rows| ==> rows[i] == rest[i - 1];
      if rows[0].row.capacitySats < 0 {
        BtcFormat.IntTextDenotes(rows[0].row.capacitySats);
        assert ReportsRow(rows, 0, DecodeRows(rows).error);
      } else {
        DecodeReportsFirstNegative(rest);
        if DecodeRows(rest).Err? {
          var i: nat :| ReportsRow(rest, i, DecodeRows(rest).error);
          assert ReportsRow(rows, i + 1, DecodeRows(rows).error);
        }
      }
    }
  }

  /** Whatever order the engine gives ties, a represented list is read back exactly. */
  lemma ListingReadsBack(table: Table, nodes: seq<Node>, rows: seq<KeyedRow>)
    requires Represents(table, nodes) && IsListing(table, rows)
    ensures DecodeRows(rows) == Ok(nodes)
  {
    if |rows| > 0 { ListingPosition(table, nodes, rows, |rows| - 1); }
    if |nodes| > 0 { ListingPosition(table, nodes, rows, |nodes| - 1); }
    forall i | 0 <= i < |rows|
      ensures NodeFromRow(rows[i]) == Ok(nodes[i])
    {
      ListingPosition(table, nodes, rows, i);
      assert Holds(table[nodes[i].publicKey], nodes[i], i);
    }
    DecodeRowsExact(rows, nodes);
  }

  // ---------------------------------------------------------------- ORDER BY in general

  /** Where a row of this rank goes: behind every row that does not rank higher. */
  function SortedPosition(rows: seq<KeyedRow>, rank: int): (p: nat)
    ensures p <= |rows|
  {
    if rows == [] || rows[|rows| - 1].row.rank <= rank then |rows| else SortedPosition(rows[..|rows| - 1], rank)
  }

  lemma {:induction false} SortedPositionSplits(rows: seq<KeyedRow>, rank: int)
    requires SortedByRank(rows)
    ensures forall i :: 0 <= i < SortedPosition(rows, rank) ==> rows[i].row.rank <= rank
    ensures forall i :: SortedPosition(rows, rank) <= i < |rows| ==> rank <= rows[i].row.rank
  {
    if rows != [] && rows[|rows| - 1].row.rank > rank {
      SortedPositionSplits(rows[..|rows| - 1], rank);
    }
  }

  function InsertAt(rows: seq<KeyedRow>, p: nat, x: KeyedRow): (r: seq<KeyedRow>)
    requires p <= |rows|
    ensures |r| == |rows| + 1 && r[p] == x
    ensures forall i :: 0 <= i < p ==> r[i] == rows[i]
    ensures forall i :: p < i < |r| ==> r[i] == rows[i - 1]
  {
    rows[..p] + [x] + rows[p..]
  }

  lemma InsertAtSorted(rows: seq<KeyedRow>, x: KeyedRow)
    requires SortedByRank(rows)
    ensures SortedByRank(InsertAt(rows, SortedPosition(rows, x.row.rank), x))
  {
    SortedPositionSplits(rows, x.row.rank);
  }

  lemma InsertAtKeysDiffer(rows: seq<KeyedRow>, p: nat, x: KeyedRow)
    requires KeysDiffer(rows) && p <= |rows|
    requires forall i :: 0 <= i < |rows| ==> rows[i].publicKey != x.publicKey
    ensures KeysDiffer(InsertAt(rows, p, x))
  {
    var r := InsertAt(rows, p, x);
    forall i, j | 0 <= i < j < |r| ensures r[i].publicKey != r[j].publicKey {
      assert i < p ==> r[i] == rows[i];
      assert i > p ==> r[i] == rows[i - 1];
      assert j < p ==> r[j] == rows[j];
      assert j > p ==> r[j] == rows[j - 1];
    }
  }

  lemma InsertAtCovers(table: Table, rows: seq<KeyedRow>, p: nat, x: KeyedRow)
    requires Covers(table, rows) && p <= |rows|
    ensures Covers(table[x.publicKey := x.row], InsertAt(rows, p, x))
  {
    var t, r := table[x.publicKey := x.row], InsertAt(rows, p, x);
    forall k | k in t ensures Lists(r, k) {
      if k == x.publicKey {
        assert r[p].publicKey == k;
      } else {
        assert Lists(rows, k);
        var i :| 0 <= i < |rows| && rows[i].publicKey == k;
        assert r[if i < p then i else i + 1].publicKey == k;
      }
    }
  }

  lemma InsertAtRowsOfTable(table: Table, rows: seq<KeyedRow>, p: nat, x: KeyedRow)
    requires RowsOfTable(table, rows) && x.publicKey !in table && p <= |rows|
    ensures RowsOfTable(table[x.publicKey := x.row], InsertAt(rows, p, x))
  {
    var t, r := table[x.publicKey := x.row], InsertAt(rows, p, x);
    forall i | 0 <= i < |r| ensures r[i].publicKey in t && t[r[i].publicKey] == r[i].row {
      if i != p {
        var j := if i < p then i else i - 1;
        assert r[i] == rows[j] && rows[j].publicKey in table;
      }
    }
  }

  lemma ListingWith(table: Table, rows: seq<KeyedRow>, x: KeyedRow)
    requires IsListing(table, rows) && x.publicKey !in table
    ensures IsListing(table[x.publicKey := x.row], InsertAt(rows, SortedPosition(rows, x.row.rank), x))
  {
    var p := SortedPosition(rows, x.row.rank);
    InsertAtSorted(rows, x);
    InsertAtRowsOfTable(table, rows, p, x);
    InsertAtKeysDiffer(rows, p, x);
    InsertAtCovers(table, rows, p, x);
  }

  lemma ListingWithKey(table: Table, key: string)
    requires key in table && exists rows :: IsListing(table - {key}, rows)
    ensures exists rows :: IsListing(table, rows)
  {
    var rows: seq<KeyedRow> :| IsListing(table - {key}, rows);
    var x := KeyedRow(key, table[key]);
    ListingWith(table - {key}, rows, x);
    assert (table - {key})[key := table[key]] == table;
  }

  /** Every table has at least one ORDER BY result. */
  lemma {:induction false} ListingExists(table: Table)
    ensures exists rows :: IsListing(table, rows)
    decreases |table|
  {
    if table == map[] {
      assert IsListing(table, []);
    } else {
      var key :| key in table;
      assert (table - {key}).Keys == table.Keys - {key};
      ListingExists(table - {key});
      ListingWithKey(table, key);
    }
  }

  ghost predicate AgreeBelow(a: seq<KeyedRow>, b: seq<KeyedRow>, i: nat) {
    i <= |a| && i <= |b| && forall j :: 0 <= j < i ==> a[j] == b[j]
  }

  lemma AgreeSymmetric(a: seq<KeyedRow>, b: seq<KeyedRow>, i: nat)
    requires AgreeBelow(a, b, i)
    ensures AgreeBelow(b, a, i)
  {
  }

  lemma ListedSomewhere(table: Table, x: KeyedRow, rows: seq<KeyedRow>) returns (p: nat)
    requires x.publicKey in table && table[x.publicKey] == x.row && RowsOfTable(table, rows) && Covers(table, rows)
    ensures p < |rows| && rows[p] == x
  {
    assert Lists(rows, x.publicKey);
    p :| 0 <= p < |rows| && rows[p].publicKey == x.publicKey;
  }

  /** If two listings agree below `i`, the next row of one comes at `i` or later in the other, so
      what the other has at `i` ranks no higher. */
  lemma PlacedFrom(table: Table, a: seq<KeyedRow>, b: seq<KeyedRow>, i: nat)
    requires IsListing(table, a) && IsListing(table, b)
    requires i < |a| && AgreeBelow(a, b, i)
    ensures i < |b| && b[i].row.rank <= a[i].row.rank
  {
    var p := ListedSomewhere(table, a[i], b);
    NotBelow(a, b, i, p);
    RankedBelow(b, i, p);
  }

  lemma NotBelow(a: seq<KeyedRow>, b: seq<KeyedRow>, i: nat, p: nat)
    requires KeysDiffer(a) && AgreeBelow(a, b, i) && i < |a| && p < |b| && b[p] == a[i]
    ensures i <= p
  {
  }

  lemma RankedBelow(rows: seq<KeyedRow>, i: nat, p: nat)
    requires SortedByRank(rows) && i <= p < |rows|
    ensures rows[i].row.rank <= rows[p].row.rank
  {
  }

  lemma SameRankSameRow(table: Table, a: seq<KeyedRow>, b: seq<KeyedRow>, i: nat)
    requires RanksDistinct(table) && RowsOfTable(table, a) && RowsOfTable(table, b)
    requires i < |a| && i < |b| && a[i].row.rank == b[i].row.rank
    ensures a[i] == b[i]
  {
    assert a[i].publicKey in table && b[i].publicKey in table;
  }

  lemma NextAgrees(table: Table, a: seq<KeyedRow>, b: seq<KeyedRow>, i: nat)
    requires RanksDistinct(table) && IsListing(table, a) && IsListing(table, b)
    requires i < |a| && AgreeBelow(a, b, i)
    ensures AgreeBelow(a, b, i + 1)
  {
    PlacedFrom(table, a, b, i);
    AgreeSymmetric(a, b, i);
    PlacedFrom(table, b, a, i);
    SameRankSameRow(table, a, b, i);
  }

  lemma {:induction false} ListingsAgree(table: Table, a: seq<KeyedRow>, b: seq<KeyedRow>, n: nat)
    requires RanksDistinct(table) && IsListing(table, a) && IsListing(table, b)
    requires n <= |a|
    ensures AgreeBelow(a, b, n)
    decreases n
  {
    if n > 0 {
      ListingsAgree(table, a, b, n - 1);
      NextAgrees(table, a, b, n - 1);
    }
  }

  function Swap(rows: seq<KeyedRow>, i: nat, j: nat): (r: seq<KeyedRow>)
    requires i < |rows| && j < |rows|
    ensures |r| == |rows| && r[i] == rows[j] && r[j] == rows[i]
    ensures forall m :: 0 <= m < |rows| && m != i && m != j ==> r[m] == rows[m]
  {
    rows[i := rows[j]][j := rows[i]]
  }

  lemma SwapListing(table: Table, rows: seq<KeyedRow>, i: nat, j: nat)
    requires IsListing(table, rows) && i < |rows| && j < |rows| && rows[i].row.rank == rows[j].row.rank
    ensures IsListing(table, Swap(rows, i, j))
  {
    var r := Swap(rows, i, j);
    assert SortedByRank(r) by {
      assert forall m :: 0 <= m < |rows| ==> r[m].row.rank == rows[m].row.rank;
    }
    SwapKeysDiffer(rows, i, j);
    forall k | k in table ensures Lists(r, k) {
      assert Lists(rows, k);
      var m :| 0 <= m < |rows| && rows[m].publicKey == k;
      assert r[if m == i then j else if m == j then i else m].publicKey == k;
    }
  }

  lemma SwapKeysDiffer(rows: seq<KeyedRow>, i: nat, j: nat)
    requires KeysDiffer(rows) && i < |rows| && j < |rows|
    ensures KeysDiffer(Swap(rows, i, j))
  {
    var r := Swap(rows, i, j);
    forall a, b | 0 <= a < b < |r| ensures r[a].publicKey != r[b].publicKey {
      var a' := if a == i then j else if a == j then i else a;
      var b' := if b == i then j else if b == j then i else b;
      assert r[a] == rows[a'] && r[b] == rows[b'] && a' != b';
    }
  }

  /** Two rows of one rank can be listed either way round. */
  lemma TieGivesTwoListings(table: Table, k: string, l: string, rows: seq<KeyedRow>)
    requires k in table && l in table && k != l && table[k].rank == table[l].rank
    requires IsListing(table, rows)
    ensures exists other :: IsListing(table, other) && other != rows
  {
    assert Lists(rows, k) && Lists(rows, l);
    var i :| 0 <= i < |rows| && rows[i].publicKey == k;
    var j :| 0 <= j < |rows| && rows[j].publicKey == l;
    SwapListing(table, rows, i, j);
    assert Swap(rows, i, j)[i] != rows[i];
  }

  lemma DistinctRanksGiveOneListing(table: Table, a: seq<KeyedRow>, b: seq<KeyedRow>)
    requires RanksDistinct(table) && IsListing(table, a) && IsListing(table, b)
    ensures a == b
  {
    ListingLength(table, a);
    ListingLength(table, b);
    ListingsAgree(table, a, b, |a|);
  }

  /** ORDER BY rank has one result exactly when no two rows share a rank. */
  lemma OrderIsDeterministicIff(table: Table)
    ensures (forall a, b :: IsListing(table, a) && IsListing(table, b) ==> a == b) <==> RanksDistinct(table)
  {
    if RanksDistinct(table) {
      forall a, b | IsListing(table, a) && IsListing(table, b) ensures a == b {
        DistinctRanksGiveOneListing(table, a, b);
      }
    } else {
      var k, l :| k in table && l in table && k != l && table[k].rank == table[l].rank;
      ListingExists(table);
      var rows: seq<KeyedRow> :| IsListing(table, rows);
      TieGivesTwoListings(table, k, l, rows);
    }
  }

  // ---------------------------------------------------------------- the invariant of the table

  function RowKeys(rows: seq<KeyedRow>): set<string> {
    set i | 0 <= i < |rows| :: rows[i].publicKey
  }

  lemma {:induction false} DistinctRowCount(rows: seq<KeyedRow>)
    requires KeysDiffer(rows)
    ensures |RowKeys(rows)| == |rows|
  {
    if rows != [] {
      var n := |rows| - 1;
      DistinctRowCount(rows[..n]);
      assert RowKeys(rows) == RowKeys(rows[..n]) + {rows[n].publicKey};
      assert rows[n].publicKey !in RowKeys(rows[..n]);
    }
  }

  lemma ListingLength(table: Table, rows: seq<KeyedRow>)
    requires IsListing(table, rows)
    ensures |rows| == |table|
  {
    DistinctRowCount(rows);
    forall k | k in table ensures k in RowKeys(rows) { assert Lists(rows, k); }
    assert RowKeys(rows) == table.Keys;
  }

  /** The ranks of a well-ranked table's listing are its positions. */
  lemma {:induction false} WellRankedPosition(table: Table, rows: seq<KeyedRow>, i: nat)
    requires WellRanked(table) && IsListing(table, rows) && i < |rows|
    ensures rows[i].row.rank == i
  {
    ListingLength(table, rows);
    StrictlyIncreasingBelow(rows, i, |table|);
  }

  lemma {:induction false} StrictlyIncreasingBelow(rows: seq<KeyedRow>, i: nat, n: nat)
    requires |rows| == n && i < n
    requires forall j :: 0 <= j < n ==> 0 <= rows[j].row.rank < n
    requires forall j, k :: 0 <= j < k < n ==> rows[j].row.rank < rows[k].row.rank
    ensures rows[i].row.rank == i
  {
    var j := i;
    while j > 0
      invariant 0 <= j <= i
      invariant rows[i].row.rank >= rows[j].row.rank + (i - j)
    {
      j := j - 1;
    }
    j := i;
    while j < n - 1
      invariant i <= j < n
      invariant rows[i].row.rank <= rows[j].row.rank - (j - i)
    {
      j := j + 1;
    }
  }

  /** Well-ranked tables are exactly the tables that store some list of nodes. */
  lemma WellRankedIffRepresents(table: Table)
    ensures WellRanked(table) <==> exists nodes :: Represents(table, nodes)
  {
    if WellRanked(table) {
      WellRankedRepresents(table);
    }
    if nodes :| Represents(table, nodes) {
      RepresentedIsWellRanked(table, nodes);
    }
  }

  lemma WellRankedRepresents(table: Table)
    requires WellRanked(table)
    ensures exists nodes :: Represents(table, nodes)
  {
    ListingExists(table);
    var rows: seq<KeyedRow> :| IsListing(table, rows);
    forall i | 0 <= i < |rows| ensures rows[i].row.rank == i { WellRankedPosition(table, rows, i); }
    PositionalListingRepresents(table, rows);
  }

  function ReadNode(r: KeyedRow): Node {
    Node(r.publicKey, r.row.alias, if r.row.capacitySats >= 0 then r.row.capacitySats else 0, r.row.firstSeen)
  }

  lemma PositionalListingRepresents(table: Table, rows: seq<KeyedRow>)
    requires RowsOfTable(table, rows) && Covers(table, rows)
    requires forall i :: 0 <= i < |rows| ==> rows[i].row.rank == i && rows[i].row.capacitySats >= 0
    ensures Represents(table, seq(|rows|, i requires 0 <= i < |rows| => ReadNode(rows[i])))
  {
    var nodes := seq(|rows|, i requires 0 <= i < |rows| => ReadNode(rows[i]));
    forall k | k in table ensures Mentions(nodes, k) {
      assert Lists(rows, k);
      var i :| 0 <= i < |rows| && rows[i].publicKey == k;
      assert nodes[i].publicKey == k;
    }
  }

  lemma RepresentedIsWellRanked(table: Table, nodes: seq<Node>)
    requires Represents(table, nodes)
    ensures WellRanked(table)
    ensures |table| == |nodes|
  {
    ListingExists(table);
    var rows: seq<KeyedRow> :| IsListing(table, rows);
    ListingLength(table, rows);
    if |rows| > 0 { ListingPosition(table, nodes, rows, |rows| - 1); }
    if |nodes| > 0 { ListingPosition(table, nodes, rows, |nodes| - 1); }
    forall k | k in table ensures exists i :: 0 <= i < |nodes| && nodes[i].publicKey == k && table[k].rank == i {
      assert Mentions(nodes, k);
    }
  }

  /** A table stores at most one list. */
  lemma RepresentsIsFunctional(table: Table, a: seq<Node>, b: seq<Node>)
    requires Represents(table, a) && Represents(table, b)
    ensures a == b
  {
    ListingExists(table);
    var rows :| IsListing(table, rows);
    ListingReadsBack(table, a, rows);
    ListingReadsBack(table, b, rows);
  }
}
