/** The mempool source: record validation, `parse_records` and the tail of `fetch_nodes`. */
module Source {
  import opened Domain

  /** One raw element of the response array. */
  type Json = string

  datatype Dto = Dto(publicKey: string, alias: string, capacity: I64, firstSeen: I64)

  datatype ValidationError =
    | EmptyPublicKey
    | NegativeCapacity(capacity: I64)
    | InvalidFirstSeen(firstSeen: I64)

  /** What the service takes from its libraries: serde decodes a record or fails, and
      chrono accepts a unix time or does not. Both are arbitrary. */
  datatype Libraries = Libraries(decode: Json -> Option<Dto>, validTimestamp: I64 -> bool)

  function NodeFromDto(lib: Libraries, dto: Dto): Result<Node, ValidationError> {
    if dto.publicKey == "" then Err(EmptyPublicKey)
    else if dto.capacity < 0 then Err(NegativeCapacity(dto.capacity))
    else if !lib.validTimestamp(dto.firstSeen) then Err(InvalidFirstSeen(dto.firstSeen))
    else Ok(Node(dto.publicKey, dto.alias, dto.capacity, dto.firstSeen))
  }

  /** A record is refused for the first of these reasons that applies: no key, a negative capacity,
      a timestamp chrono does not know. */
  lemma ValidationIsExact(lib: Libraries, dto: Dto)
    ensures NodeFromDto(lib, dto) == Err(EmptyPublicKey) <==> |dto.publicKey| == 0
    ensures NodeFromDto(lib, dto) == Err(NegativeCapacity(dto.capacity)) <==> |dto.publicKey| > 0 && dto.capacity < 0
    ensures NodeFromDto(lib, dto) == Err(InvalidFirstSeen(dto.firstSeen)) <==>
            |dto.publicKey| > 0 && dto.capacity >= 0 && !lib.validTimestamp(dto.firstSeen)
    ensures NodeFromDto(lib, dto).Ok? <==> |dto.publicKey| > 0 && dto.capacity >= 0 && lib.validTimestamp(dto.firstSeen)
  {
  }

  /** The closure of `filter_map`: malformed and invalid records are dropped. */
  function ParseRecord(lib: Libraries, record: Json): Option<Node> {
    match lib.decode(record)
    case None => None
    case Some(dto) =>
      match NodeFromDto(lib, dto)
      case Ok(node) => Some(node)
      case Err(_) => None
  }

  function ParseRecords(lib: Libraries, records: seq<Json>): seq<Node> {
    if records == [] then []
    else
      match ParseRecord(lib, records[0])
      case Some(node) => [node] + ParseRecords(lib, records[1..])
      case None => ParseRecords(lib, records[1..])
  }

  datatype Body = BodyFailed | NotAnArray | Records(records: seq<Json>)

  /** What one GET to the source comes back with. */
  datatype Exchange = SendFailed | Answered(status: nat, body: Body)

  /** The status is checked before the body is looked at. */
  function FetchNodes(lib: Libraries, exchange: Exchange): Result<seq<Node>, SourceError> {
    match exchange
    case SendFailed => Err(Request)
    case Answered(status, body) =>
      if !(200 <= status < 300) then Err(Status(status))
      else
        match body
        case BodyFailed => Err(Request)
        case NotAnArray => Err(Decode)
        case Records(records) => Ok(ParseRecords(lib, records))
  }

  /** The exchange came back with a 2xx status and a JSON array. */
  predicate IsGoodAnswer(exchange: Exchange) {
    exchange.Answered? && 200 <= exchange.status <= 299 && exchange.body.Records?
  }

  /** What a fetch gives, seen from the exchange: the parsed array on a good answer; the status on any
      answer outside 2xx, whatever its body; otherwise a failed request or a body that is no array. */
  lemma FetchIsExact(lib: Libraries, exchange: Exchange)
    ensures FetchNodes(lib, exchange).Ok? <==> IsGoodAnswer(exchange)
    ensures IsGoodAnswer(exchange) ==> FetchNodes(lib, exchange).value == ParseRecords(lib, exchange.body.records)
    ensures forall c :: FetchNodes(lib, exchange) == Err(Status(c)) <==>
              exchange.Answered? && exchange.status == c && (c < 200 || 300 <= c)
    ensures FetchNodes(lib, exchange) == Err(Request) <==>
            || exchange.SendFailed?
            || (200 <= exchange.status <= 299 && exchange.body.BodyFailed?)
    ensures FetchNodes(lib, exchange) == Err(Decode) <==>
            exchange.Answered? && 200 <= exchange.status <= 299 && exchange.body.NotAnArray?
  {
  }

  // ---------------------------------------------------------------- what is kept

  predicate Accepted(lib: Libraries, record: Json) {
    && lib.decode(record).Some?
    && var dto := lib.decode(record).value;
       dto.publicKey != "" && dto.capacity >= 0 && lib.validTimestamp(dto.firstSeen)
  }

  /** `indices` is, in increasing order, exactly the set of accepted positions. */
  ghost predicate ExactlyAccepted(lib: Libraries, records: seq<Json>, indices: seq<int>) {
    && (forall a, b :: 0 <= a < b < |indices| ==> indices[a] < indices[b])
    && (forall a :: 0 <= a < |indices| ==> 0 <= indices[a] < |records|)
    && (forall i :: 0 <= i < |records| ==> (i in indices <==> Accepted(lib, records[i])))
  }

  /** The node is the record's own four fields, with the same numbers. */
  predicate Carries(lib: Libraries, record: Json, node: Node) {
    && lib.decode(record).Some?
    && var dto := lib.decode(record).value;
       && node.publicKey == dto.publicKey && node.alias == dto.alias
       && node.capacitySats == dto.capacity && node.firstSeen == dto.firstSeen
  }

  /** The parsed nodes are the accepted records, all of them, in source order. */
  ghost predicate IsAcceptedSubsequence(lib: Libraries, records: seq<Json>, indices: seq<int>, nodes: seq<Node>) {
    && ExactlyAccepted(lib, records, indices)
    && |nodes| == |indices|
    && forall a :: 0 <= a < |nodes| ==> Carries(lib, records[indices[a]], nodes[a])
  }

  lemma ParseKeepsAcceptedInOrder(lib: Libraries, records: seq<Json>)
    ensures exists indices :: IsAcceptedSubsequence(lib, records, indices, ParseRecords(lib, records))
  {
    var indices := AcceptedIndices(lib, records);
  }

  lemma {:induction false} AcceptedIndices(lib: Libraries, records: seq<Json>) returns (indices: seq<int>)
    ensures IsAcceptedSubsequence(lib, records, indices, ParseRecords(lib, records))
  {
    if records == [] {
      indices := [];
    } else {
      var front, last := records[..|records| - 1], records[|records| - 1];
      indices := AcceptedIndices(lib, front);
      indices := OneMoreRecord(lib, front, last, indices);
      assert records == front + [last];
    }
  }

  lemma OneMoreRecord(lib: Libraries, front: seq<Json>, last: Json, indices: seq<int>) returns (more: seq<int>)
    requires IsAcceptedSubsequence(lib, front, indices, ParseRecords(lib, front))
    ensures IsAcceptedSubsequence(lib, front + [last], more, ParseRecords(lib, front + [last]))
  {
    more := if Accepted(lib, last) then indices + [|front|] else indices;
    AcceptedGrows(lib, front, last, indices, more);
    CarriedGrows(lib, front, last, indices, more);
  }

  lemma ParsedCarries(lib: Libraries, record: Json)
    requires Accepted(lib, record)
    ensures ParseRecord(lib, record).Some? && Carries(lib, record, ParseRecord(lib, record).value)
  {
  }

  lemma ParseSnoc(lib: Libraries, front: seq<Json>, last: Json)
    ensures Accepted(lib, last) <==> ParseRecord(lib, last).Some?
    ensures ParseRecords(lib, front + [last]) ==
            ParseRecords(lib, front) + if Accepted(lib, last) then [ParseRecord(lib, last).value] else []
  {
    ParseConcat(lib, front, [last]);
    assert [last][1..] == [];
  }

  lemma CarriedGrows(lib: Libraries, front: seq<Json>, last: Json, indices: seq<int>, more: seq<int>)
    requires IsAcceptedSubsequence(lib, front, indices, ParseRecords(lib, front))
    requires more == if Accepted(lib, last) then indices + [|front|] else indices
    requires ExactlyAccepted(lib, front + [last], more)
    ensures IsAcceptedSubsequence(lib, front + [last], more, ParseRecords(lib, front + [last]))
  {
    ParseSnoc(lib, front, last);
    var nodes := ParseRecords(lib, front + [last]);
    forall a | 0 <= a < |nodes| ensures Carries(lib, (front + [last])[more[a]], nodes[a]) {
      if a < |indices| {
        CarriedBefore(lib, front, last, indices, a);
        assert more[a] == indices[a] && nodes[a] == ParseRecords(lib, front)[a];
      } else {
        ParsedCarries(lib, last);
      }
    }
  }

  lemma CarriedBefore(lib: Libraries, front: seq<Json>, last: Json, indices: seq<int>, a: nat)
    requires IsAcceptedSubsequence(lib, front, indices, ParseRecords(lib, front)) && a < |indices|
    ensures 0 <= indices[a] < |front|
    ensures Carries(lib, (front + [last])[indices[a]], ParseRecords(lib, front)[a])
  {
  }

  lemma AcceptedGrows(lib: Libraries, front: seq<Json>, last: Json, indices: seq<int>, more: seq<int>)
    requires ExactlyAccepted(lib, front, indices)
    requires more == if Accepted(lib, last) then indices + [|front|] else indices
    ensures ExactlyAccepted(lib, front + [last], more)
  {
    assert forall i :: i in more <==> i in indices || (i == |front| && Accepted(lib, last));
  }

  lemma {:induction false} ParseConcat(lib: Libraries, xs: seq<Json>, ys: seq<Json>)
    ensures ParseRecords(lib, xs + ys) == ParseRecords(lib, xs) + ParseRecords(lib, ys)
  {
    if xs == [] {
      assert xs + ys == ys;
    } else {
      assert (xs + ys)[1..] == xs[1..] + ys;
      ParseConcat(lib, xs[1..], ys);
    }
  }

  /** Changing one record changes only that record's own contribution. */
  lemma ParseIsLocal(lib: Libraries, records: seq<Json>, i: nat, record: Json)
    requires i < |records|
    ensures ParseRecords(lib, records[i := record]) ==
            ParseRecords(lib, records[..i]) + ParseRecords(lib, [record]) + ParseRecords(lib, records[i + 1..])
  {
    assert records[i := record] == records[..i] + ([record] + records[i + 1..]);
    ParseConcat(lib, records[..i], [record] + records[i + 1..]);
    ParseConcat(lib, [record], records[i + 1..]);
  }

  function AcceptedPositions(lib: Libraries, records: seq<Json>): set<int> {
    set i | 0 <= i < |records| && Accepted(lib, records[i])
  }

  /** There are as many nodes as accepted records. */
  lemma {:induction false} ParsedCount(lib: Libraries, records: seq<Json>)
    ensures |ParseRecords(lib, records)| == |AcceptedPositions(lib, records)|
  {
    if records != [] {
      var n := |records| - 1;
      var front := records[..n];
      ParsedCount(lib, front);
      assert records == front + [records[n]];
      ParseSnoc(lib, front, records[n]);
      OneMorePosition(lib, front, records[n]);
    }
  }

  lemma OneMorePosition(lib: Libraries, front: seq<Json>, last: Json)
    ensures AcceptedPositions(lib, front + [last]) ==
            AcceptedPositions(lib, front) + if Accepted(lib, last) then {|front|} else {}
    ensures |front| !in AcceptedPositions(lib, front)
  {
  }

  function Rejected(lib: Libraries, records: seq<Json>): set<int> {
    set i | 0 <= i < |records| && !Accepted(lib, records[i])
  }

  /** The logged `received - nodes.len()` never underflows: it counts the rejected records. */
  lemma {:induction false} SkippedCountIsExact(lib: Libraries, records: seq<Json>)
    ensures |records| - |ParseRecords(lib, records)| == |Rejected(lib, records)|
  {
    if records != [] {
      var n := |records| - 1;
      var front := records[..n];
      SkippedCountIsExact(lib, front);
      assert records == front + [records[n]];
      ParseConcat(lib, front, [records[n]]);
      assert forall i :: 0 <= i < n ==> front[i] == records[i];
      if Accepted(lib, records[n]) {
        assert Rejected(lib, records) == Rejected(lib, front);
      } else {
        assert Rejected(lib, records) == Rejected(lib, front) + {n};
      }
    }
  }

  /** Every parsed node has a key, a capacity that fits `i64` and a valid timestamp. */
  predicate Importable(lib: Libraries, node: Node) {
    && node.publicKey != "" && node.capacitySats <= 0x7FFF_FFFF_FFFF_FFFF
    && -I64_MAX - 1 <= node.firstSeen <= I64_MAX && lib.validTimestamp(node.firstSeen)
  }

  lemma {:induction false} ParsedNodesAreImportable(lib: Libraries, records: seq<Json>)
    ensures forall a :: 0 <= a < |ParseRecords(lib, records)| ==> Importable(lib, ParseRecords(lib, records)[a])
  {
    if records != [] {
      ParsedNodesAreImportable(lib, records[1..]);
    }
  }
}
