/** `GET /nodes`: the stored list as the public response. */
module Http {
  import opened Domain
  import opened BtcFormat

  datatype NodeResponse = NodeResponse(publicKey: string, alias: string, capacity: string, firstSeen: string)

  /** chrono's RFC 3339 rendering is arbitrary here. */
  type TimestampFormat = int -> string

  datatype Reply = Ok200(body: seq<NodeResponse>) | Error500(message: string)

  const INTERNAL_ERROR := "internal server error"

  function ToResponse(format: TimestampFormat, node: Node): NodeResponse {
    NodeResponse(node.publicKey, node.alias, FormatBtc(node.capacitySats), format(node.firstSeen))
  }

  function Respond(format: TimestampFormat, listed: Result<seq<Node>, StorageError>): Reply {
    match listed
    case Err(_) => Error500(INTERNAL_ERROR)
    case Ok(nodes) => Ok200(seq(|nodes|, i requires 0 <= i < |nodes| => ToResponse(format, nodes[i])))
  }

  /** A client reads this node's own values out of the response, the capacity to the last sat. */
  ghost predicate Shows(format: TimestampFormat, node: Node, response: NodeResponse) {
    && response.publicKey == node.publicKey
    && response.alias == node.alias
    && ParseBtc(response.capacity) == Some(node.capacitySats)
    && response.firstSeen == format(node.firstSeen)
  }

  ghost predicate ShowsAll(format: TimestampFormat, nodes: seq<Node>, reply: Reply) {
    && reply.Ok200?
    && |reply.body| == |nodes|
    && forall i :: 0 <= i < |nodes| ==> Shows(format, nodes[i], reply.body[i])
  }

  /** A list that was read is shown whole, and only then is the answer a 200; any failure is the same
      generic 500, which tells a client nothing about the error. */
  lemma RespondShowsAll(format: TimestampFormat, listed: Result<seq<Node>, StorageError>)
    ensures listed.Ok? ==> ShowsAll(format, listed.value, Respond(format, listed))
    ensures Respond(format, listed).Ok200? <==> listed.Ok?
    ensures listed.Err? ==> Respond(format, listed) == Error500("internal server error")
  {
    if listed.Ok? {
      var nodes := listed.value;
      forall i | 0 <= i < |nodes| ensures Shows(format, nodes[i], Respond(format, listed).body[i]) {
        FormatThenParse(nodes[i].capacitySats);
      }
    }
  }

  /** A response determines the list it shows, as far as timestamps can be told apart. */
  lemma ShowsAllIsInjective(format: TimestampFormat, a: seq<Node>, b: seq<Node>, reply: Reply)
    requires ShowsAll(format, a, reply) && ShowsAll(format, b, reply)
    requires forall x, y :: format(x) == format(y) ==> x == y
    ensures a == b
  {
    forall i | 0 <= i < |a| ensures a[i] == b[i] {
      assert Shows(format, a[i], reply.body[i]) && Shows(format, b[i], reply.body[i]);
    }
  }
}
