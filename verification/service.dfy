/** The service's message dispatcher: routes a request by its type tag. */
module Service {
  import opened Wrappers
  import opened Proto
  import TcpServer

  const PingType: string := "ping"
  const ListConnectionsType: string := "list_connections"
  const UnknownTypePrefix: string := "unknown type: "

  /** The types the dispatcher answers with success. */
  predicate IsKnownType(typ: string) {
    typ == PingType || typ == ListConnectionsType
  }

  /** Routes `msg` by its type. The error half of the result is the Go
      handler's `error`, which this dispatcher never uses. */
  function HandleMessage(msg: Message): (r: Result<Response, string>)
    ensures r.Success?
    ensures WellFormed(r.value)
    ensures r.value.ok <==> IsKnownType(msg.typ)
    ensures r.value.ok ==> r.value.message == ""
    ensures msg.typ == PingType ==> r.value.data == Pong(PingResponse("pong"))
    ensures msg.typ == ListConnectionsType ==> r.value.data == Connections(ListConnectionsResponse([]))
    ensures !IsKnownType(msg.typ) ==>
              && r.value.code == CodeUnknownType
              && r.value.message == UnknownTypePrefix + msg.typ
              && r.value.data == NoData
  {
    if msg.typ == PingType then
      Success(Response(CodeOK, true, "", Pong(PingResponse("pong"))))
    else if msg.typ == ListConnectionsType then
      Success(Response(CodeOK, true, "", Connections(ListConnectionsResponse([]))))
    else
      Success(Response(CodeUnknownType, false, UnknownTypePrefix + msg.typ, NoData))
  }

  /** The answer depends on the type tag only; the payload is never read. */
  lemma HandleMessageIgnoresData(typ: string, d1: Bytes, d2: Bytes)
    ensures HandleMessage(Message(typ, d1)) == HandleMessage(Message(typ, d2))
  {
  }

  /** An unknown-type answer names the offending type: stripping the fixed
      prefix from the message gives the type back, so distinct unknown types
      get distinct answers. */
  lemma UnknownTypeRecoverable(msg: Message)
    requires !IsKnownType(msg.typ)
    ensures var m := HandleMessage(msg).value.message;
            && |m| >= |UnknownTypePrefix|
            && m[..|UnknownTypePrefix|] == UnknownTypePrefix
            && m[|UnknownTypePrefix|..] == msg.typ
  {
    var m := HandleMessage(msg).value.message;
    assert m == UnknownTypePrefix + msg.typ;
  }

  /** With the service's dispatcher as handler, every response is well formed
      and none is a server error: the only error codes that appear are 400
      (undecodable line) and 404 (unknown type). */
  lemma ServedNeverServerError(stream: Bytes, decode: TcpServer.Decoder)
    ensures forall r :: r in TcpServer.Responses(stream, decode, HandleMessage) ==>
              && WellFormed(r)
              && r.code != CodeServerError
              && (!r.ok ==> r.code == CodeBadRequest || r.code == CodeUnknownType)
  {
  }
}
