/** The wire protocol shared by client and service: one JSON-encoded
    `Message` per line in, one JSON-encoded `Response` per line out. */
module Proto {

  /** A byte on the wire. */
  newtype byte = x: int | 0 <= x < 256

  type Bytes = seq<byte>

  /** The frame delimiter, `'\n'`. */
  const NL: byte := 10

  /** A request: a type tag and an optional raw JSON payload. An empty
      payload is the absent one (`omitempty`). */
  datatype Message = Message(typ: string, data: Bytes)

  /** Payload answering a ping. */
  datatype PingResponse = PingResponse(message: string)

  /** Request to establish a connection; carried as `Message.data`. */
  datatype ConnectRequest = ConnectRequest(id: string, host: string, port: int,
                                           user: string, password: string, keyPath: string)

  /** Description of one connection; `state` is "connected" or "disconnected". */
  datatype ConnectResponse = ConnectResponse(id: string, state: string)

  datatype ListConnectionsResponse = ListConnectionsResponse(connections: seq<ConnectResponse>)

  /** The dynamically typed `Response.Data`: absent, one of the payloads the
      service produces, or an opaque JSON value as a client decodes it. */
  datatype Payload =
    | NoData
    | Pong(ping: PingResponse)
    | Connections(list: ListConnectionsResponse)
    | Opaque(json: Bytes)

  /** The uniform response envelope. */
  datatype Response = Response(code: int, ok: bool, message: string, data: Payload)

  const CodeOK: int := 0
  const CodeBadRequest: int := 400
  const CodeUnknownType: int := 404
  const CodeServerError: int := 500

  /** The status codes the protocol defines. */
  const StatusCodes: set<int> := {CodeOK, CodeBadRequest, CodeUnknownType, CodeServerError}

  /** Code 0 is success; every other code is an error. */
  predicate IsSuccess(code: int) {
    code == CodeOK
  }

  /** A response whose success flag agrees with its code, and whose code is
      one the protocol defines. */
  predicate WellFormed(r: Response) {
    && r.code in StatusCodes
    && (r.ok <==> IsSuccess(r.code))
  }

  /** The four codes are pairwise distinct, and exactly one of them is success. */
  lemma StatusCodesDistinct()
    ensures |StatusCodes| == 4
    ensures IsSuccess(CodeOK)
    ensures forall c :: c in StatusCodes && c != CodeOK ==> !IsSuccess(c)
    ensures forall c :: c in StatusCodes ==> c == 0 || c == 400 || c == 404 || c == 500
  {
  }
}
