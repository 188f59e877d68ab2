/** The per-connection server loop: read newline-terminated requests until the
    stream ends, answer each one with exactly one newline-terminated response. */
module TcpServer {
  import opened Wrappers
  import opened Proto
  import opened Framing

  const InvalidJson: string := "invalid json"

  /** Request decoding (`json.Unmarshal` into a `Message`): partial. */
  type Decoder = Bytes -> Option<Message>
  /** The request handler; `Failure(text)` is a Go `error` with that text. */
  type Handler = Message -> Result<Response, string>
  /** Response encoding (`json.Marshal`): partial, since an arbitrary `Data`
      value may not be encodable. */
  type Marshaller = Response -> Option<Bytes>

  /** An encoder whose every output is a single unframed JSON value: it
      always succeeds and never emits a raw newline. */
  ghost predicate FrameSafe(marshal: Marshaller) {
    forall v :: marshal(v).Some? && NL !in marshal(v).value
  }

  /** The bytes `writeJSON` hands to the connection: the encoding followed by
      one newline, or nothing at all when encoding fails. */
  function WriteJSON(marshal: Marshaller, v: Response): (frame: Bytes)
    ensures marshal(v).None? <==> frame == []
    ensures marshal(v).Some? ==> frame[..|frame| - 1] == marshal(v).value
    ensures marshal(v).Some? && NL !in marshal(v).value ==> IsLine(frame)
  {
    match marshal(v)
    case None => []
    case Some(b) =>
      assert (b + [NL])[..|b|] == b;
      b + [NL]
  }

  /** The answer to one complete request line. */
  function Respond(line: Bytes, decode: Decoder, handler: Handler): (r: Response)
    ensures decode(line).None? ==>
              r == Response(CodeBadRequest, false, InvalidJson, NoData)
    ensures decode(line).Some? && handler(decode(line).value).Failure? ==>
              r == Response(CodeServerError, false, handler(decode(line).value).error, NoData)
    ensures decode(line).Some? && handler(decode(line).value).Success? ==>
              r == handler(decode(line).value).value
  {
    match decode(line)
    case None => Response(CodeBadRequest, false, InvalidJson, NoData)
    case Some(msg) =>
      match handler(msg)
      case Failure(e) => Response(CodeServerError, false, e, NoData)
      case Success(resp) => resp
  }

  /** Definition: the responses a connection produces, one per complete
      line, in line order. */
  function Responses(stream: Bytes, decode: Decoder, handler: Handler): seq<Response> {
    var ls := Lines(stream);
    seq(|ls|, k requires 0 <= k < |ls| => Respond(ls[k], decode, handler))
  }

  /** Definition: the frame `writeJSON` emits for each response, in order. */
  function Frames(marshal: Marshaller, rs: seq<Response>): seq<Bytes> {
    seq(|rs|, k requires 0 <= k < |rs| => WriteJSON(marshal, rs[k]))
  }

  lemma {:induction false} ConcatSnoc(fs: seq<Bytes>, f: Bytes)
    ensures Concat(fs + [f]) == Concat(fs) + f
    decreases |fs|
  {
    if |fs| == 0 {
      assert fs + [f] == [f];
      assert Concat([f]) == f + Concat([]);
    } else {
      assert (fs + [f])[1..] == fs[1..] + [f];
      ConcatSnoc(fs[1..], f);
    }
  }

  lemma FramesSnoc(marshal: Marshaller, rs: seq<Response>, r: Response)
    ensures Concat(Frames(marshal, rs + [r])) == Concat(Frames(marshal, rs)) + WriteJSON(marshal, r)
  {
    assert Frames(marshal, rs + [r]) == Frames(marshal, rs) + [WriteJSON(marshal, r)];
    ConcatSnoc(Frames(marshal, rs), WriteJSON(marshal, r));
  }

  /** The loop of `handle` over the bytes a connection delivers before EOF or a
      read error. `responses` are the responses in the order written and
      `written` the bytes handed to the connection; write errors are ignored
      by the source, so they can neither stop nor alter the loop. */
  method Handle(stream: Bytes, decode: Decoder, handler: Handler, marshal: Marshaller)
    returns (responses: seq<Response>, written: Bytes)
    ensures |responses| == CountNewlines(stream)
    ensures responses == Responses(stream, decode, handler)
    ensures written == Concat(Frames(marshal, responses))
  {
    var rest := stream;
    ghost var done: seq<Bytes> := [];
    responses := [];
    written := [];
    while FindNewline(rest) < |rest|
      invariant Lines(stream) == done + Lines(rest)
      invariant |responses| == |done|
      invariant forall k :: 0 <= k < |done| ==> responses[k] == Respond(done[k], decode, handler)
      invariant written == Concat(Frames(marshal, responses))
      decreases |rest|
    {
      var i := FindNewline(rest);
      var line := rest[..i + 1];
      ghost var before := rest;
      SplitFirst(rest);
      rest := rest[i + 1..];
      assert Lines(before) == [line] + Lines(rest);
      done := done + [line];
      assert Lines(stream) == done + Lines(rest);
      var resp;
      match decode(line) {
        case None =>
          resp := Response(CodeBadRequest, false, InvalidJson, NoData);
        case Some(msg) =>
          match handler(msg) {
            case Failure(e) =>
              resp := Response(CodeServerError, false, e, NoData);
            case Success(r) =>
              resp := r;
          }
      }
      assert resp == Respond(line, decode, handler);
      FramesSnoc(marshal, responses, resp);
      responses := responses + [resp];
      written := written + WriteJSON(marshal, resp);
    }
    assert Lines(rest) == [];
    assert done == Lines(stream);
    LinesCount(stream);
  }

  /** Framing: with an encoder that emits no raw newline, the output splits
      back into exactly one frame per complete input line, each frame the
      encoding of the matching response, with nothing left over. */
  lemma OneFramePerLine(stream: Bytes, decode: Decoder, handler: Handler, marshal: Marshaller)
    requires FrameSafe(marshal)
    ensures var rs := Responses(stream, decode, handler);
            var out := Lines(Concat(Frames(marshal, rs)));
            && |out| == |rs| == CountNewlines(stream)
            && (forall k :: 0 <= k < |out| ==> out[k] == marshal(rs[k]).value + [NL])
            && Trailing(Concat(Frames(marshal, rs))) == []
  {
    var rs := Responses(stream, decode, handler);
    var fs := Frames(marshal, rs);
    forall k | 0 <= k < |fs| ensures IsLine(fs[k]) {
      assert fs[k] == WriteJSON(marshal, rs[k]);
    }
    LinesOfFrames(fs);
    LinesCount(stream);
  }

  /** Ordering: answers already produced for a prefix of the stream are never
      revised by later input. */
  lemma ResponsesPrefix(p: Bytes, s: Bytes, decode: Decoder, handler: Handler)
    requires p <= s
    ensures Responses(p, decode, handler) <= Responses(s, decode, handler)
  {
    LinesPrefix(p, s);
  }

  /** Independence: a connection that has delivered whole lines `a` answers
      the lines of `b` exactly as a fresh connection would; a bad or failing
      line never stops or changes the processing of the lines after it. */
  lemma ResponsesAppend(a: Bytes, b: Bytes, decode: Decoder, handler: Handler)
    requires Trailing(a) == []
    ensures Responses(a + b, decode, handler)
            == Responses(a, decode, handler) + Responses(b, decode, handler)
  {
    LinesAppend(a, b);
  }
}
