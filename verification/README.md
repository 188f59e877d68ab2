# Go-SSH line-JSON protocol, modelled in Dafny

The Go-SSH repository is mostly a desktop UI mockup. The part with real logic
is a small request/response protocol between the client and the back-end
service. Each request is one JSON-encoded `Message` on a line of its own, and
each answer is one JSON-encoded `Response` on a line of its own. This project
models that protocol:

- `proto.dfy` (module `Proto`): the wire types. `Message` is a type tag with an
  optional raw payload. `Response` carries `Code`, `Ok`, `Message` and `Data`.
  The status codes are 0, 400, 404 and 500.
- `service.dfy` (module `Service`): `handleMessage`, the type-based dispatcher.
- `framing.dfy` (module `Framing`): newline framing. It covers how
  `ReadBytes('\n')` cuts a byte stream into complete lines plus an unanswered
  tail, and the reverse direction.
- `tcp_server.dfy` (module `TcpServer`): the per-connection loop `handle` and
  `writeJSON`.
- `api_client.dfy` (module `ApiClient`): the default resolution and retry loop
  of `APIClient.Send`, `Ping`, and `backoff`. `backoff` appears twice: once as
  intended and once as written with Go's int64 wrap-around.
- `wrappers.dfy` (module `Wrappers`): `Option` and `Result`.

Abstractions:

- JSON encoding and decoding are function parameters. Decoding is partial
  (`Bytes -> Option<Message>`, `Bytes -> Option<Response>`). Encoding is partial
  too (`Response -> Option<Bytes>`), because `json.Marshal` can fail on an
  arbitrary `Data`.
- A connection's input is the bytes it delivers before EOF or a read error.
- The client's network is a function from attempt number to an `Attempt`
  outcome.
- Durations are integer milliseconds. The one exception is the as-written
  backoff, which keeps Go's int64 nanoseconds so that the overflow can be stated.

The repository also holds a React mockup of the intended tool, with tabs, a
terminal, an SFTP view and a system monitor fed with random sample data. It
makes no connection and has no logic beyond presentation, so it is not
modelled.

## Model

| member | source | states |
|---|---|---|
| Proto.StatusCodesDistinct | proto/message.go:43-49 | The four status codes 0, 400, 404 and 500 are pairwise distinct. Code 0 means success and each of the other three means an error. |
| Service.HandleMessage | service/main.go:17-27 | The dispatcher never returns an error. Its response is well formed (`Ok` exactly when `Code` is 0, and the code is a protocol code). `Ok` holds exactly for "ping" and "list_connections". "ping" carries `PingResponse{"pong"}`. "list_connections" carries an empty list. Any other type gets code 404, message "unknown type: " + type, and no data. Success responses carry no message. |
| Service.HandleMessageIgnoresData | service/main.go:17-18 | Two messages with the same type get the same response, whatever their payloads. |
| Service.UnknownTypeRecoverable | service/main.go:24-26 | The 404 message starts with the fixed prefix, and removing that prefix gives back the request's type. Distinct unknown types therefore get distinct answers. |
| Framing.SplitLines | service/server/tcp_server.go:33-40 | Reading lines until EOF loses no bytes: the complete lines followed by the trailing bytes give back the stream. |
| Framing.Lines | service/server/tcp_server.go:33-40 | The lines `ReadBytes('\n')` delivers with a nil error, call after call. Each one ends in its only newline. |
| Framing.Trailing | service/server/tcp_server.go:34-40 | The bytes `ReadBytes('\n')` returns together with EOF. They contain no newline, so they are never a request. |
| Framing.LinesCount | service/server/tcp_server.go:33-40 | The number of complete lines equals the number of newlines in the stream. |
| Framing.LinesAppend | service/server/tcp_server.go:33-55 | Once a stream has ended on a line boundary, the lines that follow split exactly as they would on their own. |
| Framing.LinesOfFrames | service/server/tcp_server.go:58-65 | Splitting a concatenation of newline-terminated frames gives back exactly those frames, with nothing left over. |
| Framing.LineIsOneFrame | service/server/tcp_server.go:60-61 | One frame splits into itself. |
| Framing.LinesPrefix | service/server/tcp_server.go:33-40 | The lines of a prefix of the stream are a prefix of the lines of the whole stream. |
| Framing.FindNewline | service/server/tcp_server.go:34 | The result is the first newline's position, or the length when the stream has no newline. |
| TcpServer.WriteJSON | service/server/tcp_server.go:58-65 | If encoding fails, nothing is written. Otherwise the frame is the encoding followed by one newline, and it is a single line when the encoding has no raw newline. |
| TcpServer.Respond | service/server/tcp_server.go:41-54 | An undecodable line gets `{Code 400, Ok false, "invalid json"}`. A handler error gets `{Code 500, Ok false, error text}`. Otherwise the handler's response is passed on unchanged. |
| TcpServer.Handle | service/server/tcp_server.go:30-56 | The loop writes exactly one response per complete input line, in line order, and each response is `Respond` of its line. The bytes written are the frames of those responses in the same order. Trailing bytes with no newline get no answer. |
| TcpServer.OneFramePerLine | service/server/tcp_server.go:33-65 | When the encoder emits no raw newline, the output splits back into exactly one frame per input line. Frame k is the encoding of response k plus a newline. |
| TcpServer.ResponsesPrefix | service/server/tcp_server.go:33-55 | Answers already produced are never changed by later input. |
| TcpServer.ResponsesAppend | service/server/tcp_server.go:42-51 | A bad line or a failing handler does not stop the loop or change how later lines are answered. |
| Service.ServedNeverServerError | service/main.go:17-27 | When the dispatcher is the handler, every response the server writes is well formed. No response has code 500. The only error codes are 400 and 404. |
| ApiClient.ResolveDefaults | client/client/api_client.go:24-41 | A zero dial timeout becomes 2 s. Zero read and write timeouts become 3 s. A retry count of 0 or less becomes 3. Non-zero timeouts and positive retry counts are kept, so at least one attempt is always made. |
| ApiClient.ResolveDefaultsIdempotent | client/client/api_client.go:24-41 | Resolving the resolved settings again changes nothing. |
| ApiClient.Backoff | client/client/api_client.go:108-118 | The intended backoff, over unbounded integers: between 100 ms and 2 s, and 100 ms for every attempt of 0 or less. |
| ApiClient.BackoffDoubles | client/client/api_client.go:113-117 | From attempt 1 on, each backoff is twice the previous one, capped at 2 s. |
| ApiClient.BackoffSchedule | client/client/api_client.go:113-117 | The backoff is 200, 400, 800 and 1600 ms for attempts 1 to 4, and 2 s from attempt 5 on. |
| ApiClient.BackoffMonotone | client/client/api_client.go:108-118 | The backoff never decreases as the attempt number grows. |
| ApiClient.BackoffAsWrittenNs | client/client/api_client.go:109-118 | The source's `backoff` in int64 nanoseconds: 100 ms for an attempt of 0 or less, never above the 2 s cap, never below the int64 minimum, and 0 from attempt 64 on, where the shift loses every bit. |
| ApiClient.BackoffAsWrittenAgrees | client/client/api_client.go:109-118 | For attempts up to 36, the int64 computation in the source equals the intended backoff. |
| ApiClient.BackoffAsWrittenOverflows | client/client/api_client.go:113-117 | At attempt 37 the source's int64 product wraps around to a negative duration. The source's backoff then falls below its value at attempt 36. |
| ApiClient.FirstEnd | client/client/api_client.go:44-83 | The result is the first attempt that leaves the retry loop: a full line was read, or a non-retried failure happened after the dial. If no attempt does, the result is the attempt count. |
| ApiClient.LastRead | client/client/api_client.go:73-79 | `respBytes` is nil exactly when no attempt reached the read. Otherwise it holds the bytes of the latest failed read. |
| ApiClient.Send | client/client/api_client.go:22-91 | Between 1 and `retries` attempts are made. The loop stops at the first attempt that reads a line. An encoding failure or a write-deadline failure returns at once. Every failed dial, write or read is followed by a sleep of `Backoff(attempt)`, including the last one. The "failed after N retries" error, carrying the last attempt's error, comes only when no read was reached. Otherwise the last bytes read are decoded. Every frame written is the encoded message plus one newline. |
| ApiClient.Ping | client/client/api_client.go:103-106 | Ping behaves exactly as `Send` of the "ping" message with no payload (the same `SendOutcome`). Every frame it writes is that message's frame. If the first attempt reads a line, exactly one attempt is made with no sleep, and the result is that line decoded. If every dial fails, all attempts are made and the result is the "failed after N retries" error carrying the last dial error. |

## Left out

- The Fyne user interface (`client/main.go`, `client/ui/*`), including the mapping from a ping result to a dialog. It is presentation code on top of a library that is not part of this model.
- `Start`'s listen and accept loop, and its goroutine per connection. These are socket and concurrency plumbing. The model handles one connection's byte stream.
- Sockets, deadlines, `time.Sleep` and the clock. Each attempt's outcome is an input (`Attempt`), so the dial, read and write timeouts that `ResolveDefaults` computes do not affect anything else in the model. Sleeps are recorded as durations, not waited.
- The JSON grammar. `json.Marshal` and `json.Unmarshal` are function parameters. The server's framing lemmas assume that the response encoder never fails and never emits a raw newline (`FrameSafe`). `encoding/json` escapes newlines inside strings, so its output satisfies that assumption.
- The `log.Printf` and `fmt.Printf` logging, and the elapsed-time measurement in `Send`. They do not influence any result.
- Write errors on the server. The source discards them, so the model records the bytes handed to the connection and nothing else.
- `conn.SetDeadline` at client/client/api_client.go:52. Its error is discarded by the source.
- `ConnectRequest` is declared as a data type only. No operation in the code uses it.
- ApiClient.Send: states that each written frame is the encoded message plus a newline, but not how many frames are written.
- ApiClient.Send: sleeps `Backoff`, the corrected backoff from the Findings section. The source's `backoff` differs from it from attempt 37 on, which only a client with 38 or more retries reaches.
- ApiClient.Backoff: computes over unbounded integers, so it does not wrap from attempt 37 on as the source's int64 arithmetic does. ApiClient.BackoffAsWrittenNs models the source's arithmetic, and the Findings section records the difference.
- ApiClient.ResolveDefaults: uses whole milliseconds. Go's `time.Duration` counts nanoseconds.

## Findings

| source | as written | input that shows it | evidently intended | confidence | as-written member | corrected member |
|---|---|---|---|---|---|---|
| client/client/api_client.go:113-117 | `time.Duration(1<<attempt) * 100 * time.Millisecond` is computed in int64 nanoseconds and wraps from attempt 37 on, where 2^37 * 10^8 exceeds 2^63. Attempts 37, 39-43, 45, 47-50 and 55 give a negative duration, attempts from 56 on give 0, and the other wrapped attempts (38, 44, 46, 51-54) land above 2 s and are capped back to 2 s. | A client with `Retries = 38`: `backoff(37)` = -4702848726509551616 ns, so there is no wait after the 38th failed attempt. | `min(100 ms * 2^attempt, 2 s)` for every attempt of 1 or more, non-decreasing. | high; not executed | ApiClient.BackoffAsWrittenOverflows | ApiClient.BackoffMonotone |
