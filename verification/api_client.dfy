/** The client side: default resolution, the capped exponential backoff, and
    the bounded retry loop of `Send`. Durations are integer milliseconds,
    except in the as-written backoff, which keeps Go's int64 nanoseconds. */
module ApiClient {
  import opened Wrappers
  import opened Proto

  /** The `APIClient` fields; a zero timeout or a non-positive retry count
      asks for the default. */
  datatype Config = Config(addr: string, dialTimeoutMs: int, readTimeoutMs: int,
                           writeTimeoutMs: int, retries: int)

  /** The parameters `Send` actually uses once defaults are applied. */
  datatype Settings = Settings(dialTimeoutMs: int, readTimeoutMs: int,
                               writeTimeoutMs: int, retries: int)

  const DefaultDialTimeoutMs: int := 2000
  const DefaultIoTimeoutMs: int := 3000
  const DefaultRetries: int := 3

  /** The default-resolution block at the top of `Send`. */
  function ResolveDefaults(c: Config): (s: Settings)
    ensures s.dialTimeoutMs != 0 && s.readTimeoutMs != 0 && s.writeTimeoutMs != 0
    ensures s.retries >= 1
    ensures c.dialTimeoutMs != 0 ==> s.dialTimeoutMs == c.dialTimeoutMs
    ensures c.readTimeoutMs != 0 ==> s.readTimeoutMs == c.readTimeoutMs
    ensures c.writeTimeoutMs != 0 ==> s.writeTimeoutMs == c.writeTimeoutMs
    ensures c.retries > 0 ==> s.retries == c.retries
    ensures c.dialTimeoutMs == 0 ==> s.dialTimeoutMs == DefaultDialTimeoutMs
    ensures c.readTimeoutMs == 0 ==> s.readTimeoutMs == DefaultIoTimeoutMs
    ensures c.writeTimeoutMs == 0 ==> s.writeTimeoutMs == DefaultIoTimeoutMs
    ensures c.retries <= 0 ==> s.retries == DefaultRetries
  {
    Settings(if c.dialTimeoutMs == 0 then DefaultDialTimeoutMs else c.dialTimeoutMs,
             if c.readTimeoutMs == 0 then DefaultIoTimeoutMs else c.readTimeoutMs,
             if c.writeTimeoutMs == 0 then DefaultIoTimeoutMs else c.writeTimeoutMs,
             if c.retries <= 0 then DefaultRetries else c.retries)
  }

  /** Resolving defaults is idempotent: a client configured with the resolved
      settings resolves to the same settings. */
  lemma ResolveDefaultsIdempotent(c: Config)
    ensures var s := ResolveDefaults(c);
            ResolveDefaults(Config(c.addr, s.dialTimeoutMs, s.readTimeoutMs,
                                   s.writeTimeoutMs, s.retries)) == s
  {
  }

  // ---------------------------------------------------------------------------
  // Backoff

  const BackoffBaseMs: int := 100
  const BackoffCapMs: int := 2000

  function Pow2(n: nat): (p: nat)
    ensures p >= 1
  {
    if n == 0 then 1 else 2 * Pow2(n - 1)
  }

  lemma {:induction false} Pow2Monotone(m: nat, n: nat)
    requires m <= n
    ensures Pow2(m) <= Pow2(n)
    decreases n - m
  {
    if m < n {
      Pow2Monotone(m, n - 1);
    }
  }

  lemma {:induction false} Pow2Add(a: nat, b: nat)
    ensures Pow2(a + b) == Pow2(a) * Pow2(b)
    decreases a
  {
    if a > 0 {
      Pow2Add(a - 1, b);
    }
  }

  lemma Pow2ThirtySix()
    ensures Pow2(36) == 0x10_0000_0000
    ensures Pow2(37) == 0x20_0000_0000
  {
    assert Pow2(6) == 64;
    Pow2Add(6, 6);
    Pow2Add(12, 12);
    Pow2Add(24, 12);
  }

  function Min(a: int, b: int): int {
    if a <= b then a else b
  }

  /** The backoff `Send` sleeps after a failed attempt, as intended: 100 ms
      for the first attempt, doubling per attempt, capped at 2 s. */
  function Backoff(attempt: int): (ms: int)
    ensures BackoffBaseMs <= ms <= BackoffCapMs
    ensures attempt <= 0 ==> ms == BackoffBaseMs
  {
    if attempt <= 0 then BackoffBaseMs
    else Min(BackoffBaseMs * Pow2(attempt), BackoffCapMs)
  }

  /** Each backoff is double the one before, until the cap is reached. */
  lemma BackoffDoubles(attempt: int)
    requires attempt >= 1
    ensures Backoff(attempt) == Min(2 * Backoff(attempt - 1), BackoffCapMs)
  {
    if attempt > 1 {
      assert Pow2(attempt) == 2 * Pow2(attempt - 1);
    }
  }

  /** The first five backoffs and the cap from then on. */
  lemma BackoffSchedule(attempt: int)
    ensures attempt == 1 ==> Backoff(attempt) == 200
    ensures attempt == 2 ==> Backoff(attempt) == 400
    ensures attempt == 3 ==> Backoff(attempt) == 800
    ensures attempt == 4 ==> Backoff(attempt) == 1600
    ensures attempt >= 5 ==> Backoff(attempt) == BackoffCapMs
  {
    if attempt >= 5 {
      Pow2Monotone(5, attempt);
    }
  }

  /** A later failure never waits less than an earlier one: the backoff is
      non-decreasing in the attempt number. */
  lemma BackoffMonotone(a: int, b: int)
    requires a <= b
    ensures Backoff(a) <= Backoff(b)
  {
    if 1 <= a {
      Pow2Monotone(a, b);
    }
  }

  // The backoff as the Go source computes it, in int64 nanoseconds.

  const NsPerMs: int := 1_000_000
  const Int64Modulus: int := 0x1_0000_0000_0000_0000
  const Int64Max: int := 0x7fff_ffff_ffff_ffff
  const Int64Min: int := -0x8000_0000_0000_0000

  /** Two's-complement wrap-around of Go's int64 arithmetic. */
  function WrapInt64(x: int): (r: int)
    ensures Int64Min <= r <= Int64Max
    ensures (x - r) % Int64Modulus == 0
    ensures Int64Min <= x <= Int64Max ==> r == x
  {
    var m := x % Int64Modulus;
    if m > Int64Max then m - Int64Modulus else m
  }

  /** `time.Duration(1) << n` for a shift count `n`: the bits shifted past
      bit 63 are lost, so every count from 64 on gives 0. */
  function ShiftLeftInt64(n: nat): (r: int)
    ensures Int64Min <= r <= Int64Max
    ensures n >= 64 ==> r == 0
  {
    if n >= 64 then 0 else WrapInt64(Pow2(n))
  }

  /** `backoff` exactly as written: `time.Duration(1<<attempt) * 100 *
      time.Millisecond`, each product wrapping in int64, then the 2 s cap. */
  function BackoffAsWrittenNs(attempt: int): (ns: int)
    ensures attempt <= 0 ==> ns == BackoffBaseMs * NsPerMs
    ensures Int64Min <= ns <= BackoffCapMs * NsPerMs
    ensures attempt >= 64 ==> ns == 0
  {
    if attempt <= 0 then BackoffBaseMs * NsPerMs
    else
      var d := WrapInt64(WrapInt64(ShiftLeftInt64(attempt) * BackoffBaseMs) * NsPerMs);
      if d > BackoffCapMs * NsPerMs then BackoffCapMs * NsPerMs else d
  }

  /** Below the overflow the source's backoff is the intended one. */
  lemma BackoffAsWrittenAgrees(attempt: int)
    requires attempt <= 36
    ensures BackoffAsWrittenNs(attempt) == Backoff(attempt) * NsPerMs
  {
    if attempt >= 1 {
      var p := Pow2(attempt);
      Pow2Monotone(attempt, 36);
      Pow2ThirtySix();
      assert p * BackoffBaseMs <= Int64Max;
      assert p * BackoffBaseMs * NsPerMs <= Int64Max;
      assert ShiftLeftInt64(attempt) == p;
      assert BackoffAsWrittenNs(attempt) == Min(p * BackoffBaseMs * NsPerMs, BackoffCapMs * NsPerMs);
      assert Min(p * BackoffBaseMs * NsPerMs, BackoffCapMs * NsPerMs)
          == Min(p * BackoffBaseMs, BackoffCapMs) * NsPerMs;
    }
  }

  /** At attempt 37 the product overflows int64 and the source's backoff is
      negative, so a client configured with 38 or more retries does not wait
      at all after its 38th failure, where 2 s are intended. */
  lemma BackoffAsWrittenOverflows()
    ensures BackoffAsWrittenNs(37) == -4_702_848_726_509_551_616
    ensures BackoffAsWrittenNs(37) < 0 < Backoff(37) * NsPerMs
    ensures BackoffAsWrittenNs(36) > BackoffAsWrittenNs(37)
  {
    Pow2ThirtySix();
    assert ShiftLeftInt64(37) == 0x20_0000_0000;
    assert WrapInt64(0x20_0000_0000 * 100) == 0x20_0000_0000 * 100;
    assert 0x20_0000_0000 * 100 * NsPerMs == 13_743_895_347_200_000_000;
    assert WrapInt64(13_743_895_347_200_000_000) == -4_702_848_726_509_551_616;
    BackoffAsWrittenAgrees(36);
    BackoffSchedule(36);
  }

  // ---------------------------------------------------------------------------
  // Send

  /** What the network does to one attempt, in the order the source checks:
      the dial fails; the write deadline cannot be set; the write fails; the
      read ends with an error after `partial` bytes; or a whole line is read. */
  datatype Attempt =
    | DialFail(err: string)
    | WriteDeadlineFail(err: string)
    | WriteFail(err: string)
    | ReadFail(partial: Bytes, err: string)
    | ReadOk(line: Bytes)

  /** The errors `Send` returns. */
  datatype SendError =
    | MarshalError
    | DeadlineError(err: string)
    | RetriesExhausted(retries: int, last: string)
    | DecodeError

  /** The error an unsuccessful attempt records as `lastErr`. */
  function ErrorOf(a: Attempt): string {
    match a
    case ReadOk(_) => ""
    case DialFail(e) => e
    case WriteDeadlineFail(e) => e
    case WriteFail(e) => e
    case ReadFail(_, e) => e
  }

  /** Whether an attempt ends the loop: a line was read, or the attempt got
      past dialing and then hit a failure the source does not retry (the
      request cannot be encoded, or the write deadline cannot be set). */
  predicate EndsLoop(a: Attempt, encodable: bool) {
    match a
    case DialFail(_) => false
    case ReadOk(_) => true
    case WriteDeadlineFail(_) => true
    case WriteFail(_) => !encodable
    case ReadFail(_, _) => !encodable
  }

  /** The first attempt in `[from, n)` that ends the loop, or `n`. */
  function FirstEnd(env: nat -> Attempt, encodable: bool, from: nat, n: nat): (k: nat)
    requires from <= n
    ensures from <= k <= n
    ensures forall j :: from <= j < k ==> !EndsLoop(env(j), encodable)
    ensures k < n ==> EndsLoop(env(k), encodable)
    decreases n - from
  {
    if from == n then n
    else if EndsLoop(env(from), encodable) then from
    else FirstEnd(env, encodable, from + 1, n)
  }

  /** `respBytes` after attempts `[0, n)` all failed: the bytes of the latest
      failed read (a failed read still yields a non-nil slice), or nil when no
      attempt got as far as reading. */
  function LastRead(env: nat -> Attempt, n: nat): (r: Option<Bytes>)
    ensures r.None? <==> forall j :: 0 <= j < n ==> !env(j).ReadFail?
    ensures r.Some? ==> exists j :: && 0 <= j < n && env(j).ReadFail? && env(j).partial == r.value
                                    && forall i :: j < i < n ==> !env(i).ReadFail?
  {
    if n == 0 then None
    else if env(n - 1).ReadFail? then Some(env(n - 1).partial)
    else LastRead(env, n - 1)
  }

  /** Decoding the response bytes (`json.Unmarshal` into a `Response`). */
  function DecodeResponse(unmarshal: Bytes -> Option<Response>, b: Bytes): Result<Response, SendError> {
    match unmarshal(b)
    case None => Failure(DecodeError)
    case Some(r) => Success(r)
  }

  /** What one call of `Send` produces, given the network `env`: the number
      of attempts started, the backoffs slept in order, the frames handed to
      the connection, and the result. */
  ghost predicate SendOutcome(cfg: Config, msg: Message, marshal: Message -> Option<Bytes>,
                              unmarshal: Bytes -> Option<Response>, env: nat -> Attempt,
                              result: Result<Response, SendError>, attempts: nat,
                              sleeps: seq<int>, sent: seq<Bytes>)
  {
    var n := ResolveDefaults(cfg).retries;
    var k := FirstEnd(env, marshal(msg).Some?, 0, n);
    && 1 <= attempts <= n
    && attempts == (if k < n then k + 1 else n)
    && |sleeps| == k
    && (forall i :: 0 <= i < k ==> sleeps[i] == Backoff(i))
    && (k < n && marshal(msg).None? ==> result == Failure(MarshalError))
    && (k < n && marshal(msg).Some? && env(k).WriteDeadlineFail? ==>
          result == Failure(DeadlineError(env(k).err)))
    && (k < n && marshal(msg).Some? && env(k).ReadOk? ==> result == DecodeResponse(unmarshal, env(k).line))
    && (k == n && LastRead(env, n).Some? ==>
          result == DecodeResponse(unmarshal, LastRead(env, n).value))
    && (k == n && LastRead(env, n).None? ==>
          result == Failure(RetriesExhausted(n, ErrorOf(env(n - 1)))))
    && (forall f :: f in sent ==> marshal(msg).Some? && f == marshal(msg).value + [NL])
  }

  /** The request/response exchange of `Send`. The network is `env`, the
      outcome of each attempt by number; `attempts` counts the attempts
      started, `sleeps` the backoffs slept in order, and `sent` the frames
      handed to the connection. */
  method Send(cfg: Config, msg: Message, marshal: Message -> Option<Bytes>,
              unmarshal: Bytes -> Option<Response>, env: nat -> Attempt)
    returns (result: Result<Response, SendError>, attempts: nat, sleeps: seq<int>, sent: seq<Bytes>)
    ensures SendOutcome(cfg, msg, marshal, unmarshal, env, result, attempts, sleeps, sent)
  {
    var retries := ResolveDefaults(cfg).retries;
    ghost var encodable := marshal(msg).Some?;
    var lastErr := "";
    var respBytes: Option<Bytes> := None;
    var attempt := 0;
    attempts, sleeps, sent := 0, [], [];
    while attempt < retries
      invariant 0 <= attempt <= retries
      invariant attempts == attempt
      invariant forall j :: 0 <= j < attempt ==> !EndsLoop(env(j), encodable)
      invariant |sleeps| == attempt
      invariant forall i :: 0 <= i < attempt ==> sleeps[i] == Backoff(i)
      invariant respBytes == LastRead(env, attempt)
      invariant attempt > 0 ==> lastErr == ErrorOf(env(attempt - 1))
      invariant forall f :: f in sent ==> encodable && f == marshal(msg).value + [NL]
    {
      attempts := attempts + 1;
      var outcome := env(attempt);
      if outcome.DialFail? {
        lastErr := outcome.err;
        sleeps := sleeps + [Backoff(attempt)];
        attempt := attempt + 1;
        continue;
      }
      var b := marshal(msg);
      if b.None? {
        result := Failure(MarshalError);
        return;
      }
      var frame := b.value + [NL];
      if outcome.WriteDeadlineFail? {
        result := Failure(DeadlineError(outcome.err));
        return;
      }
      sent := sent + [frame];
      if outcome.WriteFail? {
        lastErr := outcome.err;
        sleeps := sleeps + [Backoff(attempt)];
        attempt := attempt + 1;
        continue;
      }
      if outcome.ReadFail? {
        respBytes := Some(outcome.partial);
        lastErr := outcome.err;
        sleeps := sleeps + [Backoff(attempt)];
        attempt := attempt + 1;
        continue;
      }
      respBytes := Some(outcome.line);
      break;
    }
    if respBytes.None? {
      result := Failure(RetriesExhausted(retries, lastErr));
      return;
    }
    result := DecodeResponse(unmarshal, respBytes.value);
  }

  const PingMessage: Message := Message("ping", [])

  /** `Ping`: exactly a `Send` of the "ping" message without payload. */
  method Ping(cfg: Config, marshal: Message -> Option<Bytes>,
              unmarshal: Bytes -> Option<Response>, env: nat -> Attempt)
    returns (result: Result<Response, SendError>, attempts: nat, sleeps: seq<int>, sent: seq<Bytes>)
    ensures SendOutcome(cfg, PingMessage, marshal, unmarshal, env, result, attempts, sleeps, sent)
    ensures 1 <= attempts <= ResolveDefaults(cfg).retries
    ensures forall f :: f in sent ==> marshal(PingMessage).Some? && f == marshal(PingMessage).value + [NL]
    ensures env(0).ReadOk? && marshal(PingMessage).Some? ==>
              attempts == 1 && sleeps == [] && result == DecodeResponse(unmarshal, env(0).line)
    ensures var n := ResolveDefaults(cfg).retries;
            (forall j :: 0 <= j < n ==> env(j).DialFail?) ==>
              && attempts == n
              && result == Failure(RetriesExhausted(n, env(n - 1).err))
  {
    result, attempts, sleeps, sent := Send(cfg, PingMessage, marshal, unmarshal, env);
  }
}
