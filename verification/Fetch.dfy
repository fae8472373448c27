/**
  One download with retries and range resumption (crates/fcb_core/src/server_api.rs,
  `download_bytes_from_with_cancel` and `read_body_with_cancel`). The server is any function of the attempt
  and the requested offset; cancellation is any function of the attempt and the poll within it.
 */
module Fetch {
  import opened Basics

  const MAX_RETRIES: nat := 4
  const MAX_BODY_BYTES: nat := 64 * 1024 * 1024

  /** What the body reader yields: chunks, then the end or an error. */
  datatype Body = Body(chunks: seq<Bytes>, complete: bool)

  datatype Reply = Response(status: nat, body: Body) | TransportError

  datatype Server = Server(
    /* attempt, offset (0 sends no Range header) */ reply: (nat, nat) -> Reply,
    /* attempt, poll */ cancelled: (nat, nat) -> bool)

  datatype Fetched = Fetched(bytes: Bytes, append: bool)

  /** `NoErrorToReport` is the panic of `last_error.expect`. */
  datatype FetchError = Cancelled | ReadFailed | TooLarge | HttpStatus(code: nat) | Transport | NoErrorToReport

  predicate CanRetry(attempt: nat) { attempt < MAX_RETRIES }

  predicate ShouldRetryStatus(status: nat) { status >= 500 }

  predicate IsSuccess(status: nat) { 200 <= status < 300 }

  function ReadBody(server: Server, attempt: nat, body: Body, poll: nat, out: Bytes): Result<Bytes, FetchError>
    decreases |body.chunks|
  {
    if server.cancelled(attempt, poll) then Err(Cancelled)
    else if body.chunks == [] then (if body.complete then Ok(out) else Err(ReadFailed))
    else if body.chunks[0] == [] then Ok(out)
    else if |out| + |body.chunks[0]| > MAX_BODY_BYTES then Err(TooLarge)
    else ReadBody(server, attempt, body.(chunks := body.chunks[1..]), poll + 1, out + body.chunks[0])
  }

  function Received(server: Server, attempt: nat, body: Body, append: bool): Result<Fetched, FetchError> {
    match ReadBody(server, attempt, body, 1, [])
    case Err(e) => Err(e)
    case Ok(bytes) => Ok(Fetched(bytes, append))
  }

  function FetchFrom(server: Server, attempt: nat, offset: nat, failedBefore: bool): Result<Fetched, FetchError>
    decreases MAX_RETRIES + 1 - attempt
  {
    if attempt > MAX_RETRIES then Err(if failedBefore then Transport else NoErrorToReport)
    else if server.cancelled(attempt, 0) then Err(Cancelled)
    else
      match server.reply(attempt, offset)
      case Response(status, body) =>
        if status == 416 && offset > 0 then FetchFrom(server, attempt + 1, 0, failedBefore)
        else if status == 206 then Received(server, attempt, body, true)
        else if IsSuccess(status) then Received(server, attempt, body, false)
        else if ShouldRetryStatus(status) && CanRetry(attempt) then FetchFrom(server, attempt + 1, offset, failedBefore)
        else Err(HttpStatus(status))
      case TransportError =>
        if CanRetry(attempt) then FetchFrom(server, attempt + 1, offset, true) else Err(Transport)
  }

  method ReadBodyWithCancel(server: Server, attempt: nat, body: Body) returns (r: Result<Bytes, FetchError>)
    ensures r == ReadBody(server, attempt, body, 1, [])
  {
    var out: Bytes := [];
    var chunks := body.chunks;
    var poll := 1;
    while true
      invariant ReadBody(server, attempt, body, 1, []) == ReadBody(server, attempt, body.(chunks := chunks), poll, out)
      decreases |chunks|
    {
      if server.cancelled(attempt, poll) { return Err(Cancelled); }
      poll := poll + 1;
      if chunks == [] {
        return if body.complete then Ok(out) else Err(ReadFailed);
      }
      var chunk := chunks[0];
      chunks := chunks[1..];
      if chunk == [] { return Ok(out); }
      if |out| + |chunk| > MAX_BODY_BYTES { return Err(TooLarge); }
      out := out + chunk;
    }
  }

  method DownloadBytesFromWithCancel(server: Server, offset: nat) returns (r: Result<Fetched, FetchError>)
    ensures r == FetchFrom(server, 0, offset, false)
  {
    var effectiveOffset := offset;
    var lastError := false;
    for attempt := 0 to MAX_RETRIES + 1
      invariant FetchFrom(server, 0, offset, false) == FetchFrom(server, attempt, effectiveOffset, lastError)
    {
      if server.cancelled(attempt, 0) { return Err(Cancelled); }
      var reply := server.reply(attempt, effectiveOffset);
      match reply {
        case Response(status, body) =>
          if status == 416 && effectiveOffset > 0 {
            effectiveOffset := 0;
          } else if status == 206 {
            var bytes := ReadBodyWithCancel(server, attempt, body);
            return match bytes case Ok(b) => Ok(Fetched(b, true)) case Err(e) => Err(e);
          } else if IsSuccess(status) {
            var bytes := ReadBodyWithCancel(server, attempt, body);
            return match bytes case Ok(b) => Ok(Fetched(b, false)) case Err(e) => Err(e);
          } else if !(ShouldRetryStatus(status) && CanRetry(attempt)) {
            return Err(HttpStatus(status));
          }
        case TransportError =>
          if !CanRetry(attempt) { return Err(Transport); }
          lastError := true;
      }
    }
    return Err(if lastError then Transport else NoErrorToReport);
  }

  // ---------------------------------------------------------------- when the loop has nothing to report

  predicate ServerErrors(server: Server, from: nat, offset: nat) {
    forall a | from <= a < MAX_RETRIES ::
      && !server.cancelled(a, 0)
      && server.reply(a, offset).Response?
      && ShouldRetryStatus(server.reply(a, offset).status)
  }

  /**
    The loop panics in exactly one case: a resumed download meets four server errors and then its first 416
    on the fifth and last attempt.
   */
  lemma {:induction false} PanicsIff(server: Server, attempt: nat, offset: nat)
    requires attempt <= MAX_RETRIES
    ensures FetchFrom(server, attempt, offset, false) == Err(NoErrorToReport) <==>
            && offset > 0 && ServerErrors(server, attempt, offset)
            && !server.cancelled(MAX_RETRIES, 0)
            && server.reply(MAX_RETRIES, offset).Response? && server.reply(MAX_RETRIES, offset).status == 416
    decreases MAX_RETRIES - attempt
  {
    NeverPanicsAfterFailure(server, attempt + 1, offset);
    NeverPanicsFromStart(server, attempt + 1, false);
    ReadNeverPanics(server, attempt, offset);
    if attempt < MAX_RETRIES {
      PanicsIff(server, attempt + 1, offset);
    }
  }

  /** And it does: whatever the offset to resume from, against a server with four errors and then a 416. */
  lemma PanicHappens(offset: nat)
    requires offset > 0
    ensures exists server :: FetchFrom(server, 0, offset, false) == Err(NoErrorToReport)
  {
    var server := Server((attempt, o) => Response(if attempt < MAX_RETRIES then 500 else 416, Body([], true)), (attempt, poll) => false);
    PanicsIff(server, 0, offset);
  }

  lemma ReadNeverPanics(server: Server, attempt: nat, offset: nat)
    ensures server.reply(attempt, offset).Response? ==>
              ReadBody(server, attempt, server.reply(attempt, offset).body, 1, []) != Err(NoErrorToReport)
  {
    if server.reply(attempt, offset).Response? { BodyNeverPanics(server, attempt, server.reply(attempt, offset).body, 1, []); }
  }

  lemma {:induction false} BodyNeverPanics(server: Server, attempt: nat, body: Body, poll: nat, out: Bytes)
    ensures ReadBody(server, attempt, body, poll, out) != Err(NoErrorToReport)
    decreases |body.chunks|
  {
    if body.chunks != [] {
      BodyNeverPanics(server, attempt, body.(chunks := body.chunks[1..]), poll + 1, out + body.chunks[0]);
    }
  }

  lemma {:induction false} NeverPanicsAfterFailure(server: Server, attempt: nat, offset: nat)
    ensures FetchFrom(server, attempt, offset, true) != Err(NoErrorToReport)
    decreases MAX_RETRIES + 1 - attempt
  {
    if attempt <= MAX_RETRIES {
      ReadNeverPanics(server, attempt, offset);
      NeverPanicsAfterFailure(server, attempt + 1, offset);
      NeverPanicsAfterFailure(server, attempt + 1, 0);
    }
  }

  /** Without a Range header every path through the last attempt returns. */
  lemma {:induction false} NeverPanicsFromStart(server: Server, attempt: nat, failedBefore: bool)
    ensures attempt <= MAX_RETRIES ==> FetchFrom(server, attempt, 0, failedBefore) != Err(NoErrorToReport)
    decreases MAX_RETRIES + 1 - attempt
  {
    if attempt <= MAX_RETRIES {
      ReadNeverPanics(server, attempt, 0);
      NeverPanicsFromStart(server, attempt + 1, failedBefore);
      NeverPanicsFromStart(server, attempt + 1, true);
    }
  }

  // ---------------------------------------------------------------- retries

  /** Worth another try: no answer at all, or a server error. */
  predicate Transient(reply: Reply) {
    reply.TransportError? || reply.status >= 500
  }

  /** What attempt `k` makes of the answer it gets, when no attempt before it had anything else but transient failures. */
  function Decides(server: Server, k: nat, offset: nat, failedBefore: bool): Result<Fetched, FetchError>
    requires k <= 4
  {
    if server.cancelled(k, 0) then Err(Cancelled)
    else
      match server.reply(k, offset)
      case TransportError => Err(Transport)
      case Response(status, body) =>
        if status == 416 && offset > 0 then FetchFrom(server, k + 1, 0, failedBefore)
        else if 200 <= status < 300 then
          (match ReadBody(server, k, body, 1, [])
           case Ok(bytes) => Ok(Fetched(bytes, status == 206))
           case Err(e) => Err(e))
        else Err(HttpStatus(status))
  }

  /**
    The first answer that is not transient decides, as long as it comes within the first five; the fifth decides in any
    case. Before it, transport errors and server errors alike are passed over.
   */
  lemma {:induction false} FirstAnswerDecides(server: Server, attempt: nat, k: nat, offset: nat, failedBefore: bool)
    requires attempt <= k <= 4 && (k < 4 ==> server.cancelled(k, 0) || !Transient(server.reply(k, offset)))
    requires forall a | attempt <= a < k :: !server.cancelled(a, 0) && Transient(server.reply(a, offset))
    ensures FetchFrom(server, attempt, offset, failedBefore)
         == Decides(server, k, offset, failedBefore || exists a | attempt <= a < k :: server.reply(a, offset).TransportError?)
    decreases k - attempt
  {
    if attempt < k {
      var failed := failedBefore || server.reply(attempt, offset).TransportError?;
      FirstAnswerDecides(server, attempt + 1, k, offset, failed);
    }
  }

  // ---------------------------------------------------------------- honest servers

  function Flatten(chunks: seq<Bytes>): Bytes {
    if chunks == [] then [] else chunks[0] + Flatten(chunks[1..])
  }

  /** A successful read is a prefix of what the body carries. */
  lemma {:induction false} ReadIsPrefix(server: Server, attempt: nat, body: Body, poll: nat, out: Bytes)
    ensures var r := ReadBody(server, attempt, body, poll, out);
            r.Ok? ==> out <= r.value <= out + Flatten(body.chunks)
    decreases |body.chunks|
  {
    if body.chunks != [] {
      var rest := body.(chunks := body.chunks[1..]);
      ReadIsPrefix(server, attempt, rest, poll + 1, out + body.chunks[0]);
      assert out + body.chunks[0] + Flatten(rest.chunks) == out + Flatten(body.chunks);
    } else {
      assert out + [] == out;
    }
  }

  /** A body of non-empty chunks is read exactly when nothing cancels, it does not break off, and it fits 64 MiB; and then all of it. */
  lemma {:induction false} ReadIff(server: Server, attempt: nat, body: Body, poll: nat, out: Bytes)
    requires (forall c | c in body.chunks :: c != []) && |out| <= 67108864
    ensures var r := ReadBody(server, attempt, body, poll, out);
            && (r.Ok? <==> && body.complete && |out + Flatten(body.chunks)| <= 67108864
                           && forall p | poll <= p <= poll + |body.chunks| :: !server.cancelled(attempt, p))
            && (r.Ok? ==> r.value == out + Flatten(body.chunks))
    decreases |body.chunks|
  {
    if body.chunks != [] {
      var rest := body.(chunks := body.chunks[1..]);
      assert body.chunks[0] in body.chunks;
      assert out + body.chunks[0] + Flatten(rest.chunks) == out + Flatten(body.chunks);
      if |out| + |body.chunks[0]| <= 67108864 {
        assert forall c | c in rest.chunks :: c in body.chunks;
        ReadIff(server, attempt, rest, poll + 1, out + body.chunks[0]);
      }
    } else {
      assert out + [] == out;
    }
  }

  /** An empty chunk ends the body. */
  lemma EmptyChunkEnds(server: Server, attempt: nat, body: Body, poll: nat, out: Bytes)
    requires body.chunks != [] && body.chunks[0] == [] && !server.cancelled(attempt, poll)
    ensures ReadBody(server, attempt, body, poll, out) == Ok(out)
  {
  }

  /** Without cancellation, errors or empty chunks the whole body arrives if and only if it fits the limit. */
  lemma {:induction false} ReadsWholeBodyIffSmall(server: Server, attempt: nat, body: Body, poll: nat, out: Bytes)
    requires body.complete && (forall p: nat :: !server.cancelled(attempt, p)) && (forall c | c in body.chunks :: c != [])
    requires |out| <= MAX_BODY_BYTES
    ensures ReadBody(server, attempt, body, poll, out) ==
            if |out + Flatten(body.chunks)| <= MAX_BODY_BYTES then Ok(out + Flatten(body.chunks)) else Err(TooLarge)
    decreases |body.chunks|
  {
    if body.chunks != [] {
      var rest := body.(chunks := body.chunks[1..]);
      assert body.chunks[0] in body.chunks;
      assert out + body.chunks[0] + Flatten(rest.chunks) == out + Flatten(body.chunks);
      if |out| + |body.chunks[0]| <= MAX_BODY_BYTES {
        assert forall c | c in rest.chunks :: c in body.chunks;
        ReadsWholeBodyIffSmall(server, attempt, rest, poll + 1, out + body.chunks[0]);
      }
    } else {
      assert out + [] == out;
    }
  }

  /**
    A server that never sends a wrong byte: a 206 only answers a Range request and carries bytes of the payload
    from the requested offset on; any other success carries bytes from the start. Bodies may be cut short,
    and anything else may fail.
   */
  ghost predicate SendsContiguous(server: Server, payload: Bytes) {
    forall a: nat, offset: nat {:trigger server.reply(a, offset)} :: server.reply(a, offset).Response? ==>
      var r := server.reply(a, offset);
      && (r.status == 206 ==> 0 < offset <= |payload| && Flatten(r.body.chunks) <= payload[offset..])
      && (IsSuccess(r.status) && r.status != 206 ==> Flatten(r.body.chunks) <= payload)
  }

  /** So what a fetch returns continues the payload from the offset, or is a fresh beginning of it. */
  lemma {:induction false} FetchIsContiguous(server: Server, attempt: nat, offset: nat, failedBefore: bool, payload: Bytes)
    requires SendsContiguous(server, payload)
    ensures var r := FetchFrom(server, attempt, offset, failedBefore);
            r.Ok? ==> if r.value.append then 0 < offset <= |payload| && r.value.bytes <= payload[offset..]
                      else r.value.bytes <= payload
    decreases MAX_RETRIES + 1 - attempt
  {
    if attempt <= MAX_RETRIES && !server.cancelled(attempt, 0) {
      var reply := server.reply(attempt, offset);
      if reply.Response? {
        ReadIsPrefix(server, attempt, reply.body, 1, []);
        assert [] + Flatten(reply.body.chunks) == Flatten(reply.body.chunks);
      }
      FetchIsContiguous(server, attempt + 1, offset, failedBefore, payload);
      FetchIsContiguous(server, attempt + 1, offset, true, payload);
      FetchIsContiguous(server, attempt + 1, 0, failedBefore, payload);
    }
  }

  ghost predicate Carries(reply: Reply, status: nat, bytes: Bytes) {
    && reply.Response? && reply.status == status && reply.body.complete
    && Flatten(reply.body.chunks) == bytes && forall c | c in reply.body.chunks :: c != []
  }

  /** A 206 whose body is a non-empty beginning of the bytes asked for. */
  ghost predicate CarriesSome(reply: Reply, rest: Bytes) {
    && reply.Response? && Carries(reply, 206, Flatten(reply.body.chunks))
    && Flatten(reply.body.chunks) != [] && Flatten(reply.body.chunks) <= rest
  }

  /**
    A server conforming to RFC 9110 that serves the payload without errors: it may ignore a Range (section 14.2),
    answers a satisfiable one with 206 and some of the bytes asked for, not necessarily all (section 15.3.7), and an
    unsatisfiable one with 416 (section 15.5.17). Nobody cancels.
   */
  ghost predicate Conforms(server: Server, payload: Bytes) {
    && (forall a: nat, p: nat :: !server.cancelled(a, p))
    && forall a: nat, offset: nat {:trigger server.reply(a, offset)} ::
         var r := server.reply(a, offset);
         || Carries(r, 200, payload)
         || (0 < offset < |payload| && CarriesSome(r, payload[offset..]))
         || (offset >= |payload| && offset > 0 && r.Response? && r.status == 416)
  }

  /** One that always sends a requested range to its end. */
  ghost predicate ServesWholeRanges(server: Server, payload: Bytes) {
    && Conforms(server, payload)
    && forall a: nat, offset: nat {:trigger server.reply(a, offset)} ::
         server.reply(a, offset).Response? && server.reply(a, offset).status == 206 && offset <= |payload| ==>
           Flatten(server.reply(a, offset).body.chunks) == payload[offset..]
  }

  lemma FreshFetch(server: Server, attempt: nat, payload: Bytes)
    requires Conforms(server, payload) && attempt <= MAX_RETRIES
    ensures FetchFrom(server, attempt, 0, false) ==
            if |payload| <= MAX_BODY_BYTES then Ok(Fetched(payload, false)) else Err(TooLarge)
  {
    var reply := server.reply(attempt, 0);
    assert Carries(reply, 200, payload);
    ReadsWholeBodyIffSmall(server, attempt, reply.body, 1, []);
    assert [] + payload == payload;
  }

  /** One conforming download yields the whole payload, or a non-empty beginning of the missing rest. */
  lemma ConformingFetch(server: Server, offset: nat, payload: Bytes)
    requires Conforms(server, payload) && |payload| <= MAX_BODY_BYTES
    ensures var r := FetchFrom(server, 0, offset, false);
            && r.Ok?
            && (!r.value.append ==> r.value.bytes == payload)
            && (r.value.append ==> 0 < offset < |payload| && r.value.bytes != [] && r.value.bytes <= payload[offset..])
            && (r.value.append && ServesWholeRanges(server, payload) ==> r.value.bytes == payload[offset..])
  {
    var reply := server.reply(0, offset);
    if reply.status == 416 {
      FreshFetch(server, 1, payload);
    } else {
      ReadsWholeBodyIffSmall(server, 0, reply.body, 1, []);
      assert [] + Flatten(reply.body.chunks) == Flatten(reply.body.chunks);
    }
  }
}
