/**
 * The image download of PresentationCreator2 (fetchBytesWithRetries and
 * backoff): up to three attempts, a response classified by its status and
 * content type, a body read in chunks under a size cap, and a back-off of
 * 250 ms times the attempt number plus a random jitter below 200 ms before
 * every retry.
 *
 * The network is a parameter: respond(n) is what attempt n meets, and
 * jitter(n) is the random part of the back-off after attempt n. The sleeps
 * themselves are returned as the list of delays, in order. Whether
 * java.net.URI accepts the URL is a parameter too (uriOk): its grammar is not
 * modelled, only what a rejection does.
 */
module ImageFetch {
  import opened Wrappers
  import opened JavaText
  import opened Bytes

  /** The attempts made before giving up. */
  const MAX_ATTEMPTS: nat := 3

  /** A response body: the chunks is.read delivers, then either end of stream or an IOException. */
  datatype Body = Body(chunks: seq<seq<byte>>, failsAtEnd: bool)

  /** What one attempt meets: an IOException before any status, or a status with its content type and body. */
  datatype Attempt =
    | Unreachable
    | Response(status: int, contentType: Option<string>, body: Body)

  /**
   * What fetchBytesWithRetries ends with: bytes, null, the IOException of the
   * given attempt rethrown, or the IllegalArgumentException of URI.create.
   */
  datatype Fetched = Got(data: seq<byte>) | NoBytes | Thrown(ioAttempt: nat) | BadUri

  /** How reading a body ends: over the cap, an IOException, or every byte read. */
  datatype ReadOutcome = TooLarge | ReadFailed | Read(data: seq<byte>)

  // ---------------------------------------------------------------------
  // Reading the body
  // ---------------------------------------------------------------------

  /** Reading a body: too large when all its bytes exceed the cap, else failed on an I/O error, else read. */
  function BodyOutcome(body: Body): ReadOutcome
  {
    var all := Flatten(body.chunks);
    if |all| > MAX_IMAGE_BYTES then TooLarge
    else if body.failsAtEnd then ReadFailed
    else Read(all)
  }

  /**
   * The read loop: append each chunk and stop with null as soon as the running
   * total exceeds MAX_IMAGE_BYTES. It reads exactly the chunks up to the first
   * one that crosses the cap, and when it reads everything the bytes are the
   * body's bytes.
   */
  method ReadBody(body: Body) returns (r: ReadOutcome, consumed: nat)
    ensures r == BodyOutcome(body)
    ensures consumed <= |body.chunks|
    ensures r.TooLarge? ==>
      && |Flatten(body.chunks[..consumed])| > MAX_IMAGE_BYTES
      && consumed >= 1 && |Flatten(body.chunks[..consumed - 1])| <= MAX_IMAGE_BYTES
    ensures !r.TooLarge? ==> consumed == |body.chunks|
  {
    var data: seq<byte> := [];
    var i := 0;
    while i < |body.chunks|
      invariant 0 <= i <= |body.chunks|
      invariant data == Flatten(body.chunks[..i])
      invariant |data| <= MAX_IMAGE_BYTES
    {
      assert body.chunks[..i + 1][..i] == body.chunks[..i];
      data := data + body.chunks[i];
      i := i + 1;
      if |data| > MAX_IMAGE_BYTES {
        FlattenPrefix(body.chunks, i);
        return TooLarge, i;
      }
    }
    assert body.chunks[..i] == body.chunks;
    if body.failsAtEnd {
      return ReadFailed, i;
    }
    return Read(data), i;
  }

  // ---------------------------------------------------------------------
  // One attempt, and the retry loop
  // ---------------------------------------------------------------------

  /** After one attempt: stop with a result, or back off and retry (noting whether an IOException occurred). */
  datatype Step = Finish(result: Fetched) | Retry(ioError: bool)

  /** An HTML page served instead of an image: the lower-cased content type contains "text/html". */
  predicate IsHtml(contentType: Option<string>)
  {
    contentType.Some? && Contains(ToLower(contentType.value), "text/html")
  }

  /** The statuses for which the request is tried again: 429 and 5xx. */
  predicate IsTransient(status: int)
  {
    status == 429 || 500 <= status < 600
  }

  /** The decision rule for one attempt; an attempt never finishes with an exception. */
  function Classify(a: Attempt): (step: Step)
    ensures step.Finish? ==> step.result.Got? || step.result.NoBytes?
  {
    match a
    case Unreachable => Retry(true)
    case Response(status, contentType, body) =>
      if 200 <= status < 300 then
        if IsHtml(contentType) then Finish(NoBytes)
        else
          match BodyOutcome(body)
          case TooLarge => Finish(NoBytes)
          case ReadFailed => Retry(true)
          case Read(data) => Finish(if |data| > 0 then Got(data) else NoBytes)
      else if status == 401 || status == 403 || status == 404 then Finish(NoBytes)
      else if IsTransient(status) then Retry(false)
      else Finish(NoBytes)
  }

  /** backoff: the delay after the given attempt. */
  function Backoff(attempt: nat, jitter: int): int
  {
    250 * attempt + jitter
  }

  /** The result, the delays slept and the number of attempts made. */
  datatype Trace = Trace(result: Fetched, delays: seq<int>, attempts: nat)

  /**
   * The attempts from the given one on, with lastIo the attempt of the
   * remembered IOException (0 for none). After the last attempt the remembered
   * IOException is rethrown, or null returned when there is none.
   */
  function Run(respond: nat -> Attempt, jitter: nat -> int, attempt: nat, lastIo: nat): Trace
    requires attempt >= 1
    decreases MAX_ATTEMPTS + 1 - attempt
  {
    if attempt > MAX_ATTEMPTS then Trace(if lastIo > 0 then Thrown(lastIo) else NoBytes, [], 0)
    else
      match Classify(respond(attempt))
      case Finish(r) => Trace(r, [], 1)
      case Retry(io) =>
        var rest := Run(respond, jitter, attempt + 1, if io then attempt else lastIo);
        Trace(rest.result, [Backoff(attempt, jitter(attempt))] + rest.delays, 1 + rest.attempts)
  }

  /** The attempt loop, as a function of what the network answers. */
  function Fetch(respond: nat -> Attempt, jitter: nat -> int): Trace
  {
    Run(respond, jitter, 1, 0)
  }

  /** fetchBytesWithRetries: URI.create first, whose rejection escapes before any attempt; then the attempt loop. */
  function FetchUrl(uriOk: bool, respond: nat -> Attempt, jitter: nat -> int): Trace
  {
    if uriOk then Fetch(respond, jitter) else Trace(BadUri, [], 0)
  }

  /** fetchBytesWithRetries: the URI check, then the attempt loop. */
  method FetchBytesWithRetries(uriOk: bool, respond: nat -> Attempt, jitter: nat -> int) returns (result: Fetched, delays: seq<int>)
    ensures result == FetchUrl(uriOk, respond, jitter).result
    ensures delays == FetchUrl(uriOk, respond, jitter).delays
  {
    if !uriOk {
      return BadUri, [];
    }
    result, delays := AttemptLoop(respond, jitter);
  }

  /** The attempt loop of fetchBytesWithRetries, with its early returns and the final rethrow. */
  method AttemptLoop(respond: nat -> Attempt, jitter: nat -> int) returns (result: Fetched, delays: seq<int>)
    ensures result == Fetch(respond, jitter).result
    ensures delays == Fetch(respond, jitter).delays
  {
    ghost var whole := Fetch(respond, jitter);
    var lastIo := 0;
    delays := [];
    var attempt := 1;
    while attempt <= MAX_ATTEMPTS
      invariant 1 <= attempt <= MAX_ATTEMPTS + 1
      invariant whole.result == Run(respond, jitter, attempt, lastIo).result
      invariant whole.delays == delays + Run(respond, jitter, attempt, lastIo).delays
    {
      var step := TryOnce(respond(attempt));
      match step {
        case Finish(r) =>
          RunFinish(respond, jitter, attempt, lastIo);
          AppendNil(delays);
          return r, delays;
        case Retry(io) =>
          var next := if io then attempt else lastIo;
          var pause := Backoff(attempt, jitter(attempt));
          RunRetry(respond, jitter, attempt, lastIo);
          AppendAssoc(delays, [pause], Run(respond, jitter, attempt + 1, next).delays);
          lastIo := next;
          delays := delays + [pause];
          attempt := attempt + 1;
      }
    }
    AppendNil(delays);
    result := if lastIo > 0 then Thrown(lastIo) else NoBytes;
  }

  /**
   * A URL that URI.create rejects makes no attempt and sleeps no delay, and it
   * is the only way to the IllegalArgumentException: the attempts never end
   * with it.
   */
  lemma UriRejectedFirst(uriOk: bool, respond: nat -> Attempt, jitter: nat -> int)
    ensures var t := FetchUrl(uriOk, respond, jitter);
      && (t.result.BadUri? <==> !uriOk)
      && (!uriOk ==> t.attempts == 0 && t.delays == [])
      && (uriOk ==> t == Fetch(respond, jitter))
  {
    RunNeverBadUri(respond, jitter, 1, 0);
  }

  /** The attempts end with bytes, null or a rethrown IOException, never with a rejected URI. */
  lemma {:induction false} RunNeverBadUri(respond: nat -> Attempt, jitter: nat -> int, attempt: nat, lastIo: nat)
    requires attempt >= 1
    ensures !Run(respond, jitter, attempt, lastIo).result.BadUri?
    decreases MAX_ATTEMPTS + 1 - attempt
  {
    if attempt <= MAX_ATTEMPTS {
      match Classify(respond(attempt))
      case Finish(r) =>
      case Retry(io) =>
        RunNeverBadUri(respond, jitter, attempt + 1, if io then attempt else lastIo);
    }
  }

  /** An attempt that finishes ends the run with its result and no further delay. */
  lemma RunFinish(respond: nat -> Attempt, jitter: nat -> int, attempt: nat, lastIo: nat)
    requires 1 <= attempt <= MAX_ATTEMPTS && Classify(respond(attempt)).Finish?
    ensures Run(respond, jitter, attempt, lastIo) == Trace(Classify(respond(attempt)).result, [], 1)
  {}

  /** An attempt that asks for a retry is followed by its back-off and the run from the next attempt. */
  lemma RunRetry(respond: nat -> Attempt, jitter: nat -> int, attempt: nat, lastIo: nat)
    requires 1 <= attempt <= MAX_ATTEMPTS && Classify(respond(attempt)).Retry?
    ensures var next := if Classify(respond(attempt)).ioError then attempt else lastIo;
      var rest := Run(respond, jitter, attempt + 1, next);
      && Run(respond, jitter, attempt, lastIo).result == rest.result
      && Run(respond, jitter, attempt, lastIo).delays == [Backoff(attempt, jitter(attempt))] + rest.delays
  {}

  /** The body of the try block: one request, read or judged by its status. */
  method TryOnce(a: Attempt) returns (step: Step)
    ensures step == Classify(a)
  {
    match a {
      case Unreachable =>
        return Retry(true);
      case Response(status, contentType, body) =>
        if 200 <= status < 300 {
          if IsHtml(contentType) {
            return Finish(NoBytes);
          }
          var outcome, _ := ReadBody(body);
          match outcome {
            case TooLarge =>
              return Finish(NoBytes);
            case ReadFailed =>
              return Retry(true);
            case Read(data) =>
              return Finish(if |data| > 0 then Got(data) else NoBytes);
          }
        } else if status == 401 || status == 403 || status == 404 {
          return Finish(NoBytes);
        } else if IsTransient(status) {
          return Retry(false);
        } else {
          return Finish(NoBytes);
        }
    }
  }

  // ---------------------------------------------------------------------
  // What the retry loop promises
  // ---------------------------------------------------------------------

  /**
   * From any attempt on: at most the remaining attempts are made, at least one
   * while any remain, and one delay is slept after each attempt but a
   * finishing last one.
   */
  lemma {:induction false} RunCounts(respond: nat -> Attempt, jitter: nat -> int, attempt: nat, lastIo: nat)
    requires 1 <= attempt
    ensures var t := Run(respond, jitter, attempt, lastIo);
      && t.attempts <= (if attempt > MAX_ATTEMPTS then 0 else MAX_ATTEMPTS + 1 - attempt)
      && (attempt <= MAX_ATTEMPTS ==> t.attempts >= 1)
      && (|t.delays| == t.attempts || |t.delays| + 1 == t.attempts)
    decreases MAX_ATTEMPTS + 1 - attempt
  {
    if attempt <= MAX_ATTEMPTS {
      match Classify(respond(attempt))
      case Finish(r) =>
      case Retry(io) =>
        RunCounts(respond, jitter, attempt + 1, if io then attempt else lastIo);
    }
  }

  /**
   * From any attempt on: every delay follows an attempt that asked for a
   * retry, the k-th one attempt number attempt + k.
   */
  lemma {:induction false} RunRetried(respond: nat -> Attempt, jitter: nat -> int, attempt: nat, lastIo: nat)
    requires 1 <= attempt
    ensures var t := Run(respond, jitter, attempt, lastIo);
      forall n :: attempt <= n < attempt + |t.delays| ==> Classify(respond(n)).Retry?
    decreases MAX_ATTEMPTS + 1 - attempt
  {
    if attempt <= MAX_ATTEMPTS && Classify(respond(attempt)).Retry? {
      var next := if Classify(respond(attempt)).ioError then attempt else lastIo;
      RunRetried(respond, jitter, attempt + 1, next);
      RunRetry(respond, jitter, attempt, lastIo);
    }
  }

  /**
   * From any attempt on: the k-th delay follows attempt number attempt + k
   * and lasts 250 times that number plus its jitter.
   */
  lemma {:induction false} RunDelays(respond: nat -> Attempt, jitter: nat -> int, attempt: nat, lastIo: nat)
    requires 1 <= attempt
    ensures var t := Run(respond, jitter, attempt, lastIo);
      forall k :: 0 <= k < |t.delays| ==> t.delays[k] == Backoff(attempt + k, jitter(attempt + k))
    decreases MAX_ATTEMPTS + 1 - attempt
  {
    if attempt <= MAX_ATTEMPTS && Classify(respond(attempt)).Retry? {
      var next := if Classify(respond(attempt)).ioError then attempt else lastIo;
      RunDelays(respond, jitter, attempt + 1, next);
      RunRetry(respond, jitter, attempt, lastIo);
      var rest := Run(respond, jitter, attempt + 1, next);
      var t := Run(respond, jitter, attempt, lastIo);
      forall k | 0 <= k < |t.delays|
        ensures t.delays[k] == Backoff(attempt + k, jitter(attempt + k))
      {
        if k > 0 {
          assert t.delays[k] == rest.delays[k - 1];
        }
      }
    }
  }

  /**
   * At most three attempts; the k-th delay is 250 * (k + 1) plus the jitter of
   * attempt k + 1; a delay, and so a retry, follows only an attempt that asked
   * for one.
   */
  lemma FetchShape(respond: nat -> Attempt, jitter: nat -> int)
    ensures var t := Fetch(respond, jitter);
      && 1 <= t.attempts <= MAX_ATTEMPTS
      && |t.delays| <= t.attempts
      && (forall k :: 0 <= k < |t.delays| ==> t.delays[k] == 250 * (k + 1) + jitter(k + 1))
      && (forall n :: 1 <= n <= |t.delays| ==> Classify(respond(n)).Retry?)
  {
    RunCounts(respond, jitter, 1, 0);
    RunDelays(respond, jitter, 1, 0);
    RunRetried(respond, jitter, 1, 0);
  }

  /** With a jitter in [0, 200), the k-th delay lies in [250 * (k + 1), 250 * (k + 1) + 200). */
  lemma DelayBounds(respond: nat -> Attempt, jitter: nat -> int, k: nat)
    requires forall n :: 0 <= jitter(n) < 200
    requires k < |Fetch(respond, jitter).delays|
    ensures 250 * (k + 1) <= Fetch(respond, jitter).delays[k] < 250 * (k + 1) + 200
  {
    FetchShape(respond, jitter);
  }

  /** A retry is asked for exactly after an IOException, a 429 or a 5xx. */
  lemma RetryOnlyWhenTransient(a: Attempt)
    ensures Classify(a).Retry? <==>
      a.Unreachable? || (a.Response? &&
        ((200 <= a.status < 300 && !IsHtml(a.contentType) && BodyOutcome(a.body).ReadFailed?) || IsTransient(a.status)))
  {}

  /** An attempt that finishes ends the download at once: no delay, no further attempt. */
  lemma FinishStopsAtOnce(respond: nat -> Attempt, jitter: nat -> int)
    requires Classify(respond(1)).Finish?
    ensures Fetch(respond, jitter) == Trace(Classify(respond(1)).result, [], 1)
  {}

  /** 401, 403 and 404 give null after the first attempt. */
  lemma DeniedGivesNull(respond: nat -> Attempt, jitter: nat -> int)
    requires respond(1).Response? && respond(1).status in {401, 403, 404}
    ensures Fetch(respond, jitter) == Trace(NoBytes, [], 1)
  {}

  /**
   * When all three attempts ask for a retry, three attempts are made, three
   * delays slept, and the IOException of the latest attempt that had one is
   * rethrown (null when none had one), whatever later attempts answered.
   */
  lemma {:induction false} Exhausted(respond: nat -> Attempt, jitter: nat -> int)
    requires forall n :: 1 <= n <= MAX_ATTEMPTS ==> Classify(respond(n)).Retry?
    ensures var t := Fetch(respond, jitter);
      && t.attempts == 3 && |t.delays| == 3
      && t.result == LastIoResult(respond, 3)
  {
    assert Classify(respond(1)).Retry? && Classify(respond(2)).Retry? && Classify(respond(3)).Retry?;
    var io1 := if Classify(respond(1)).ioError then 1 else 0;
    var io2 := if Classify(respond(2)).ioError then 2 else io1;
    var io3 := if Classify(respond(3)).ioError then 3 else io2;
    assert Run(respond, jitter, 4, io3).result == LastIoResult(respond, 3) by {
      LastIoUnfold(respond);
    }
  }

  /** The rethrown exception after n retried attempts: the latest attempt with an IOException, or null. */
  function LastIoResult(respond: nat -> Attempt, n: nat): Fetched
  {
    if n == 0 then NoBytes
    else if Classify(respond(n)).Retry? && Classify(respond(n)).ioError then Thrown(n)
    else LastIoResult(respond, n - 1)
  }

  lemma LastIoUnfold(respond: nat -> Attempt)
    requires forall n :: 1 <= n <= MAX_ATTEMPTS ==> Classify(respond(n)).Retry?
    ensures var io1 := if Classify(respond(1)).ioError then 1 else 0;
      var io2 := if Classify(respond(2)).ioError then 2 else io1;
      var io3 := if Classify(respond(3)).ioError then 3 else io2;
      (if io3 > 0 then Thrown(io3) else NoBytes) == LastIoResult(respond, 3)
  {
    assert Classify(respond(1)).Retry? && Classify(respond(2)).Retry? && Classify(respond(3)).Retry?;
  }

  /** Bytes handed back are never empty and never over the cap. */
  lemma {:induction false} GotWithinCap(respond: nat -> Attempt, jitter: nat -> int, attempt: nat, lastIo: nat)
    requires attempt >= 1
    ensures var r := Run(respond, jitter, attempt, lastIo).result;
      r.Got? ==> 0 < |r.data| <= MAX_IMAGE_BYTES
    decreases MAX_ATTEMPTS + 1 - attempt
  {
    if attempt <= MAX_ATTEMPTS {
      match Classify(respond(attempt))
      case Finish(r) =>
      case Retry(io) =>
        GotWithinCap(respond, jitter, attempt + 1, if io then attempt else lastIo);
    }
  }

  /** An IOException is rethrown only after three attempts, and it is the one of an attempt that had it. */
  lemma {:induction false} ThrownOnlyWhenExhausted(respond: nat -> Attempt, jitter: nat -> int, attempt: nat, lastIo: nat)
    requires 1 <= attempt <= MAX_ATTEMPTS + 1 && lastIo < attempt
    requires lastIo > 0 ==> Classify(respond(lastIo)) == Retry(true)
    ensures var t := Run(respond, jitter, attempt, lastIo);
      t.result.Thrown? ==>
        && t.attempts == (if attempt > MAX_ATTEMPTS then 0 else MAX_ATTEMPTS + 1 - attempt)
        && 0 < t.result.ioAttempt <= MAX_ATTEMPTS
        && Classify(respond(t.result.ioAttempt)) == Retry(true)
    decreases MAX_ATTEMPTS + 1 - attempt
  {
    if attempt <= MAX_ATTEMPTS {
      match Classify(respond(attempt))
      case Finish(r) =>
      case Retry(io) =>
        ThrownOnlyWhenExhausted(respond, jitter, attempt + 1, if io then attempt else lastIo);
    }
  }
}
