/** The bounded-retry network layer of the bundle scripts: `urlopen_with_retry`
    (the connector) and `urlretrieve_with_retry` (the fetcher).

    The transport is abstract: each connection attempt takes the next outcome
    from a scripted sequence, which either raises an exception or yields a
    response (its Content-Length header, the successive results of
    `response.read(8192)`, and whether the saved bytes open as a ZIP archive).
    The file system is a map from path to contents, and `time.sleep` only
    records the requested duration. */
module Retry {
  import opened Wrappers
  import opened Text

  newtype byte = b: int | 0 <= b < 256

  type Bytes = seq<byte>

  /** The exception classes the loops tell apart. In Python 3 `IOError` is an
      alias of `OSError`, and `URLError` and `TimeoutError` derive from it. */
  datatype ExcClass = URLError | TimeoutError | OSError | ValueError | OtherError

  /** A raised exception: its class and its text, `str(e)`. */
  datatype Exc = Exc(cls: ExcClass, msg: string)

  /** The classes named in the `except` clause of both loops. */
  predicate Retryable(e: Exc) {
    e.cls == URLError || e.cls == TimeoutError || e.cls == OSError
  }

  function IOError(msg: string): Exc {
    Exc(OSError, msg)
  }

  /** The result of one `response.read(8192)`: some bytes (none at the end of
      the body) or an exception. */
  datatype Read = Chunk(data: Bytes) | ReadFails(e: Exc)

  /** The Content-Length header as the fetcher sees it: missing or empty
      (falsy), a value `int()` accepts, or a value on which `int()` raises. */
  datatype Header = NoHeader | Length(n: int) | Malformed(text: string)

  datatype Response = Response(contentLength: Header, body: seq<Read>, zipValid: bool)

  /** What the transport does with one connection attempt. */
  datatype Attempt = Raises(e: Exc) | Responds(response: Response)

  /** How a retry loop ends: it returns, it raises, or (with `max_retries < 1`)
      the `for` loop runs no attempt and the function returns `None`. */
  datatype Ending<+T> = Returned(value: T) | Raised(e: Exc) | FellThrough

  // ---------------------------------------------------------------------------
  // The retry skeleton common to both loops

  function Pow2(k: nat): nat {
    if k == 0 then 1 else 2 * Pow2(k - 1)
  }

  /** The wait after failed attempt number `attempt`: `2 ** attempt`. */
  function Backoff(attempt: nat): nat {
    Pow2(attempt)
  }

  /** The waits of a loop that made `n` attempts, in order: one after every
      failed attempt except the last. */
  function Backoffs(n: nat): (waits: seq<nat>)
    ensures |waits| == if n == 0 then 0 else n - 1
    ensures forall i :: 0 <= i < |waits| ==> waits[i] == Backoff(i + 1)
  {
    if n <= 1 then [] else Backoffs(n - 1) + [Backoff(n - 1)]
  }

  function Sum(s: seq<nat>): nat {
    if s == [] then 0 else Sum(s[..|s| - 1]) + s[|s| - 1]
  }

  /** A loop that made `n >= 1` attempts slept 2^1 + ... + 2^(n-1) in all. */
  lemma {:induction false} TotalBackoff(n: nat)
    requires n >= 1
    ensures Sum(Backoffs(n)) == Pow2(n) - 2
  {
    if n > 1 {
      TotalBackoff(n - 1);
      var w := Backoffs(n);
      assert w[..|w| - 1] == Backoffs(n - 1);
    }
  }

  /** An attempt outcome the loop catches: it fails with a retryable class. */
  predicate Caught(failure: Option<Exc>) {
    failure.Some? && Retryable(failure.value)
  }

  /** The number of attempts a loop makes when attempt `i + 1` fails with
      `failures[i]` (or succeeds, for `None`): it stops at the first success or
      uncaught exception, or after `maxRetries` attempts. */
  function AttemptsMade(failures: seq<Option<Exc>>, maxRetries: int): (n: nat)
    requires maxRetries <= |failures|
    ensures maxRetries < 1 ==> n == 0
    ensures 1 <= maxRetries ==> 1 <= n <= maxRetries
    ensures forall j :: 0 <= j < n - 1 ==> Caught(failures[j])
    ensures 0 < n < maxRetries ==> !Caught(failures[n - 1])
  {
    if maxRetries < 1 then 0 else AttemptsFrom(failures, maxRetries, 1)
  }

  function AttemptsFrom(failures: seq<Option<Exc>>, maxRetries: nat, k: nat): (n: nat)
    requires 1 <= k <= maxRetries <= |failures|
    ensures k <= n <= maxRetries
    ensures forall j :: k - 1 <= j < n - 1 ==> Caught(failures[j])
    ensures n < maxRetries ==> !Caught(failures[n - 1])
    decreases maxRetries - k
  {
    if k < maxRetries && Caught(failures[k - 1]) then AttemptsFrom(failures, maxRetries, k + 1) else k
  }

  /** The stopping attempt is unique: an attempt `k` preceded only by caught
      failures, and itself uncaught or the last allowed, is the last one made. */
  lemma AttemptsMadeIs(failures: seq<Option<Exc>>, maxRetries: int, k: nat)
    requires 1 <= k <= maxRetries <= |failures|
    requires forall j :: 0 <= j < k - 1 ==> Caught(failures[j])
    requires k == maxRetries || !Caught(failures[k - 1])
    ensures AttemptsMade(failures, maxRetries) == k
  {
  }

  /** If every allowed attempt fails with a caught exception, all of them are
      made, and the loop slept 2^1 + ... + 2^(n-1) before giving up. */
  lemma {:induction false} AllCaughtExhausts(failures: seq<Option<Exc>>, maxRetries: int)
    requires 1 <= maxRetries <= |failures|
    requires forall j :: 0 <= j < maxRetries ==> Caught(failures[j])
    ensures AttemptsMade(failures, maxRetries) == maxRetries
    ensures Sum(Backoffs(maxRetries)) == Pow2(maxRetries) - 2
  {
    AttemptsMadeIs(failures, maxRetries, maxRetries);
    TotalBackoff(maxRetries);
  }

  /** An exception outside the caught classes ends the loop at its first
      occurrence, without using the remaining attempts. */
  lemma UncaughtStopsAtOnce(failures: seq<Option<Exc>>, maxRetries: int, k: nat)
    requires 1 <= k <= maxRetries <= |failures|
    requires forall j :: 0 <= j < k - 1 ==> Caught(failures[j])
    requires failures[k - 1].Some? && !Retryable(failures[k - 1].value)
    ensures AttemptsMade(failures, maxRetries) == k
  {
    AttemptsMadeIs(failures, maxRetries, k);
  }

  // ---------------------------------------------------------------------------
  // The connector, `urlopen_with_retry`

  function ConnectFailure(a: Attempt): Option<Exc> {
    if a.Raises? then Some(a.e) else None
  }

  function ConnectFailures(script: seq<Attempt>): (failures: seq<Option<Exc>>)
    ensures |failures| == |script|
    ensures forall i :: 0 <= i < |script| ==> failures[i] == ConnectFailure(script[i])
  {
    seq(|script|, i requires 0 <= i < |script| => ConnectFailure(script[i]))
  }

  /** How the connector ends when attempt `n` was its last: the response of a
      successful open, or the exception of a failed one, unchanged. */
  function ConnectEnding(script: seq<Attempt>, n: nat): Ending<Response>
    requires n <= |script|
  {
    if n == 0 then FellThrough
    else match script[n - 1]
      case Responds(resp) => Returned(resp)
      case Raises(e) => Raised(e)
  }

  /** A connector that returns a response returns the one of the first
      successful attempt, and every attempt before it raised a caught exception;
      one that raises re-raises the exception of its last attempt, which is
      uncaught or comes from the last allowed attempt. */
  lemma ConnectEndingMeaning(script: seq<Attempt>, maxRetries: int)
    requires maxRetries <= |script|
    ensures var n := AttemptsMade(ConnectFailures(script), maxRetries);
      var ending := ConnectEnding(script, n);
      && (ending.Returned? ==>
            && script[n - 1] == Responds(ending.value)
            && forall j :: 0 <= j < n - 1 ==> script[j].Raises? && Retryable(script[j].e))
      && (ending.Raised? ==>
            && script[n - 1] == Raises(ending.e)
            && (!Retryable(ending.e) || n == maxRetries))
      && (ending.FellThrough? <==> maxRetries < 1)
  {
    var n := AttemptsMade(ConnectFailures(script), maxRetries);
    forall j | 0 <= j < n - 1
      ensures script[j].Raises? && Retryable(script[j].e)
    {
      assert Caught(ConnectFailures(script)[j]);
    }
    if 0 < n < maxRetries {
      assert !Caught(ConnectFailures(script)[n - 1]);
    }
  }

  // ---------------------------------------------------------------------------
  // One attempt of the fetcher

  /** The body as the `while True` read loop consumes it: the non-empty chunks
      up to the first empty read (or the end of the body), or up to a read
      that raises. */
  datatype Stream = Stream(chunks: seq<Bytes>, failure: Option<Exc>)

  function StreamOf(body: seq<Read>): (s: Stream)
    ensures forall k :: 0 <= k < |s.chunks| ==> s.chunks[k] != []
  {
    if body == [] then Stream([], None)
    else match body[0]
      case ReadFails(e) => Stream([], Some(e))
      case Chunk(data) =>
        if data == [] then Stream([], None)
        else
          var rest := StreamOf(body[1..]);
          Stream([data] + rest.chunks, rest.failure)
  }

  /** The bytes `f.write(chunk)` leaves in a file opened with `'wb'`. */
  function Concat(chunks: seq<Bytes>): Bytes {
    if chunks == [] then [] else Concat(chunks[..|chunks| - 1]) + chunks[|chunks| - 1]
  }

  /** `downloaded_size`: the sum of `len(chunk)`. */
  function SumLengths(chunks: seq<Bytes>): nat {
    if chunks == [] then 0 else SumLengths(chunks[..|chunks| - 1]) + |chunks[|chunks| - 1]|
  }

  /** The byte count the fetcher keeps is the length of the file it wrote. */
  lemma {:induction false} ConcatLength(chunks: seq<Bytes>)
    ensures |Concat(chunks)| == SumLengths(chunks)
  {
    if chunks != [] {
      ConcatLength(chunks[..|chunks| - 1]);
    }
  }

  /** Writing one more chunk appends it to the file and adds its length. */
  lemma ConcatSnoc(chunks: seq<Bytes>, c: Bytes)
    ensures Concat(chunks + [c]) == Concat(chunks) + c
    ensures SumLengths(chunks + [c]) == SumLengths(chunks) + |c|
  {
    assert (chunks + [c])[..|chunks|] == chunks;
  }

  /** A non-empty chunk at the head of the unread body moves to the chunks
      already written. */
  lemma StreamChunk(body: seq<Read>, chunks: seq<Bytes>, pending: seq<Read>)
    requires StreamOf(body) == Stream(chunks + StreamOf(pending).chunks, StreamOf(pending).failure)
    requires pending != [] && pending[0].Chunk? && pending[0].data != []
    ensures StreamOf(body) == Stream((chunks + [pending[0].data]) + StreamOf(pending[1..]).chunks,
                                     StreamOf(pending[1..]).failure)
  {
    var rest := StreamOf(pending[1..]);
    assert StreamOf(pending) == Stream([pending[0].data] + rest.chunks, rest.failure);
    assert chunks + ([pending[0].data] + rest.chunks) == (chunks + [pending[0].data]) + rest.chunks;
  }

  /** The size the header declares, once `int()` has accepted it. */
  function Declared(h: Header): Option<int>
    requires !h.Malformed?
  {
    if h.Length? then Some(h.n) else None
  }

  /** The `ValueError` that `int()` raises on a malformed Content-Length. */
  function ParseError(text: string): Exc {
    Exc(ValueError, "invalid literal for int() with base 10: '" + text + "'")
  }

  /** Destinations that get the ZIP check: names ending in `.vsix` or `.zip`. */
  predicate IsArchiveName(filename: string) {
    EndsWith(filename, ".vsix") || EndsWith(filename, ".zip")
  }

  /** The acceptance test of a completed body: a truthy declared size must
      match (a missing header or a declared 0 skips the comparison), the body
      must not be empty, and an archive destination must open as a ZIP. */
  predicate Accepted(declared: Option<int>, size: nat, filename: string, zipValid: bool) {
    && (declared.Some? && declared.value != 0 ==> size == declared.value)
    && size != 0
    && (IsArchiveName(filename) ==> zipValid)
  }

  /** The checks after the stream ends, in the order the fetcher makes them,
      with the `IOError` each one raises. */
  function Verify(declared: Option<int>, size: nat, filename: string, zipValid: bool): (err: Option<Exc>)
    ensures err.None? <==> Accepted(declared, size, filename, zipValid)
    ensures err.Some? ==> Retryable(err.value)
  {
    if declared.Some? && declared.value != 0 && size != declared.value then
      Some(IOError("Download incomplete: expected " + IntToString(declared.value)
                   + " bytes, got " + IntToString(size) + " bytes"))
    else if size == 0 then
      Some(IOError("Downloaded file is empty"))
    else if IsArchiveName(filename) && !zipValid then
      Some(IOError("Downloaded file is not a valid ZIP archive: " + filename))
    else
      None
  }

  /** The effect of one attempt on the destination (`None`: the file was not
      opened) and the exception it raised (`None`: it returned). */
  datatype AttemptResult = AttemptResult(written: Option<Bytes>, failure: Option<Exc>)

  function TryOnce(a: Attempt, filename: string): AttemptResult {
    match a
    case Raises(e) => AttemptResult(None, Some(e))
    case Responds(resp) =>
      if resp.contentLength.Malformed? then
        AttemptResult(None, Some(ParseError(resp.contentLength.text)))
      else
        var s := StreamOf(resp.body);
        var data := Concat(s.chunks);
        if s.failure.Some? then AttemptResult(Some(data), s.failure)
        else AttemptResult(Some(data), Verify(Declared(resp.contentLength), SumLengths(s.chunks), filename, resp.zipValid))
  }

  /** One attempt succeeds exactly when a response came, its header parsed,
      every read succeeded and the written file passes the acceptance test;
      the file then holds the body, byte for byte. */
  lemma TryOnceSucceeds(a: Attempt, filename: string)
    ensures var res := TryOnce(a, filename);
      res.failure.None? <==>
        && a.Responds? && !a.response.contentLength.Malformed?
        && StreamOf(a.response.body).failure.None?
        && res.written.Some?
        && res.written.value == Concat(StreamOf(a.response.body).chunks)
        && Accepted(Declared(a.response.contentLength), |res.written.value|, filename, a.response.zipValid)
  {
    if a.Responds? && !a.response.contentLength.Malformed? {
      ConcatLength(StreamOf(a.response.body).chunks);
    }
  }

  function Written(files: map<string, Bytes>, filename: string, written: Option<Bytes>): map<string, Bytes> {
    if written.Some? then files[filename := written.value] else files
  }

  // ---------------------------------------------------------------------------
  // The fetcher, `urlretrieve_with_retry`

  /** Removing the destination after an attempt leaves the file system the
      fetcher started from, without the destination. */
  lemma RemoveWritten(files: map<string, Bytes>, filename: string, first: bool, written: Option<Bytes>)
    ensures var start := if first then files else files - {filename};
      var after := Written(start, filename, written);
      && (filename in after ==> after - {filename} == files - {filename})
      && (filename !in after ==> after == files - {filename})
  {
  }

  function FetchFailures(script: seq<Attempt>, filename: string): (failures: seq<Option<Exc>>)
    ensures |failures| == |script|
    ensures forall i :: 0 <= i < |script| ==> failures[i] == TryOnce(script[i], filename).failure
  {
    seq(|script|, i requires 0 <= i < |script| => TryOnce(script[i], filename).failure)
  }

  datatype Retrieval = Retrieval(ending: Ending<()>, files: map<string, Bytes>)

  /** How the fetcher ends and the file system it leaves: the result of its
      last attempt, on a file system where every earlier attempt's partial file
      was removed. */
  function Retrieve(script: seq<Attempt>, filename: string, maxRetries: int, files: map<string, Bytes>): Retrieval
    requires maxRetries <= |script|
  {
    var n := AttemptsMade(FetchFailures(script, filename), maxRetries);
    if n == 0 then Retrieval(FellThrough, files)
    else
      var last := TryOnce(script[n - 1], filename);
      var start := if n == 1 then files else files - {filename};
      Retrieval(if last.failure.None? then Returned(()) else Raised(last.failure.value),
                Written(start, filename, last.written))
  }

  /** How a sequence of fetches ends, the file system it leaves, the sleeps
      it requests, and how many connection attempts it uses. */
  datatype Outcome = Outcome(ending: Ending<()>, files: map<string, Bytes>, waits: seq<nat>, used: nat)

  /** The fetcher's loop from attempt `attempt` on, with `files` the file
      system that attempt starts from: a success returns; a caught failure
      before the last attempt waits `2 ** attempt`, removes the partial file
      and goes on; any other failure raises. */
  function FetchFrom(script: seq<Attempt>, filename: string, maxRetries: int, files: map<string, Bytes>, attempt: nat): (out: Outcome)
    requires 1 <= attempt <= maxRetries <= |script|
    ensures attempt <= out.used <= maxRetries
    decreases maxRetries - attempt
  {
    var res := TryOnce(script[attempt - 1], filename);
    var after := Written(files, filename, res.written);
    if res.failure.None? then Outcome(Returned(()), after, [], attempt)
    else if Retryable(res.failure.value) && attempt < maxRetries then
      var rest := FetchFrom(script, filename, maxRetries, after - {filename}, attempt + 1);
      Outcome(rest.ending, rest.files, [Backoff(attempt)] + rest.waits, rest.used)
    else Outcome(Raised(res.failure.value), after, [], attempt)
  }

  /** A caught failure before the last attempt: a wait, then the loop goes on
      from the next attempt without the partial file. */
  lemma FetchFromRetries(script: seq<Attempt>, filename: string, maxRetries: int, files: map<string, Bytes>, attempt: nat)
    requires 1 <= attempt < maxRetries <= |script|
    requires Caught(TryOnce(script[attempt - 1], filename).failure)
    ensures var res := TryOnce(script[attempt - 1], filename);
      var rest := FetchFrom(script, filename, maxRetries, Written(files, filename, res.written) - {filename}, attempt + 1);
      FetchFrom(script, filename, maxRetries, files, attempt)
        == Outcome(rest.ending, rest.files, [Backoff(attempt)] + rest.waits, rest.used)
  {
  }

  /** One call of the fetcher as an outcome: how it ends, the file system it
      leaves, the waits between its attempts and how many attempts it makes. */
  function Fetch(script: seq<Attempt>, filename: string, maxRetries: int, files: map<string, Bytes>): (out: Outcome)
    requires maxRetries <= |script|
    ensures out.used <= |script|
    ensures maxRetries < 1 ==> out.used == 0
    ensures 1 <= maxRetries ==> 1 <= out.used <= maxRetries
  {
    if maxRetries < 1 then Outcome(FellThrough, files, [], 0)
    else FetchFrom(script, filename, maxRetries, files, 1)
  }

  /** The waits listed from attempt `k` on start with the wait after attempt `k`. */
  lemma BackoffsFrom(n: nat, k: nat)
    requires 1 <= k < n
    ensures Backoffs(n)[k - 1..] == [Backoff(k)] + Backoffs(n)[k..]
  {
    assert Backoffs(n)[k - 1] == Backoff(k);
  }

  /** Removing the destination after attempt `k` leaves the file system every
      later attempt starts from. */
  lemma WrittenThenRemoved(files: map<string, Bytes>, filename: string, k: nat, written: Option<Bytes>)
    ensures Written(if k == 1 then files else files - {filename}, filename, written) - {filename} == files - {filename}
  {
  }

  /** The loop at its stopping attempt `k` ends as `Retrieve` says. */
  lemma FetchFromStops(script: seq<Attempt>, filename: string, maxRetries: int, files: map<string, Bytes>, k: nat)
    requires 1 <= k <= maxRetries <= |script|
    requires forall j :: 0 <= j < k - 1 ==> Caught(FetchFailures(script, filename)[j])
    requires k == maxRetries || !Caught(TryOnce(script[k - 1], filename).failure)
    ensures var run := Retrieve(script, filename, maxRetries, files);
      && AttemptsMade(FetchFailures(script, filename), maxRetries) == k
      && FetchFrom(script, filename, maxRetries, if k == 1 then files else files - {filename}, k)
           == Outcome(run.ending, run.files, Backoffs(k)[k - 1..], k)
  {
    RetrieveStopsAt(script, filename, maxRetries, files, k);
    assert Backoffs(k)[k - 1..] == [];
  }

  /** From attempt `k` on, the loop ends as `Retrieve` says, after the waits
      that `Backoffs` lists from attempt `k` on. */
  lemma {:induction false} FetchFromIsRetrieve(script: seq<Attempt>, filename: string, maxRetries: int,
                                               files: map<string, Bytes>, k: nat)
    requires 1 <= k <= maxRetries <= |script|
    requires forall j :: 0 <= j < k - 1 ==> Caught(FetchFailures(script, filename)[j])
    ensures var n := AttemptsMade(FetchFailures(script, filename), maxRetries);
      var run := Retrieve(script, filename, maxRetries, files);
      && k <= n
      && FetchFrom(script, filename, maxRetries, if k == 1 then files else files - {filename}, k)
           == Outcome(run.ending, run.files, Backoffs(n)[k - 1..], n)
    decreases maxRetries - k
  {
    var res := TryOnce(script[k - 1], filename);
    if Caught(res.failure) && k < maxRetries {
      assert FetchFailures(script, filename)[k - 1] == res.failure;
      FetchFromIsRetrieve(script, filename, maxRetries, files, k + 1);
      FetchFromRetries(script, filename, maxRetries, if k == 1 then files else files - {filename}, k);
      WrittenThenRemoved(files, filename, k, res.written);
      BackoffsFrom(AttemptsMade(FetchFailures(script, filename), maxRetries), k);
    } else {
      FetchFromStops(script, filename, maxRetries, files, k);
    }
  }

  /** The loop-shaped `Fetch` and the declarative `Retrieve` agree: the
      fetcher makes `AttemptsMade` attempts, waits `Backoffs` between them,
      and ends and leaves the files as `Retrieve` says. */
  lemma FetchIsRetrieve(script: seq<Attempt>, filename: string, maxRetries: int, files: map<string, Bytes>)
    requires maxRetries <= |script|
    ensures var n := AttemptsMade(FetchFailures(script, filename), maxRetries);
      var run := Retrieve(script, filename, maxRetries, files);
      Fetch(script, filename, maxRetries, files) == Outcome(run.ending, run.files, Backoffs(n), n)
  {
    if 1 <= maxRetries {
      FetchFromIsRetrieve(script, filename, maxRetries, files, 1);
      var n := AttemptsMade(FetchFailures(script, filename), maxRetries);
      assert Backoffs(n)[0..] == Backoffs(n);
    }
  }

  /** Unfolds `Retrieve` once the stopping attempt `k` is known. */
  lemma RetrieveStopsAt(script: seq<Attempt>, filename: string, maxRetries: int, files: map<string, Bytes>, k: nat)
    requires 1 <= k <= maxRetries <= |script|
    requires forall j :: 0 <= j < k - 1 ==> Caught(FetchFailures(script, filename)[j])
    requires k == maxRetries || !Caught(TryOnce(script[k - 1], filename).failure)
    ensures AttemptsMade(FetchFailures(script, filename), maxRetries) == k
    ensures var last := TryOnce(script[k - 1], filename);
      Retrieve(script, filename, maxRetries, files)
        == Retrieval(if last.failure.None? then Returned(()) else Raised(last.failure.value),
                     Written(if k == 1 then files else files - {filename}, filename, last.written))
  {
    AttemptsMadeIs(FetchFailures(script, filename), maxRetries, k);
  }

  /** A fetch that returns leaves at the destination exactly the body of its
      last response, which came without a read error, with a well-formed
      header, and passed the acceptance test. */
  lemma FetchReturned(script: seq<Attempt>, filename: string, maxRetries: int, files: map<string, Bytes>)
    requires maxRetries <= |script|
    requires Fetch(script, filename, maxRetries, files).ending.Returned?
    ensures var out := Fetch(script, filename, maxRetries, files);
      && 1 <= out.used && script[out.used - 1].Responds?
      && var resp := script[out.used - 1].response;
      && !resp.contentLength.Malformed?
      && StreamOf(resp.body).failure.None?
      && filename in out.files
      && out.files[filename] == Concat(StreamOf(resp.body).chunks)
      && Accepted(Declared(resp.contentLength), |out.files[filename]|, filename, resp.zipValid)
  {
    FetchIsRetrieve(script, filename, maxRetries, files);
    var n := AttemptsMade(FetchFailures(script, filename), maxRetries);
    TryOnceSucceeds(script[n - 1], filename);
  }

  /** A fetch that raises re-raises the exception of its last attempt; when
      that exception is a caught one, every allowed attempt was made, and the
      file the last attempt wrote is left in place. */
  lemma FetchRaised(script: seq<Attempt>, filename: string, maxRetries: int, files: map<string, Bytes>)
    requires maxRetries <= |script|
    requires Fetch(script, filename, maxRetries, files).ending.Raised?
    ensures var out := Fetch(script, filename, maxRetries, files);
      var last := TryOnce(script[out.used - 1], filename);
      && 1 <= out.used && last.failure == Some(out.ending.e)
      && (Retryable(out.ending.e) ==> out.used == maxRetries)
      && (last.written.Some? ==> filename in out.files && out.files[filename] == last.written.value)
  {
    FetchIsRetrieve(script, filename, maxRetries, files);
  }

  /** A fetch ends as its last attempt does, and leaves at the destination
      the file that attempt wrote. */
  lemma FetchEndsWithLast(script: seq<Attempt>, filename: string, maxRetries: int, files: map<string, Bytes>)
    requires 1 <= maxRetries <= |script|
    ensures var out := Fetch(script, filename, maxRetries, files);
      var last := TryOnce(script[out.used - 1], filename);
      && out.ending == (if last.failure.None? then Returned(()) else Raised(last.failure.value))
      && (last.written.Some? ==> filename in out.files && out.files[filename] == last.written.value)
  {
    FetchIsRetrieve(script, filename, maxRetries, files);
  }

  /** The waits between the attempts of a fetch are `Backoffs` of the number
      of attempts it made. */
  lemma FetchWaits(script: seq<Attempt>, filename: string, maxRetries: int, files: map<string, Bytes>)
    requires maxRetries <= |script|
    ensures var out := Fetch(script, filename, maxRetries, files);
      out.waits == Backoffs(out.used)
  {
    FetchIsRetrieve(script, filename, maxRetries, files);
  }

  /** The fetcher never touches any path but its destination. */
  lemma FetchOnlyDestination(script: seq<Attempt>, filename: string, maxRetries: int, files: map<string, Bytes>)
    requires maxRetries <= |script|
    ensures Fetch(script, filename, maxRetries, files).files - {filename} == files - {filename}
  {
    FetchIsRetrieve(script, filename, maxRetries, files);
    var n := AttemptsMade(FetchFailures(script, filename), maxRetries);
    if n > 0 {
      var last := TryOnce(script[n - 1], filename);
      var start := if n == 1 then files else files - {filename};
      assert start - {filename} == files - {filename};
      assert Written(start, filename, last.written) - {filename} == start - {filename};
    }
  }

  /** Whatever was at the destination before does not matter: two fetches of
      the same transport behaviour end alike after as many attempts, and when
      they return they leave byte-identical files. */
  lemma FetchIgnoresOldFile(script: seq<Attempt>, filename: string, maxRetries: int,
                            files1: map<string, Bytes>, files2: map<string, Bytes>)
    requires maxRetries <= |script|
    ensures var out1 := Fetch(script, filename, maxRetries, files1);
      var out2 := Fetch(script, filename, maxRetries, files2);
      && out1.ending == out2.ending
      && out1.used == out2.used
      && (out1.ending.Returned? ==>
            && filename in out1.files && filename in out2.files
            && out1.files[filename] == out2.files[filename])
  {
    FetchIsRetrieve(script, filename, maxRetries, files1);
    FetchIsRetrieve(script, filename, maxRetries, files2);
    if Fetch(script, filename, maxRetries, files1).ending.Returned? {
      FetchReturned(script, filename, maxRetries, files1);
      FetchReturned(script, filename, maxRetries, files2);
    }
  }

  // ---------------------------------------------------------------------------
  // The host the scripts run on

  /** The process's environment: the transport's coming behaviour, the file
      system and the sleeps requested so far. */
  class Host {
    /** The outcomes of the coming connection attempts, in order. */
    var network: seq<Attempt>
    /** Path to contents; a path that is not a key does not exist. */
    var files: map<string, Bytes>
    /** Every duration passed to `time.sleep`, in order. */
    var slept: seq<nat>

    constructor (network: seq<Attempt>, files: map<string, Bytes>)
      ensures this.network == network && this.files == files && slept == []
    {
      this.network := network;
      this.files := files;
      slept := [];
    }

    /** `time.sleep(seconds)`: only the requested duration is recorded. */
    method Sleep(seconds: nat)
      modifies this
      ensures slept == old(slept) + [seconds]
      ensures network == old(network) && files == old(files)
    {
      slept := slept + [seconds];
    }

    /** `urlopen_with_retry(url, max_retries)`: attempts numbered 1 to
        `maxRetries`, a wait of `2 ** attempt` after each caught failure but
        the last, and the response of the first successful attempt. */
    method UrlOpenWithRetry(maxRetries: int) returns (r: Ending<Response>)
      requires maxRetries <= |network|
      modifies this
      ensures var n := AttemptsMade(ConnectFailures(old(network)), maxRetries);
        && r == ConnectEnding(old(network), n)
        && network == old(network)[n..]
        && slept == old(slept) + Backoffs(n)
        && files == old(files)
    {
      ghost var script := network;
      ghost var failures := ConnectFailures(script);
      var attempt := 1;
      while attempt <= maxRetries
        invariant 1 <= attempt <= |script| + 1
        invariant 1 <= maxRetries ==> attempt <= maxRetries
        invariant maxRetries < 1 ==> attempt == 1
        invariant network == script[attempt - 1..]
        invariant slept == old(slept) + Backoffs(attempt)
        invariant files == old(files)
        invariant forall j :: 0 <= j < attempt - 1 ==> Caught(failures[j])
        decreases maxRetries - attempt
      {
        var outcome := network[0];
        network := network[1..];
        match outcome {
          case Responds(resp) =>
            AttemptsMadeIs(failures, maxRetries, attempt);
            return Returned(resp);
          case Raises(e) =>
            if !Retryable(e) {
              AttemptsMadeIs(failures, maxRetries, attempt);
              return Raised(e);
            }
            if attempt < maxRetries {
              slept := slept + [Backoff(attempt)];
            } else {
              AttemptsMadeIs(failures, maxRetries, attempt);
              return Raised(e);
            }
        }
        attempt := attempt + 1;
      }
      assert script[0..] == script;
      return FellThrough;
    }

    /** The `with open(filename, 'wb')` block: truncate the destination, then
        read until the first empty read, writing each chunk and adding its
        length to `downloaded_size`; a read that raises ends the block. */
    method ReadBody(filename: string, body: seq<Read>) returns (downloaded: nat, failure: Option<Exc>)
      modifies this
      ensures var s := StreamOf(body);
        && failure == s.failure
        && files == old(files)[filename := Concat(s.chunks)]
        && downloaded == SumLengths(s.chunks)
        && network == old(network) && slept == old(slept)
    {
      files := files[filename := []];
      downloaded := 0;
      var pending := body;
      ghost var chunks: seq<Bytes> := [];
      while true
        invariant StreamOf(body) == Stream(chunks + StreamOf(pending).chunks, StreamOf(pending).failure)
        invariant files == old(files)[filename := Concat(chunks)]
        invariant downloaded == SumLengths(chunks)
        invariant network == old(network) && slept == old(slept)
        decreases |pending|
      {
        if pending == [] {
          break;
        }
        var next := pending[0];
        if next.ReadFails? {
          assert chunks + [] == chunks;
          return downloaded, Some(next.e);
        }
        var chunk := next.data;
        if chunk == [] {
          break;
        }
        StreamChunk(body, chunks, pending);
        ConcatSnoc(chunks, chunk);
        pending := pending[1..];
        files := files[filename := files[filename] + chunk];
        downloaded := downloaded + |chunk|;
        chunks := chunks + [chunk];
      }
      assert chunks + [] == chunks;
      failure := None;
    }

    /** The body of the `try` in one attempt of `urlretrieve_with_retry`:
        connect, parse the Content-Length, stream the body into `filename`,
        then verify it. */
    method TryAttempt(filename: string) returns (failure: Option<Exc>)
      requires network != []
      modifies this
      ensures var res := TryOnce(old(network)[0], filename);
        && failure == res.failure
        && network == old(network)[1..]
        && files == Written(old(files), filename, res.written)
        && slept == old(slept)
    {
      var outcome := network[0];
      network := network[1..];
      match outcome {
        case Raises(e) =>
          return Some(e);
        case Responds(resp) =>
          var declared: Option<int>;
          match resp.contentLength {
            case Malformed(text) => return Some(ParseError(text));
            case NoHeader => declared := None;
            case Length(n) => declared := Some(n);
          }
          var downloaded;
          downloaded, failure := ReadBody(filename, resp.body);
          if failure.None? {
            failure := Verify(declared, downloaded, filename, resp.zipValid);
          }
      }
    }

    /** `urlretrieve_with_retry(url, filename, max_retries)`: attempts as in the
        connector; after a caught failure with attempts left it waits
        `2 ** attempt` and removes the partial file. `present[i]` records
        whether the destination existed when attempt `i + 1` began. */
    method UrlRetrieveWithRetry(filename: string, maxRetries: int) returns (r: Ending<()>, ghost present: seq<bool>)
      requires maxRetries <= |network|
      modifies this
      ensures var out := Fetch(old(network), filename, maxRetries, old(files));
        && r == out.ending
        && files == out.files
        && network == old(network)[out.used..]
        && slept == old(slept) + out.waits
        && |present| == out.used
        && (forall i :: 1 <= i < out.used ==> !present[i])
    {
      ghost var script := network;
      ghost var failures := FetchFailures(script, filename);
      present := [];
      var attempt := 1;
      while attempt <= maxRetries
        invariant 1 <= attempt <= |script| + 1
        invariant 1 <= maxRetries ==> attempt <= maxRetries
        invariant maxRetries < 1 ==> attempt == 1
        invariant network == script[attempt - 1..]
        invariant slept == old(slept) + Backoffs(attempt)
        invariant files == if attempt == 1 then old(files) else old(files) - {filename}
        invariant forall j :: 0 <= j < attempt - 1 ==> Caught(failures[j])
        invariant |present| == attempt - 1
        invariant forall i :: 1 <= i < |present| ==> !present[i]
        decreases maxRetries - attempt
      {
        present := present + [filename in files];
        var failure := TryAttempt(filename);
        match failure {
          case None =>
            RetrieveStopsAt(script, filename, maxRetries, old(files), attempt);
            FetchIsRetrieve(script, filename, maxRetries, old(files));
            return Returned(()), present;
          case Some(e) =>
            if Retryable(e) && attempt < maxRetries {
              slept := slept + [Backoff(attempt)];
              RemoveWritten(old(files), filename, attempt == 1, TryOnce(script[attempt - 1], filename).written);
              if filename in files {
                files := files - {filename};
              }
            } else {
              RetrieveStopsAt(script, filename, maxRetries, old(files), attempt);
              FetchIsRetrieve(script, filename, maxRetries, old(files));
              return Raised(e), present;
            }
        }
        attempt := attempt + 1;
      }
      assert script[0..] == script;
      FetchIsRetrieve(script, filename, maxRetries, old(files));
      return FellThrough, present;
    }
  }
}
