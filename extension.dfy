/** The Open VSX extension script: from the API's metadata to the `.vsix`
    file name and its URLs, the extra wait-and-retry when the registry
    answered with an HTML page, and the choice of the digest written to the
    sidecar file. */
module Extension {
  import opened Wrappers
  import opened Text
  import opened Retry

  /** One extension record of the API; a field is `None` when the key is
      missing. `files` is `None` when it is missing or is not a dict, and a
      falsy `download` value is the empty string. */
  datatype Meta = Meta(version: Option<string>, namespace: Option<string>, name: Option<string>,
                       files: Option<map<string, string>>)

  /** The decoded API response: a list of records, one record, or anything else. */
  datatype ApiResponse = ListResponse(items: seq<Meta>) | DictResponse(meta: Meta) | OtherResponse

  datatype MetaError =
    | UnexpectedFormat  // "Unexpected API response format"
    | NoVersion         // "Could not determine version from API response"

  /** The three fields, as the f-strings render them. */
  datatype Coordinates = Coordinates(namespace: string, name: string, version: string)

  /** The names and URLs the script goes on to use. */
  datatype Plan = Plan(vsixName: string, downloadUrl: string, sha256Url: string)

  const Api: string := "https://open-vsx.org/api/"

  /** An f-string renders a missing field as `None`. */
  function Show(field: Option<string>): string {
    if field.Some? then field.value else "None"
  }

  /** The record the fields are read from: element 0 of a non-empty list, or
      the dict itself. */
  function Record(data: ApiResponse): Option<Meta> {
    match data
    case ListResponse(items) => if |items| > 0 then Some(items[0]) else None
    case DictResponse(meta) => Some(meta)
    case OtherResponse => None
  }

  /** Lines 28-41: an empty list or any other shape is refused first, then a
      missing or empty version; otherwise the fields of the record. */
  function Extract(data: ApiResponse): (r: Result<Coordinates, MetaError>)
    ensures r == Failure(UnexpectedFormat) <==> data.OtherResponse? || data == ListResponse([])
    ensures r == Failure(NoVersion) <==>
      Record(data).Some? && (Record(data).value.version.None? || Record(data).value.version.value == "")
    ensures r.Success? ==>
      && Record(data).Some?
      && var m := Record(data).value;
      && m.version.Some? && r.value.version == m.version.value != ""
      && r.value.namespace == Show(m.namespace)
      && r.value.name == Show(m.name)
  {
    match Record(data)
    case None => Failure(UnexpectedFormat)
    case Some(m) =>
      if m.version.None? || m.version.value == "" then Failure(NoVersion)
      else Success(Coordinates(Show(m.namespace), Show(m.name), m.version.value))
  }

  /** `f"{namespace}.{name}-{version}.vsix"`. Every such name gets the
      fetcher's ZIP check. */
  function VsixName(c: Coordinates): (r: string)
    ensures EndsWith(r, ".vsix") && IsArchiveName(r)
    ensures StartsWith(r, c.namespace + "." + c.name + "-" + c.version)
  {
    var stem := c.namespace + "." + c.name + "-" + c.version;
    EndsWithAppend(stem, ".vsix");
    stem + ".vsix"
  }

  /** The URL of one version's resources. */
  function VersionBase(c: Coordinates): string {
    Api + c.namespace + "/" + c.name + "/" + c.version + "/"
  }

  function ConstructedUrl(c: Coordinates): string {
    Api + c.namespace + "/" + c.name + "/" + c.version + "/file/" + VsixName(c)
  }

  function Sha256Url(c: Coordinates): string {
    Api + c.namespace + "/" + c.name + "/" + c.version + "/sha256"
  }

  /** Both URLs address the same version, and the constructed download URL
      names the `.vsix` file the script saves. */
  lemma UrlsShareVersion(c: Coordinates)
    ensures StartsWith(ConstructedUrl(c), VersionBase(c))
    ensures StartsWith(Sha256Url(c), VersionBase(c))
    ensures EndsWith(ConstructedUrl(c), "/file/" + VsixName(c))
  {
    var base := VersionBase(c);
    assert ConstructedUrl(c) == base + ("file/" + VsixName(c));
    assert Sha256Url(c) == base + "sha256";
    assert ConstructedUrl(c) == (base[..|base| - 1]) + ("/file/" + VsixName(c));
    EndsWithAppend(base[..|base| - 1], "/file/" + VsixName(c));
  }

  /** Lines 49-65: a truthy `files["download"]` from the record wins; otherwise
      the constructed URL. Either way the URL is not empty. */
  function DownloadUrl(m: Meta, c: Coordinates): (r: string)
    ensures r != []
    ensures m.files.Some? && "download" in m.files.value && m.files.value["download"] != "" ==>
      r == m.files.value["download"]
    ensures !(m.files.Some? && "download" in m.files.value && m.files.value["download"] != "") ==>
      r == ConstructedUrl(c)
  {
    if m.files.Some? && "download" in m.files.value && m.files.value["download"] != "" then
      m.files.value["download"]
    else
      ConstructedUrl(c)
  }

  /** Lines 28-67 together. */
  function PlanOf(data: ApiResponse): (r: Result<Plan, MetaError>)
    ensures r.Failure? <==> Extract(data).Failure?
    ensures r.Failure? ==> r.error == Extract(data).error
    ensures r.Success? ==>
      && IsArchiveName(r.value.vsixName)
      && r.value.downloadUrl != []
      && StartsWith(r.value.sha256Url, Api)
    /** The plan is built from the extracted coordinates and the record they
        came from, by the functions that state each piece's promise. */
    ensures r.Success? ==>
      && Extract(data).Success? && Record(data).Some?
      && var c := Extract(data).value;
      && r.value == Plan(VsixName(c), DownloadUrl(Record(data).value, c), Sha256Url(c))
  {
    match Extract(data)
    case Failure(err) => Failure(err)
    case Success(c) =>
      UrlsShareVersion(c);
      Success(Plan(VsixName(c), DownloadUrl(Record(data).value, c), Sha256Url(c)))
  }

  // ---------------------------------------------------------------------------
  // The wait-and-retry on a rate-limit page

  const MaxRetries: int := 3
  const ZipMarker: string := "not a valid ZIP archive"
  /** The wait, in seconds, before the second fetch. */
  const RateLimitWait: nat := 10

  /** Decoding with `errors='ignore'`: ASCII bytes become their characters
      and every other byte is dropped. */
  function Decode(data: Bytes): (s: string)
    ensures |s| <= |data|
    ensures forall i :: 0 <= i < |s| ==> s[i] as int < 128
  {
    if data == [] then []
    else (if data[0] < 128 then [(data[0] as int) as char] else []) + Decode(data[1..])
  }

  /** Universal newlines, the default of text mode: `\r\n` and a lone `\r`
      are both read as `\n`. */
  function Newlines(s: string): (t: string)
    ensures |t| <= |s|
    ensures forall i :: 0 <= i < |t| ==> t[i] != '\r'
    ensures (forall i :: 0 <= i < |s| ==> s[i] as int < 128) ==> forall i :: 0 <= i < |t| ==> t[i] as int < 128
    decreases |s|
  {
    if s == [] then []
    else if s[0] == '\r' then ['\n'] + Newlines(if |s| > 1 && s[1] == '\n' then s[2..] else s[1..])
    else [s[0]] + Newlines(s[1..])
  }

  /** The text `open(path, 'r', errors='ignore')` reads from a file: its
      ASCII characters, with line endings translated. */
  function AsText(data: Bytes): string {
    Newlines(Decode(data))
  }

  /** The text read back is ASCII without a carriage return, and no longer
      than the file. */
  lemma AsTextBounds(data: Bytes)
    ensures |AsText(data)| <= |data|
    ensures forall i :: 0 <= i < |AsText(data)| ==> AsText(data)[i] as int < 128 && AsText(data)[i] != '\r'
  {
  }

  /** An all-ASCII file decodes to its own characters. */
  lemma {:induction false} DecodeAscii(data: Bytes)
    requires forall i :: 0 <= i < |data| ==> data[i] < 128
    ensures |Decode(data)| == |data|
    ensures forall i :: 0 <= i < |data| ==> Decode(data)[i] as int == data[i] as int
  {
    if data != [] {
      DecodeAscii(data[1..]);
      assert Decode(data) == [(data[0] as int) as char] + Decode(data[1..]);
    }
  }

  /** Text without a carriage return is read unchanged. */
  lemma {:induction false} NewlinesPlain(s: string)
    requires forall i :: 0 <= i < |s| ==> s[i] != '\r'
    ensures Newlines(s) == s
    decreases |s|
  {
    if s != [] {
      NewlinesPlain(s[1..]);
    }
  }

  /** A file of ASCII bytes without CR reads back character for character. */
  lemma AsTextPlain(data: Bytes)
    requires forall i :: 0 <= i < |data| ==> data[i] < 128 && data[i] != 13
    ensures |AsText(data)| == |data|
    ensures forall i :: 0 <= i < |data| ==> AsText(data)[i] as int == data[i] as int
  {
    DecodeAscii(data);
    NewlinesPlain(Decode(data));
  }

  predicate HtmlPage(content: string) {
    Contains(content, "<!DOCTYPE html>") || Contains(content, "<html")
  }

  /** The condition of the second fetch: the first one failed with an `IOError`
      whose text mentions the ZIP check, and the saved file exists and has an
      HTML marker in its first 500 characters. */
  predicate RateLimited(e: Exc, files: map<string, Bytes>, filename: string) {
    && Retryable(e)
    && Contains(e.msg, ZipMarker)
    && filename in files
    && HtmlPage(Take(AsText(files[filename]), 500))
  }

  /** Lines 75-95: one fetch of up to three attempts; when it fails on a
      rate-limit page, a wait and a second fetch whose failure, of any kind,
      re-raises the first fetch's exception. */
  function Download(script: seq<Attempt>, filename: string, files: map<string, Bytes>): (out: Outcome)
    requires 2 * MaxRetries <= |script|
    ensures out.used <= |script|
  {
    var first := Fetch(script, filename, MaxRetries, files);
    if first.ending.Raised? && RateLimited(first.ending.e, first.files, filename) then
      var second := Fetch(script[first.used..], filename, MaxRetries, first.files);
      Outcome(if second.ending.Raised? then first.ending else Returned(()),
              second.files, first.waits + [RateLimitWait] + second.waits, first.used + second.used)
    else
      first
  }

  /** The second fetch only follows a first fetch that used all three
      attempts and waited 2 and 4 seconds between them, and it starts after
      the 10-second wait. */
  lemma SecondFetchAfterExhaustion(script: seq<Attempt>, filename: string, files: map<string, Bytes>)
    requires 2 * MaxRetries <= |script|
    ensures var first := Fetch(script, filename, MaxRetries, files);
      var out := Download(script, filename, files);
      out.used > first.used ==> first.used == MaxRetries && out.waits[..3] == [2, 4, RateLimitWait]
  {
    var first := Fetch(script, filename, MaxRetries, files);
    var out := Download(script, filename, files);
    if first.ending.Raised? && RateLimited(first.ending.e, first.files, filename) {
      FetchRaised(script, filename, MaxRetries, files);
      FetchWaits(script, filename, MaxRetries, files);
      var second := Fetch(script[first.used..], filename, MaxRetries, first.files);
      assert out.waits == Backoffs(3) + [RateLimitWait] + second.waits;
      assert Backoffs(3) == [2, 4];
    } else {
      assert out == first;
    }
  }

  /** Whatever the step raises is the first fetch's exception: a failure of
      the second fetch, of any kind, re-raises it. */
  lemma FirstFetchRaised(script: seq<Attempt>, filename: string, files: map<string, Bytes>)
    requires 2 * MaxRetries <= |script|
    requires Download(script, filename, files).ending.Raised?
    ensures Download(script, filename, files).ending == Fetch(script, filename, MaxRetries, files).ending
  {
    var first := Fetch(script, filename, MaxRetries, files);
    if first.ending.Raised? && RateLimited(first.ending.e, first.files, filename) {
      var second := Fetch(script[first.used..], filename, MaxRetries, first.files);
      assert Download(script, filename, files).ending == if second.ending.Raised? then first.ending else Returned(());
    }
  }

  /** What a throttling registry serves instead of the archive: a response
      that streams completely, agrees with its Content-Length, is not empty,
      fails the ZIP check, and shows an HTML marker in its first 500
      characters. */
  predicate ServesHtmlPage(a: Attempt) {
    && a.Responds?
    && !a.response.contentLength.Malformed?
    && var s := StreamOf(a.response.body);
    && s.failure.None?
    && var declared := Declared(a.response.contentLength);
    && (declared.Some? && declared.value != 0 ==> SumLengths(s.chunks) == declared.value)
    && SumLengths(s.chunks) != 0
    && !a.response.zipValid
    && HtmlPage(Take(AsText(Concat(s.chunks)), 500))
  }

  /** The message of the fetcher's ZIP check mentions the text the step
      looks for. */
  lemma ZipMessageMatches(filename: string)
    ensures Contains("Downloaded file is not a valid ZIP archive: " + filename, ZipMarker)
  {
    var msg := "Downloaded file is not a valid ZIP archive: " + filename;
    assert ZipMarker <= msg[19..];
  }

  /** When the first fetch stops on a page served in place of the archive,
      it raises the ZIP check's `IOError`, the step recognises the page, and
      after the 10-second wait it fetches again. */
  lemma HtmlPageFetchedAgain(script: seq<Attempt>, filename: string, files: map<string, Bytes>)
    requires 2 * MaxRetries <= |script|
    requires IsArchiveName(filename)
    requires ServesHtmlPage(script[Fetch(script, filename, MaxRetries, files).used - 1])
    ensures var first := Fetch(script, filename, MaxRetries, files);
      var out := Download(script, filename, files);
      && first.ending == Raised(IOError("Downloaded file is not a valid ZIP archive: " + filename))
      && RateLimited(first.ending.e, first.files, filename)
      && out.used > first.used
      && out.waits == first.waits + [RateLimitWait] + Fetch(script[first.used..], filename, MaxRetries, first.files).waits
  {
    var first := Fetch(script, filename, MaxRetries, files);
    FetchEndsWithLast(script, filename, MaxRetries, files);
    ZipMessageMatches(filename);
  }

  /** A download step that returns leaves at the destination the body of the
      response of its last attempt, and for a `.vsix` or `.zip` destination
      that response opened as a ZIP archive: an HTML page is never kept. */
  lemma {:induction false} DownloadReturnedKeepsArchive(script: seq<Attempt>, filename: string, files: map<string, Bytes>)
    requires 2 * MaxRetries <= |script|
    requires IsArchiveName(filename)
    requires Download(script, filename, files).ending.Returned?
    ensures var out := Download(script, filename, files);
      && 1 <= out.used && script[out.used - 1].Responds?
      && var resp := script[out.used - 1].response;
      && resp.zipValid
      && filename in out.files
      && out.files[filename] == Concat(StreamOf(resp.body).chunks)
  {
    var first := Fetch(script, filename, MaxRetries, files);
    if first.ending.Raised? && RateLimited(first.ending.e, first.files, filename) {
      var rest := script[first.used..];
      var second := Fetch(rest, filename, MaxRetries, first.files);
      FetchReturned(rest, filename, MaxRetries, first.files);
      assert rest[second.used - 1] == script[first.used + second.used - 1];
    } else {
      FetchReturned(script, filename, MaxRetries, files);
    }
  }

  /** The download step on the host: `urlretrieve_with_retry` with three
      attempts, then on a rate-limit page `time.sleep(10)` and one more. */
  method DownloadVsix(host: Host, filename: string) returns (r: Ending<()>)
    requires 2 * MaxRetries <= |host.network|
    modifies host
    ensures var out := Download(old(host.network), filename, old(host.files));
      && r == out.ending
      && host.files == out.files
      && host.slept == old(host.slept) + out.waits
      && host.network == old(host.network)[out.used..]
  {
    ghost var net0, slept0 := host.network, host.slept;
    ghost var out1 := Fetch(host.network, filename, MaxRetries, host.files);
    ghost var present: seq<bool>;
    var first;
    first, present := host.UrlRetrieveWithRetry(filename, MaxRetries);
    assert host.network == net0[out1.used..] && host.slept == slept0 + out1.waits;
    r := first;
    var limited := first.Raised? && Retryable(first.e) && Contains(first.e.msg, ZipMarker) && filename in host.files;
    if limited {
      var content := Take(AsText(host.files[filename]), 500);
      limited := HtmlPage(content);
    }
    assert limited == (first.Raised? && RateLimited(first.e, host.files, filename));
    if limited {
      {
        host.Sleep(RateLimitWait);
        ghost var net1 := host.network;
        ghost var out2 := Fetch(host.network, filename, MaxRetries, host.files);
        var second;
        second, present := host.UrlRetrieveWithRetry(filename, MaxRetries);
        if !second.Raised? {
          r := Returned(());
        }
        assert host.network == net1[out2.used..] == net0[out1.used + out2.used..];
        assert host.slept == slept0 + (out1.waits + [RateLimitWait] + out2.waits);
      }
    }
  }

  // ---------------------------------------------------------------------------
  // The digest written to the sidecar file

  predicate IsHexDigit(c: char) {
    '0' <= c <= '9' || 'a' <= c <= 'f'
  }

  /** A `hexdigest()` of SHA-256: 64 lowercase hexadecimal digits. */
  predicate IsHexDigest(s: string) {
    |s| == 64 && forall i :: 0 <= i < |s| ==> IsHexDigit(s[i])
  }

  /** What the heuristic takes for a throttling page rather than a digest. */
  predicate Throttled(hash: string) {
    StartsWith(hash, "<!DOCTYPE") || StartsWith(hash, "<html") || |hash| > 100
  }

  /** Lines 101-110: the stripped response, unless it looks like a throttling
      page, in which case the digest of the downloaded file. */
  function ChosenHash(response: string, localDigest: string): (h: string)
    ensures Throttled(Strip(response)) ==> h == localDigest
    ensures !Throttled(Strip(response)) ==> h == Strip(response)
  {
    var hash := Strip(response);
    if Throttled(hash) then localDigest else hash
  }

  /** A digest begins with a hexadecimal digit, never with `<`, and is far
      shorter than a page. */
  lemma HexNotThrottled(h: string)
    requires IsHexDigest(h)
    ensures !Throttled(h)
  {
    assert IsHexDigit(h[0]) && h[0] != '<';
  }

  /** A digest sent by the registry is kept, and the digest written is never
      one the heuristic would itself reject. */
  lemma HexDigestKept(response: string, localDigest: string)
    requires IsHexDigest(localDigest)
    ensures IsHexDigest(Strip(response)) ==> ChosenHash(response, localDigest) == Strip(response)
    ensures !Throttled(ChosenHash(response, localDigest))
  {
    var hash := Strip(response);
    if IsHexDigest(hash) {
      HexNotThrottled(hash);
    }
    HexNotThrottled(localDigest);
  }
}
