# airgapped_llm bundle scripts in Dafny

This project models the parts of the air-gapped LLM bundle builder that hold
decisions. The builder is a set of Python scripts that download everything a
machine without network access needs: the Ollama runtime, VSCodium, VS Code
extensions from Open VSX, and more.

- **Retry layer** (`Retry`, from `utils.py`): `urlopen_with_retry` and
  `urlretrieve_with_retry`.
  - Both make up to `max_retries` attempts and wait `2**attempt` seconds between failed attempts.
  - Only `URLError`, `TimeoutError` and `OSError`/`IOError` are retried.
  - The fetcher streams the body to the destination file in chunks.
  - It rejects a size that differs from a truthy `Content-Length`, an empty body, and a `.vsix`/`.zip` file that is not a valid ZIP archive.
  - It removes the partial file before the next attempt.
  - The network is a scripted sequence of per-attempt outcomes held by a `Host` object. The host also holds the file system (a map from path to bytes) and the log of requested sleeps.
- **Release assets** (`Assets`): the `{name: browser_download_url}` dict the scripts build from a release document. Python's key order and the later-wins rule for repeated names are modelled.
- **Ollama** (`Ollama`, from `download_ollama.py`):
  - the three-tier asset choice: the preferred exact names, then a non-ROCm linux/amd64 build, then ROCm;
  - the extraction of the official digest from `sha256sum.txt`;
  - the sidecar file content.
- **Open VSX extensions** (`Extension`, from `download_extension.py`):
  - reading the version, namespace and name from a list-shaped or dict-shaped response;
  - the `.vsix` name and its URLs;
  - the wait-and-retry when the registry served an HTML page;
  - the heuristic that replaces an HTML "digest" with a locally computed one.
- **VSCodium** (`Vscodium`, from `download_vscodium.py`): the first `*_amd64.deb` and its exact `.sha256` companion, downloaded in that order.
- **Quote checker** (`Quotes`, from `check_quotes.py`):
  - the two-flag scan over the characters of every line;
  - the report of each line that ends inside a double quote.
- **Shared helpers**:
  - `Sidecar` is the `<digest>  <name>\n` line both downloaders write.
  - `Text` holds the Python string operations the scripts use: `isspace`, `split()`, `strip()`, `lower()`, `in`, `startswith` and `endswith`.
  - `Wrappers` holds `Option` and `Result`.

The state-changing loops are imperative methods, each proved against a
specification function:

| Method | Specification function |
|---|---|
| `Retry.Host.UrlOpenWithRetry` | `Retry.ConnectEnding` |
| `Retry.Host.UrlRetrieveWithRetry` | `Retry.Fetch`, which `Retry.FetchIsRetrieve` ties to `Retry.Retrieve` |
| `Ollama.PickPreferred` | `Ollama.Choose` |
| `Ollama.OfficialHash` | `Ollama.FirstHash`, tied to `Ollama.Qualifies` |
| `Quotes.CheckQuotes` | `Quotes.Reports` |

Selection and formatting rules are functions. The source paths below are
relative to the repository root.

## Model

| member | source | states |
|---|---|---|
| Retry.Backoffs | airgap/scripts/utils.py:50-54 | one wait after each failed attempt but the last, the i-th being `2**i` |
| Retry.TotalBackoff | airgap/scripts/utils.py:110-114 | a loop that made n attempts slept 2^1+…+2^(n-1) = 2^n − 2 seconds in all |
| Retry.AttemptsMade | airgap/scripts/utils.py:39-58 | no attempts when max_retries < 1, otherwise 1..max_retries; every attempt before the last failed with a caught class; a loop stopping early stopped on a success or an uncaught exception |
| Retry.AttemptsMadeIs | airgap/scripts/utils.py:39-58 | the stopping attempt is unique: the first success, the first uncaught exception, or the last allowed attempt |
| Retry.AllCaughtExhausts | airgap/scripts/utils.py:50-58 | when every attempt raises a caught exception, all max_retries attempts are made, with 2^n − 2 seconds of waiting |
| Retry.UncaughtStopsAtOnce | airgap/scripts/utils.py:47-58 | an exception outside URLError/TimeoutError/OSError ends the loop at its first occurrence without using the remaining attempts |
| Retry.ConnectEndingMeaning | airgap/scripts/utils.py:39-58 | a returned handle is the first successful attempt's, with only caught failures before it; a raised exception is the last attempt's, unchanged, and is uncaught or from attempt max_retries; nothing is returned only when max_retries < 1 |
| Retry.Host.UrlOpenWithRetry | airgap/scripts/utils.py:36-58 | the connector's result is the ending above, it consumes exactly the attempts it makes, sleeps exactly Backoffs(n), and leaves the files alone |
| Retry.StreamOf | airgap/scripts/utils.py:77-82 | the chunks written are the non-empty reads before the first empty read or read error |
| Retry.ConcatLength | airgap/scripts/utils.py:75-82 | `downloaded_size` (the sum of the chunk lengths) is the length of the file written |
| Retry.Host.ReadBody | airgap/scripts/utils.py:74-82 | the file opened with 'wb' ends up holding exactly the concatenated chunks, whatever it held before, and the count returned is their total length |
| Retry.Verify | airgap/scripts/utils.py:86-104 | an attempt's body is rejected exactly when a truthy declared size differs, or the size is 0, or an archive name fails the ZIP check; the checks run in that order with their IOError texts, and every rejection is retryable |
| Retry.Accepted | airgap/scripts/utils.py:86-104 | the acceptance test of a completed body: a truthy declared size matches, the body is not empty, an archive name opens as a ZIP; Verify rejects exactly what it refuses |
| Retry.TryOnce | airgap/scripts/utils.py:65-106 | one attempt: a raised connection error, the `ValueError` of a malformed header before the file is opened, or the streamed file with the first read error or Verify's verdict; TryOnceSucceeds states when it succeeds |
| Retry.TryOnceSucceeds | airgap/scripts/utils.py:67-106 | one attempt returns exactly when a response came, Content-Length parsed, every read succeeded and the acceptance test passed; the file then holds the body |
| Retry.Host.TryAttempt | airgap/scripts/utils.py:65-106 | one attempt on the host writes the file and raises as TryOnce says, consuming one network outcome |
| Retry.FetchFrom | airgap/scripts/utils.py:63-120 | the loop from a given attempt on makes at least that attempt and at most max_retries |
| Retry.Fetch | airgap/scripts/utils.py:60-120 | a fetch makes no attempt when max_retries < 1, otherwise between 1 and max_retries |
| Retry.FetchFromIsRetrieve | airgap/scripts/utils.py:63-120 | from any attempt reached through caught failures, the loop ends as Retrieve says after the remaining waits of Backoffs |
| Retry.FetchIsRetrieve | airgap/scripts/utils.py:60-120 | the loop-shaped fetch and the declarative Retrieve agree on ending, files, waits and attempt count |
| Retry.FetchReturned | airgap/scripts/utils.py:63-106 | a fetch that returns leaves at the destination the body of its last response, which was accepted |
| Retry.FetchRaised | airgap/scripts/utils.py:107-120 | a fetch that raises re-raises its last attempt's exception; a caught class means every attempt was made; the file of the final attempt stays in place |
| Retry.FetchEndsWithLast | airgap/scripts/utils.py:106-120 | a fetch ends as its last attempt does (returning, or re-raising that attempt's exception) and leaves that attempt's file at the destination |
| Retry.FetchWaits | airgap/scripts/utils.py:110-114 | the waits of a fetch are Backoffs of the number of attempts it made |
| Retry.FetchOnlyDestination | airgap/scripts/utils.py:110-116 | no path other than the destination is changed |
| Retry.FetchIgnoresOldFile | airgap/scripts/utils.py:76 | what was at the destination before does not change the ending, the attempt count or the file a successful fetch leaves |
| Retry.Host.UrlRetrieveWithRetry | airgap/scripts/utils.py:60-120 | on the host, the ending, files, sleeps and consumed attempts are those of Fetch, and every attempt after the first starts with no file at the destination |
| Assets.Index | airgap/scripts/download_ollama.py:69 | the dict's keys are exactly the asset names, without repeats; their first-occurrence order is proved by FirstKeyIsFirstAsset |
| Assets.IndexLaterWins | airgap/scripts/download_ollama.py:69 | the URL stored for a name is the one of its last occurrence |
| Assets.IndexOf | airgap/scripts/download_vscodium.py:21 | a release without `assets` gives the empty dict |
| Assets.First | airgap/scripts/download_vscodium.py:31 | the first name satisfying the condition, or none exactly when no name does |
| Assets.FirstKeyIsFirstAsset | airgap/scripts/download_ollama.py:89-96 | searching the dict's keys finds the same name as searching the asset list |
| Ollama.Choose | airgap/scripts/download_ollama.py:75-113 | `.tar.zst` beats `.tgz`, which beats everything else; any other pick is a linux/amd64 build; a ROCm pick means no non-ROCm candidate exists; nothing is picked exactly when no preferred name and no linux/amd64 name exists |
| Ollama.PickPreferred | airgap/scripts/download_ollama.py:81-85 | the loop with `break` returns the first preferred name that is a key, or none exactly when neither is |
| Ollama.SelectTarget | airgap/scripts/download_ollama.py:60-115 | a release without `assets` fails before selection; otherwise the choice by tier with the dict's URL, or the failure listing the first 15 keys |
| Ollama.FallbackInAssetOrder | airgap/scripts/download_ollama.py:88-110 | without a preferred name, the non-ROCm (else ROCm) candidate is the first in the release's asset order |
| Ollama.LineHash | airgap/scripts/download_ollama.py:156-160 | a line yields a digest exactly when it qualifies (contains the target, and its second field does too); the digest is its first field |
| Ollama.FirstHashNone | airgap/scripts/download_ollama.py:155-168 | no digest (the for-else) exactly when no line qualifies |
| Ollama.FirstHashFirst | airgap/scripts/download_ollama.py:155-165 | a digest found is the first field of the first qualifying line |
| Ollama.OfficialHash | airgap/scripts/download_ollama.py:154-168 | the loop with `break` finds the digest FirstHash describes |
| Ollama.ChecksumContent | airgap/scripts/download_ollama.py:144-183 | the sidecar is `<digest>  <target>\n` with the official digest when one qualifies, and with the local digest when the checksum file is absent, unreadable or silent |
| Ollama.SidecarLineQualifies | airgap/scripts/download_ollama.py:155-161 | a line in the sidecar format qualifies for its own file name and yields its own digest |
| Sidecar.Line | airgap/scripts/download_ollama.py:183 | the sidecar content `<digest>  <name>\n`, written the same way at download_ollama.py:161 and download_extension.py:114; LineSplits states what reading it back gives |
| Sidecar.LineSplits | airgap/scripts/download_ollama.py:158 | read back with `strip().split()`, the sidecar line gives exactly the digest and the file name |
| Extension.Extract | airgap/scripts/download_extension.py:28-41 | an empty list or another shape fails first; a missing or empty version fails next; otherwise the fields of element 0 or of the dict, with a missing field shown as `None` |
| Extension.VsixName | airgap/scripts/download_extension.py:44 | `namespace.name-version.vsix`, a name the fetcher always ZIP-checks |
| Extension.UrlsShareVersion | airgap/scripts/download_extension.py:64-67 | the constructed download URL and the sha256 URL address the same version, and the former ends in `/file/<vsix name>` |
| Extension.DownloadUrl | airgap/scripts/download_extension.py:47-65 | a truthy `files["download"]` wins, otherwise the constructed URL; never empty |
| Extension.PlanOf | airgap/scripts/download_extension.py:28-67 | metadata failures pass through; a plan is VsixName, DownloadUrl and Sha256Url of the extracted coordinates and their record, so it names a ZIP-checked file, a non-empty download URL (the record's truthy `download` link first) and a registry sha256 URL |
| Extension.Decode | airgap/scripts/download_extension.py:83 | an ASCII-only approximation of the `errors='ignore'` decoding: ASCII bytes are kept in order and every other byte is dropped, so the text is ASCII and never longer than the file |
| Extension.DecodeAscii | airgap/scripts/download_extension.py:83 | an all-ASCII file decodes to its own characters, in order |
| Extension.Newlines | airgap/scripts/download_extension.py:83-84 | text mode translates `\r\n` and a lone `\r` to `\n`: no `\r` is left, nothing grows, ASCII stays ASCII |
| Extension.NewlinesPlain | airgap/scripts/download_extension.py:83-84 | text without `\r` is read unchanged |
| Extension.AsText | airgap/scripts/download_extension.py:83-84 | the text `open(..., 'r', errors='ignore')` reads: the decoded characters with line endings translated; AsTextBounds and AsTextPlain state what it gives |
| Extension.AsTextBounds | airgap/scripts/download_extension.py:83-84 | the text read back is ASCII without `\r` and no longer than the file |
| Extension.AsTextPlain | airgap/scripts/download_extension.py:83-84 | a file of ASCII bytes without CR reads back character for character |
| Extension.RateLimited | airgap/scripts/download_extension.py:77-85 | the condition of the second fetch: a caught `IOError` whose text mentions the ZIP check, an existing destination, and an HTML marker in the first 500 characters read back; HtmlPageFetchedAgain shows when it holds |
| Extension.Download | airgap/scripts/download_extension.py:75-95 | the step as an outcome: one fetch, and after a rate-limit page a 10-second wait and a second fetch whose failure re-raises the first exception; the lemmas below state its properties |
| Extension.ZipMessageMatches | airgap/scripts/utils.py:104 | the text of the fetcher's ZIP-check `IOError` contains the marker `not a valid ZIP archive` the step tests at download_extension.py:79 |
| Extension.HtmlPageFetchedAgain | airgap/scripts/download_extension.py:75-89 | when the first fetch stops on a complete, non-empty page that fails the ZIP check and shows an HTML marker in its first 500 characters, it raises the ZIP `IOError`, the step recognises the page, waits 10 seconds and fetches again |
| Extension.SecondFetchAfterExhaustion | airgap/scripts/download_extension.py:75-95 | the extra fetch only follows a first fetch that used all 3 attempts, after waits of 2, 4 and then 10 seconds |
| Extension.FirstFetchRaised | airgap/scripts/download_extension.py:77-95 | whatever the step raises is the first fetch's exception, even when the second fetch failed differently |
| Extension.DownloadReturnedKeepsArchive | airgap/scripts/download_extension.py:75-95 | when the step returns, the `.vsix` file holds the body of a response that opened as a ZIP archive, never the HTML page |
| Extension.DownloadVsix | airgap/scripts/download_extension.py:75-95 | on the host, the ending, files, sleeps and consumed attempts are those of Download |
| Extension.ChosenHash | airgap/scripts/download_extension.py:101-110 | the local digest exactly when the stripped response starts with `<!DOCTYPE` or `<html` or is longer than 100 characters, and otherwise the stripped response |
| Extension.HexDigestKept | airgap/scripts/download_extension.py:101-110 | a 64-hex-digit response is kept, and the digest written is never one the heuristic would reject |
| Vscodium.SelectPair | airgap/scripts/download_vscodium.py:21-38 | success exactly when the first `_amd64.deb` key has a key named exactly `deb + ".sha256"`; no later package is tried; no `assets` means failure listing `["none"]` |
| Vscodium.FirstDebInAssetOrder | airgap/scripts/download_vscodium.py:31 | the package chosen is the first in the release's asset order |
| Vscodium.FetchPair | airgap/scripts/download_vscodium.py:42-44 | the two downloads as an outcome: the package, then, unless it raised, its checksum from the attempts that follow; DebFailureSkipsSha and DebBeforeSha state its properties |
| Vscodium.DebFailureSkipsSha | airgap/scripts/download_vscodium.py:42-44 | if the package fetch raises, its exception ends the step, nothing but the package's path changed, and the checksum is never fetched |
| Vscodium.DebBeforeSha | airgap/scripts/download_vscodium.py:42-44 | if both fetches return, both files hold their last bodies, the package's from the earlier attempt |
| Vscodium.DownloadPair | airgap/scripts/download_vscodium.py:42-44 | on the host, the two fetches run in that order with the ending, files, sleeps and attempts of FetchPair |
| Quotes.Step | airgap/check_quotes.py:13-22 | a `'` flips the single flag only outside a double quote; a `"` flips the double flag only outside a single quote and when not escaped; other characters change nothing; at most one kind of quote stays open |
| Quotes.ScanTo | airgap/check_quotes.py:11-24 | scanning the characters of a line in order keeps at most one kind of quote open |
| Quotes.ScanLines | airgap/check_quotes.py:7-24 | the flags carry across lines, never reset, and at most one stays open |
| Quotes.ScanLinesAppend | airgap/check_quotes.py:7-10 | scanning two blocks of lines is scanning the second from the flags the first leaves |
| Quotes.ReportsSound | airgap/check_quotes.py:26-27 | every reported line number is in range and its line ends inside a double quote |
| Quotes.ReportsOrdered | airgap/check_quotes.py:10 | reports come in increasing line order |
| Quotes.ReportsComplete | airgap/check_quotes.py:26-27 | every line that ends inside a double quote is reported |
| Quotes.ReportsDescribe | airgap/check_quotes.py:26-27 | line i+1 is reported exactly when the double-quote flag is set after its last character |
| Quotes.OpenSingleNotReported | airgap/check_quotes.py:28-30 | a line that ends inside a single quote is never reported |
| Quotes.CarriedAcrossLines | airgap/check_quotes.py:7-27 | on the two lines `echo "a` and `b"` the open double quote carries over to line 2, and only line 1 is reported |
| Quotes.CheckQuotes | airgap/check_quotes.py:7-30 | the nested loops visit every character once, in order, and report exactly Reports |
| Quotes.BackslashPairMisread | airgap/check_quotes.py:19-22 | the script's rule reports the balanced shell word `"\\"`; the shell's rule does not |
| Quotes.QuotedWordBalanced | airgap/check_quotes.py:19-22 | with the odd-backslash rule, every properly escaped double-quoted word leaves both flags cleared |

## Left out

- Real HTTP: requests, headers, timeouts, redirects and TLS. Each connection attempt is one scripted outcome: an exception, or a response with its Content-Length, its successive reads and a ZIP-validity flag.
- Retry.Host.UrlOpenWithRetry: requires the scripted network to hold an outcome for every attempt that may be made (`max_retries <= |network|`); a real network never runs out.
- Retry.Host.UrlRetrieveWithRetry: the same bound on the scripted network.
- Extension.DownloadVsix: requires outcomes for two full fetches (6 attempts) for the same reason.
- Vscodium.DownloadPair: requires outcomes for two full fetches (6 attempts) for the same reason.
- Retry.TryOnce: `open(filename, 'wb')` is assumed to succeed; an `OSError` from opening the destination is not modelled.
- Retry.Host.UrlRetrieveWithRetry: failures of `os.remove` are not modelled.
- Retry.ParseError: the message is built from the header text between plain single quotes. Python's `repr` may choose other quotes.
- Which Content-Length strings `int()` accepts (signs, spaces, underscores) is abstracted into three header cases: absent, a number, or malformed text.
- ZIP internals: validity is an opaque flag per response. As in the source, only `BadZipFile` counts as invalid; the result of `testzip()` is ignored.
- SHA-256 is an opaque input: the local digest is a parameter.
- JSON decoding: responses are given already parsed.
  - Non-string field values are not modelled.
  - A falsy `files["download"]` is the empty string. A falsy one also falls back to the constructed URL (line 63), which is what the code does.
- Logging (`log_debug`, the extension's debug-log entry), all `print` output, `sys.exit`, and the script-level `except` clauses that turn errors into exit status 1.
- The connectivity probe of the Ollama script and its loop that only prints asset details (download_ollama.py:26-32 and 55-59).
- The fetches that surround the modelled rules are not composed with them:
  - the release and metadata requests;
  - the Ollama archive download;
  - the `sha256sum.txt` download, reading and removal;
  - the extension's sha256 request and its UTF-8 decoding.
  Their results enter as parameters, for example the lines of `sha256sum.txt`, or `None` when it is absent or its download raised.
- Extension.AsText: the saved file is decoded with `errors='ignore'`, ASCII bytes only. A non-ASCII UTF-8 character is dropped rather than decoded. That shifts the 500-character window, and it can also join the two halves of a marker split by such a character (`<htéml>` reads as `<html>` in the model, where the script finds no marker). The universal-newline translation is modelled (Extension.Newlines).
- Extension.Decode: a valid multi-byte UTF-8 character is dropped instead of decoded to one non-ASCII character; only ASCII input reads back as the script reads it (DecodeAscii), because the model does not include a UTF-8 decoder.
- Text.Lower: only ASCII letters are lowered.
- The `.stat()` size of the saved `.vsix`, which is only logged.
- Quotes.CheckQuotes:
  - works on the list of lines (with their newlines) rather than reading `get_bundle.sh`;
  - reports line numbers without the printed `line.strip()` text.
- download_python_packages.py (it only shells out to `pip`) and download_rust_toolchain.py (one call of the fetcher plus `chmod`) have no logic of their own and are not part of this model.

## Findings

| source | as written | input that shows it | evidently intended | confidence | as-written member | corrected member |
|---|---|---|---|---|---|---|
| airgap/check_quotes.py:19-22 | a `"` counts as escaped whenever the character before it is a backslash | the line `"\\"`, a correctly closed double-quoted shell word holding one escaped backslash, is reported as ending inside a double quote | a `"` is escaped only after an odd run of backslashes, as in the shell | medium; not executed | Quotes.BackslashPairMisread | Quotes.QuotedWordBalanced |

`Quotes.CheckQuotes` takes the escape rule as a parameter:

- `PrecedingBackslash` is the rule the script applies.
- `OddBackslashRun` is the corrected rule.
