/** The VSCodium download script: pick the amd64 Debian package and its
    exact `.sha256` companion from the release's assets, then fetch the
    package before the checksum. */
module Vscodium {
  import opened Wrappers
  import opened Text
  import opened Assets
  import opened Retry

  const DebSuffix: string := "_amd64.deb"
  const ShaSuffix: string := ".sha256"
  const MaxRetries: int := 3

  predicate IsAmd64Deb(name: string) {
    EndsWith(name, DebSuffix)
  }

  /** The package and its companion, each with its download URL. */
  datatype Pair = Pair(deb: string, debUrl: string, sha: string, shaUrl: string)

  /** The `SystemExit` raised when no pair exists, with the names it lists:
      the first ten asset keys, or `["none"]` when there are none. */
  datatype PairError = NoPair(available: seq<string>)

  /** Lines 21 and 31-38: the first key ending in `_amd64.deb`, and its
      companion only under the exact name `deb + ".sha256"`; a later package
      is never tried in its place, and a release without `assets` has no
      pair. */
  function SelectPair(release: Release): (r: Result<Pair, PairError>)
    ensures var m := IndexOf(release);
      var deb := First(m.names, IsAmd64Deb);
      && (r.Success? <==> deb.Some? && deb.value + ShaSuffix in m.urls)
      && (r.Success? ==>
            && r.value.deb == deb.value && r.value.sha == deb.value + ShaSuffix
            && r.value.debUrl == m.urls[r.value.deb] && r.value.shaUrl == m.urls[r.value.sha])
      && (r.Failure? ==> r.error.available == Preview(m.names, 10))
    ensures release.assets.None? ==> r == Failure(NoPair(["none"]))
  {
    var m := IndexOf(release);
    var deb := First(m.names, IsAmd64Deb);
    var sha := if deb.Some? && deb.value + ShaSuffix in m.urls then Some(deb.value + ShaSuffix) else None;
    if deb.None? || sha.None? then Failure(NoPair(Preview(m.names, 10)))
    else Success(Pair(deb.value, m.urls[deb.value], sha.value, m.urls[sha.value]))
  }

  /** The package chosen is the first one in the release's own asset order. */
  lemma FirstDebInAssetOrder(assets: seq<Asset>)
    ensures var r := SelectPair(Release(Some(assets)));
      r.Success? ==> Some(r.value.deb) == First(Names(assets), IsAmd64Deb)
  {
    FirstKeyIsFirstAsset(assets, IsAmd64Deb);
  }

  /** Lines 42-44: the package is fetched to `outdir/<deb>`, and only once it
      is there the checksum to `outdir/<sha>`; a failure of the first fetch
      is raised before the second starts. */
  function FetchPair(script: seq<Attempt>, outdir: string, pair: Pair, files: map<string, Bytes>): (out: Outcome)
    requires 2 * MaxRetries <= |script|
    ensures out.used <= |script|
  {
    var first := Fetch(script, Join(outdir, pair.deb), MaxRetries, files);
    if first.ending.Raised? then first
    else
      var second := Fetch(script[first.used..], Join(outdir, pair.sha), MaxRetries, first.files);
      Outcome(second.ending, second.files, first.waits + second.waits, first.used + second.used)
  }

  /** When the package fetch raises, that exception ends the step, only the
      package's path may have changed, and the checksum is never fetched. */
  lemma DebFailureSkipsSha(script: seq<Attempt>, outdir: string, pair: Pair, files: map<string, Bytes>)
    requires 2 * MaxRetries <= |script|
    requires pair.sha == pair.deb + ShaSuffix
    requires Fetch(script, Join(outdir, pair.deb), MaxRetries, files).ending.Raised?
    ensures var debPath := Join(outdir, pair.deb);
      var first := Fetch(script, debPath, MaxRetries, files);
      var out := FetchPair(script, outdir, pair, files);
      && out.ending == first.ending
      && out.used == first.used
      && out.files - {debPath} == files - {debPath}
  {
    FetchOnlyDestination(script, Join(outdir, pair.deb), MaxRetries, files);
  }

  /** When both fetches return, both files hold the bodies of their last
      responses, and the package's response came from an earlier attempt
      than the checksum's. */
  lemma {:induction false} DebBeforeSha(script: seq<Attempt>, outdir: string, pair: Pair, files: map<string, Bytes>)
    requires 2 * MaxRetries <= |script|
    requires pair.sha == pair.deb + ShaSuffix
    requires FetchPair(script, outdir, pair, files).ending.Returned?
    ensures var debPath := Join(outdir, pair.deb);
      var shaPath := Join(outdir, pair.sha);
      var n1 := Fetch(script, debPath, MaxRetries, files).used;
      var out := FetchPair(script, outdir, pair, files);
      && 1 <= n1 < out.used
      && script[n1 - 1].Responds? && script[out.used - 1].Responds?
      && debPath in out.files && shaPath in out.files
      && out.files[debPath] == Concat(StreamOf(script[n1 - 1].response.body).chunks)
      && out.files[shaPath] == Concat(StreamOf(script[out.used - 1].response.body).chunks)
  {
    var debPath := Join(outdir, pair.deb);
    var shaPath := Join(outdir, pair.sha);
    assert debPath != shaPath by {
      assert |shaPath| == |debPath| + |ShaSuffix|;
    }
    var first := Fetch(script, debPath, MaxRetries, files);
    assert !first.ending.Raised?;
    FetchReturned(script, debPath, MaxRetries, files);
    var rest := script[first.used..];
    var second := Fetch(rest, shaPath, MaxRetries, first.files);
    FetchReturned(rest, shaPath, MaxRetries, first.files);
    FetchOnlyDestination(rest, shaPath, MaxRetries, first.files);
    assert rest[second.used - 1] == script[first.used + second.used - 1];
    assert debPath in second.files - {shaPath};
  }

  /** The two downloads on the host, in the script's order. */
  method DownloadPair(host: Host, outdir: string, pair: Pair) returns (r: Ending<()>)
    requires 2 * MaxRetries <= |host.network|
    modifies host
    ensures var out := FetchPair(old(host.network), outdir, pair, old(host.files));
      && r == out.ending
      && host.files == out.files
      && host.slept == old(host.slept) + out.waits
      && host.network == old(host.network)[out.used..]
  {
    ghost var net0, slept0 := host.network, host.slept;
    ghost var first := Fetch(host.network, Join(outdir, pair.deb), MaxRetries, host.files);
    ghost var present: seq<bool>;
    r, present := host.UrlRetrieveWithRetry(Join(outdir, pair.deb), MaxRetries);
    assert host.network == net0[first.used..] && host.slept == slept0 + first.waits;
    if !r.Raised? {
      ghost var net1 := host.network;
      ghost var second := Fetch(host.network, Join(outdir, pair.sha), MaxRetries, host.files);
      r, present := host.UrlRetrieveWithRetry(Join(outdir, pair.sha), MaxRetries);
      assert host.network == net1[second.used..] == net0[first.used + second.used..];
      assert host.slept == slept0 + (first.waits + second.waits);
    }
  }
}
