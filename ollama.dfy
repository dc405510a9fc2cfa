/** The selection and checksum rules of the Ollama download script: which
    release asset to fetch, and which digest to write to its sidecar file. */
module Ollama {
  import opened Wrappers
  import opened Text
  import opened Assets
  import Sidecar

  /** The standard builds, most preferred first. */
  const Preferred: seq<string> := ["ollama-linux-amd64.tar.zst", "ollama-linux-amd64.tgz"]

  /** The name, lowercased, mentions "ollama", "linux" and "amd64". */
  predicate LinuxAmd64(name: string) {
    var lower := Lower(name);
    Contains(lower, "ollama") && Contains(lower, "linux") && Contains(lower, "amd64")
  }

  predicate IsRocm(name: string) {
    Contains(Lower(name), "rocm")
  }

  /** A candidate of the second tier: a Linux amd64 build that is not ROCm. */
  predicate Standard(name: string) {
    LinuxAmd64(name) && !IsRocm(name)
  }

  /** A candidate of the last tier: a ROCm Linux amd64 build. */
  predicate RocmBuild(name: string) {
    LinuxAmd64(name) && IsRocm(name)
  }

  datatype SelectError =
    | MissingAssets    // the release document has no `assets` key
    | NoSuitableAsset(available: seq<string>)  // no asset of any tier; the first 15 keys

  /** The three tiers: the first preferred name present, else the first
      non-ROCm Linux amd64 key, else the first ROCm one. */
  function Choose(m: AssetMap): (r: Option<string>)
    requires WellFormed(m)
    ensures r.Some? ==> r.value in m.urls
    ensures Preferred[0] in m.urls ==> r == Some(Preferred[0])
    ensures Preferred[0] !in m.urls && Preferred[1] in m.urls ==> r == Some(Preferred[1])
    ensures r.Some? && r.value !in Preferred ==> LinuxAmd64(r.value)
    ensures r.Some? && IsRocm(r.value) && r.value !in Preferred ==>
      forall i :: 0 <= i < |m.names| ==> !Standard(m.names[i])
    ensures r.None? <==>
      && (forall i :: 0 <= i < |Preferred| ==> Preferred[i] !in m.urls)
      && (forall i :: 0 <= i < |m.names| ==> !LinuxAmd64(m.names[i]))
  {
    if Preferred[0] in m.urls then Some(Preferred[0])
    else if Preferred[1] in m.urls then Some(Preferred[1])
    else
      var standard := First(m.names, Standard);
      if standard.Some? then standard else First(m.names, RocmBuild)
  }

  /** The `for name in preferred_names` loop: the first preferred name that is
      a key of the asset dict, if any. */
  method PickPreferred(m: AssetMap) returns (target: Option<string>)
    ensures target.None? <==> forall i :: 0 <= i < |Preferred| ==> Preferred[i] !in m.urls
    ensures target.Some? ==> exists i :: 0 <= i < |Preferred| && Preferred[i] == target.value
                                         && target.value in m.urls
                                         && forall j :: 0 <= j < i ==> Preferred[j] !in m.urls
  {
    target := None;
    var k := 0;
    while k < |Preferred|
      invariant 0 <= k <= |Preferred|
      invariant forall j :: 0 <= j < k ==> Preferred[j] !in m.urls
    {
      if Preferred[k] in m.urls {
        target := Some(Preferred[k]);
        break;
      }
      k := k + 1;
    }
  }

  /** Lines 50-115 of the script: refuse a release without `assets`, build the
      asset dict, pick the target by tier, and look up its URL. */
  method SelectTarget(release: Release) returns (r: Result<Asset, SelectError>)
    ensures release.assets.None? ==> r == Failure(MissingAssets)
    ensures release.assets.Some? ==>
      var m := Index(release.assets.value);
      r == match Choose(m)
        case Some(name) => Success(Asset(name, m.urls[name]))
        case None => Failure(NoSuitableAsset(Preview(m.names, 15)))
  {
    if release.assets.None? {
      return Failure(MissingAssets);
    }
    var m := Index(release.assets.value);
    var target := PickPreferred(m);
    if target.None? {
      var alternatives := First(m.names, Standard);
      if alternatives.Some? {
        target := alternatives;
      } else {
        var rocm := First(m.names, RocmBuild);
        if rocm.None? {
          return Failure(NoSuitableAsset(Preview(m.names, 15)));
        }
        target := rocm;
      }
    }
    return Success(Asset(target.value, m.urls[target.value]));
  }

  /** Without a preferred name, the candidate chosen is the first in the
      release's own asset order, not merely the first dict key. */
  lemma FallbackInAssetOrder(assets: seq<Asset>)
    requires forall i :: 0 <= i < |Preferred| ==> Preferred[i] !in Index(assets).urls
    ensures Choose(Index(assets)) ==
      if First(Names(assets), Standard).Some? then First(Names(assets), Standard)
      else First(Names(assets), RocmBuild)
  {
    FirstKeyIsFirstAsset(assets, Standard);
    FirstKeyIsFirstAsset(assets, RocmBuild);
  }

  // ---------------------------------------------------------------------------
  // The digest written to `<target>.sha256`

  /** A line of `sha256sum.txt` that names the target: it contains the target,
      and so does its second whitespace-separated field. */
  predicate Qualifies(line: string, target: string) {
    && Contains(line, target)
    && var parts := Split(Strip(line));
    && |parts| >= 2
    && Contains(parts[1], target)
  }

  /** Line `i` is the first line that qualifies. */
  predicate FirstQualifying(lines: seq<string>, i: int, target: string) {
    && 0 <= i < |lines|
    && Qualifies(lines[i], target)
    && forall j :: 0 <= j < i ==> !Qualifies(lines[j], target)
  }

  /** One pass of the `for line in f` loop: the line's first field when it
      names the target. */
  function LineHash(line: string, target: string): (h: Option<string>)
    ensures h.Some? <==> Qualifies(line, target)
    ensures h.Some? ==> h.value == Split(Strip(line))[0]
  {
    if Contains(line, target) then
      var parts := Split(Strip(line));
      if |parts| >= 2 && Contains(parts[1], target) then Some(parts[0]) else None
    else None
  }

  /** The digest the loop stops at: that of the first line that names the
      target, if any. */
  function FirstHash(lines: seq<string>, target: string): Option<string> {
    if lines == [] then None
    else if LineHash(lines[0], target).Some? then LineHash(lines[0], target)
    else FirstHash(lines[1..], target)
  }

  /** No digest exactly when no line qualifies. */
  lemma {:induction false} FirstHashNone(lines: seq<string>, target: string)
    ensures FirstHash(lines, target).None? <==> forall i :: 0 <= i < |lines| ==> !Qualifies(lines[i], target)
  {
    if lines != [] {
      var rest := lines[1..];
      FirstHashNone(rest, target);
      assert forall i :: 1 <= i < |lines| ==> lines[i] == rest[i - 1];
    }
  }

  /** A digest is the first field of the first qualifying line. */
  lemma {:induction false} FirstHashFirst(lines: seq<string>, target: string)
    requires FirstHash(lines, target).Some?
    ensures exists i :: FirstQualifying(lines, i, target) && FirstHash(lines, target).value == Split(Strip(lines[i]))[0]
  {
    if LineHash(lines[0], target).Some? {
      assert FirstQualifying(lines, 0, target);
    } else {
      var rest := lines[1..];
      FirstHashFirst(rest, target);
      var i :| FirstQualifying(rest, i, target) && FirstHash(rest, target).value == Split(Strip(rest[i]))[0];
      assert lines[i + 1] == rest[i];
      forall j | 0 <= j < i + 1
        ensures !Qualifies(lines[j], target)
      {
        if j > 0 {
          assert lines[j] == rest[j - 1];
        }
      }
      assert FirstQualifying(lines, i + 1, target);
    }
  }

  /** The `for line in f` loop over `sha256sum.txt` with its `break`: the first
      field of the first qualifying line, or `None` when the `else` branch
      runs. */
  method OfficialHash(lines: seq<string>, target: string) returns (hash: Option<string>)
    ensures hash == FirstHash(lines, target)
  {
    var k := 0;
    while k < |lines|
      invariant 0 <= k <= |lines|
      invariant FirstHash(lines[k..], target) == FirstHash(lines, target)
    {
      var line := lines[k];
      assert lines[k..][0] == line && lines[k..][1..] == lines[k + 1..];
      if Contains(line, target) {
        var parts := Split(Strip(line));
        if |parts| >= 2 && Contains(parts[1], target) {
          return Some(parts[0]);
        }
      }
      k := k + 1;
    }
    assert lines[k..] == [];
    return None;
  }

  /** The content of the sidecar file. `sumLines` holds the lines of the
      release's `sha256sum.txt`, or is `None` when the release has no such
      asset or fetching it raised; `localDigest` is the digest of the
      downloaded archive, used when no official one is found. */
  method ChecksumContent(sumLines: Option<seq<string>>, target: string, localDigest: string)
    returns (content: string)
    ensures sumLines.None? ==> content == Sidecar.Line(localDigest, target)
    ensures sumLines.Some? && (forall i :: 0 <= i < |sumLines.value| ==> !Qualifies(sumLines.value[i], target))
            ==> content == Sidecar.Line(localDigest, target)
    ensures sumLines.Some? && (exists i :: 0 <= i < |sumLines.value| && Qualifies(sumLines.value[i], target))
            ==> exists i :: FirstQualifying(sumLines.value, i, target)
                            && content == Sidecar.Line(Split(Strip(sumLines.value[i]))[0], target)
  {
    var official: Option<string> := None;
    if sumLines.Some? {
      official := OfficialHash(sumLines.value, target);
      FirstHashNone(sumLines.value, target);
      if official.Some? {
        FirstHashFirst(sumLines.value, target);
      }
    }
    if official.Some? {
      content := Sidecar.Line(official.value, target);
    } else {
      content := Sidecar.Line(localDigest, target);
    }
  }

  /** A `sha256sum.txt` line in the sidecar format qualifies for its own file
      name and gives back its own digest. */
  lemma {:induction false} SidecarLineQualifies(digest: string, name: string)
    requires digest != [] && name != [] && NoSpace(digest) && NoSpace(name)
    ensures Qualifies(Sidecar.Line(digest, name), name)
    ensures Split(Strip(Sidecar.Line(digest, name)))[0] == digest
  {
    var line := Sidecar.Line(digest, name);
    Sidecar.LineSplits(digest, name);
    assert name <= line[|digest| + 2..];
    assert name <= name[0..];
  }
}
