/** Release documents of the release-hosting API and the dict the scripts
    build from them, `{a["name"]: a["browser_download_url"] for a in assets}`,
    with the insertion order Python dicts keep. */
module Assets {
  import opened Wrappers

  /** One entry of a release's `assets` list. */
  datatype Asset = Asset(name: string, url: string)

  /** A decoded release document; `assets` is `None` when the key is missing. */
  datatype Release = Release(assets: Option<seq<Asset>>)

  /** A Python dict from asset name to download URL: the keys in the order
      they were first inserted, and the value each key holds. */
  datatype AssetMap = AssetMap(names: seq<string>, urls: map<string, string>)

  ghost predicate WellFormed(m: AssetMap) {
    && (forall i, j :: 0 <= i < j < |m.names| ==> m.names[i] != m.names[j])
    && (forall n :: n in m.urls <==> n in m.names)
  }

  function Names(assets: seq<Asset>): (names: seq<string>)
    ensures |names| == |assets|
    ensures forall i :: 0 <= i < |assets| ==> names[i] == assets[i].name
  {
    seq(|assets|, i requires 0 <= i < |assets| => assets[i].name)
  }

  function Put(m: AssetMap, a: Asset): AssetMap {
    if a.name in m.urls then AssetMap(m.names, m.urls[a.name := a.url])
    else AssetMap(m.names + [a.name], m.urls[a.name := a.url])
  }

  lemma PutKeepsWellFormed(m: AssetMap, a: Asset)
    requires WellFormed(m)
    ensures WellFormed(Put(m, a))
  {
    if a.name !in m.urls {
      var ns := m.names + [a.name];
      forall i, j | 0 <= i < j < |ns|
        ensures ns[i] != ns[j]
      {
        if j == |ns| - 1 {
          assert ns[i] == m.names[i];
        }
      }
    }
  }

  /** The dict comprehension: every asset name becomes a key, a key keeps its
      first position, and the last asset with a given name supplies its URL. */
  function Index(assets: seq<Asset>): (m: AssetMap)
    ensures WellFormed(m)
    ensures forall n :: n in m.urls <==> n in Names(assets)
  {
    if assets == [] then AssetMap([], map[])
    else
      var init := Index(assets[..|assets| - 1]);
      var a := assets[|assets| - 1];
      assert Names(assets) == Names(assets[..|assets| - 1]) + [a.name];
      PutKeepsWellFormed(init, a);
      Put(init, a)
  }

  /** When names repeat, the later entry wins: the URL stored for an asset's
      name is its own when no later asset has the same name. */
  lemma {:induction false} IndexLaterWins(assets: seq<Asset>, i: nat)
    requires i < |assets|
    requires forall j :: i < j < |assets| ==> assets[j].name != assets[i].name
    ensures Index(assets).urls[assets[i].name] == assets[i].url
  {
    if i < |assets| - 1 {
      IndexLaterWins(assets[..|assets| - 1], i);
    }
  }

  /** The dict built from a missing `assets` key, `data.get("assets", [])`. */
  function IndexOf(release: Release): (m: AssetMap)
    ensures release.assets.None? ==> m.names == [] && m.urls == map[]
  {
    Index(if release.assets.Some? then release.assets.value else [])
  }

  /** The key list an error message shows: `list(assets.keys())[:k] if
      assets else ["none"]`. */
  function Preview(names: seq<string>, k: nat): seq<string> {
    if names == [] then ["none"] else if |names| <= k then names else names[..k]
  }

  /** The first name in `names` that satisfies `p`, as `next(...)` over a
      generator or `[... if p(n)][0]` finds it. */
  function First(names: seq<string>, p: string -> bool): (r: Option<string>)
    ensures r.None? <==> forall i :: 0 <= i < |names| ==> !p(names[i])
    ensures r.Some? ==> exists i :: 0 <= i < |names| && names[i] == r.value && p(r.value)
                                    && forall j :: 0 <= j < i ==> !p(names[j])
  {
    if names == [] then None
    else if p(names[0]) then Some(names[0])
    else
      var r := First(names[1..], p);
      assert forall i :: 1 <= i < |names| ==> names[i] == names[1..][i - 1];
      if r.Some? then
        var i :| 0 <= i < |names[1..]| && names[1..][i] == r.value && p(r.value)
                  && forall j :: 0 <= j < i ==> !p(names[1..][j]);
        assert names[i + 1] == r.value;
        r
      else r
  }

  lemma {:induction false} FirstAppend(names: seq<string>, x: string, p: string -> bool)
    ensures First(names + [x], p) == if First(names, p).Some? then First(names, p) else if p(x) then Some(x) else None
  {
    if names != [] {
      assert (names + [x])[1..] == names[1..] + [x];
      FirstAppend(names[1..], x, p);
    }
  }

  /** Searching the dict's keys finds the same name as searching the asset
      list itself: keys keep the order of each name's first occurrence. */
  lemma {:induction false} FirstKeyIsFirstAsset(assets: seq<Asset>, p: string -> bool)
    ensures First(Index(assets).names, p) == First(Names(assets), p)
  {
    if assets != [] {
      var init := assets[..|assets| - 1];
      var a := assets[|assets| - 1];
      FirstKeyIsFirstAsset(init, p);
      assert Names(assets) == Names(init) + [a.name];
      FirstAppend(Names(init), a.name, p);
      FirstAppend(Index(init).names, a.name, p);
      assert Index(assets) == Put(Index(init), a);
    }
  }
}
