/** Choosing a release asset by name: the exact-then-substring search of updater 1.1,
    the exact-only loop of the 1.0.9 mod manager, and which updater 1.0.9 launches. */
module Assets {

  import opened Common
  import opened Text

  /** A release asset: its `name` ("" when the key is missing) and its
      `browser_download_url` (`None` when missing or null). */
  datatype Asset = Asset(name: string, url: Option<string>)

  /** The asset's name as both searches compare it. */
  function Key(a: Asset): string
  {
    Lower(a.name)
  }

  /** The index of the first asset whose lower-cased name satisfies "equals `exp`". */
  function FirstExact(assets: seq<Asset>, exp: string): (r: Option<nat>)
    ensures r.Some? ==> r.value < |assets| && Key(assets[r.value]) == exp
    ensures r.Some? ==> forall j :: 0 <= j < r.value ==> Key(assets[j]) != exp
    ensures r.None? ==> forall j :: 0 <= j < |assets| ==> Key(assets[j]) != exp
  {
    if |assets| == 0 then None
    else if Key(assets[0]) == exp then Some(0)
    else
      var rest := FirstExact(assets[1..], exp);
      if rest.Some? then Some(rest.value + 1) else None
  }

  /** The index of the first asset whose lower-cased name contains `exp`. */
  function FirstContaining(assets: seq<Asset>, exp: string): (r: Option<nat>)
    ensures r.Some? ==> r.value < |assets| && Contains(Key(assets[r.value]), exp)
    ensures r.Some? ==> forall j :: 0 <= j < r.value ==> !Contains(Key(assets[j]), exp)
    ensures r.None? ==> forall j :: 0 <= j < |assets| ==> !Contains(Key(assets[j]), exp)
  {
    if |assets| == 0 then None
    else if Contains(Key(assets[0]), exp) then Some(0)
    else
      var rest := FirstContaining(assets[1..], exp);
      if rest.Some? then Some(rest.value + 1) else None
  }

  /** `find_asset_by_name(assets, expected)` of updater 1.1, as the index of the asset it
      returns: the first exact (case-insensitive) match, else the first asset whose name
      contains the expected name, else `None`. */
  function FindAssetByName(assets: seq<Asset>, expected: string): (r: Option<nat>)
    ensures r.Some? ==> r.value < |assets| && Contains(Key(assets[r.value]), Lower(expected))
    ensures r.None? <==> forall j :: 0 <= j < |assets| ==> !Contains(Key(assets[j]), Lower(expected))
  {
    var exp := Lower(expected);
    var exact := FirstExact(assets, exp);
    if exact.Some? then
      EqualContains(Key(assets[exact.value]));
      exact
    else FirstContaining(assets, exp)
  }

  /** A string contains itself. */
  lemma EqualContains(s: string)
    ensures Contains(s, s)
  {
    assert StartsWith(s, s);
  }

  /** An exact match wins wherever it is: it is chosen over any earlier asset whose name
      merely contains the expected name. */
  lemma ExactBeatsEarlierSubstring(assets: seq<Asset>, expected: string, i: nat, j: nat)
    requires j < i < |assets|
    requires Key(assets[i]) == Lower(expected)
    requires Key(assets[j]) != Lower(expected) && Contains(Key(assets[j]), Lower(expected))
    requires forall k :: 0 <= k < i ==> Key(assets[k]) != Lower(expected)
    ensures FindAssetByName(assets, expected) == Some(i)
  {
    FirstExactAt(assets, Lower(expected), i);
  }

  /** Without any exact match the search falls back to the first containing name: for
      "update.exe", the asset "Update.exe.zip" is found when no asset is named exactly. */
  lemma SubstringFallback(assets: seq<Asset>, expected: string)
    requires forall k :: 0 <= k < |assets| ==> Key(assets[k]) != Lower(expected)
    ensures FindAssetByName(assets, expected) == FirstContaining(assets, Lower(expected))
  {
  }

  /** The updater asset name the 1.0.9 mod manager looks for. */
  const UpdateExeName: string := "update.exe"

  /** The download URL of the first asset named exactly `update.exe` (any case), or
      `None` when there is none or it carries no URL. */
  function UpdateExeUrl(assets: seq<Asset>): (url: Option<string>)
  {
    var i := FirstExact(assets, UpdateExeName);
    if i.Some? then assets[i.value].url else None
  }

  /** The lookup loop of `_download_update_exe_and_launch`: stops at the first asset
      named "update.exe" and takes its URL; there is no substring fallback. */
  method FindUpdateExeUrl(assets: seq<Asset>) returns (url: Option<string>)
    ensures url == UpdateExeUrl(assets)
    ensures url.Some? ==> exists i :: 0 <= i < |assets| && Key(assets[i]) == UpdateExeName && assets[i].url == url
  {
    url := None;
    var k := 0;
    while k < |assets|
      invariant 0 <= k <= |assets|
      invariant forall j :: 0 <= j < k ==> Key(assets[j]) != UpdateExeName
      invariant url == None
    {
      if Lower(assets[k].name) == UpdateExeName {
        url := assets[k].url;
        FirstExactAt(assets, UpdateExeName, k);
        return;
      }
      k := k + 1;
    }
  }

  /** The first exact match is at `k` when `k` matches and no earlier index does. */
  lemma FirstExactAt(assets: seq<Asset>, exp: string, k: nat)
    requires k < |assets| && Key(assets[k]) == exp
    requires forall j :: 0 <= j < k ==> Key(assets[j]) != exp
    ensures FirstExact(assets, exp) == Some(k)
  {
  }

  /** An asset list with an "update.exe" only in a longer name yields no URL in 1.0.9,
      while updater 1.1's search does find it. */
  lemma OnlyExactInModManager()
    ensures UpdateExeUrl([Asset("update.exe.zip", Some("u"))]) == None
    ensures FindAssetByName([Asset("update.exe.zip", Some("u"))], UpdateExeName) == Some(0)
  {
    var a := [Asset("update.exe.zip", Some("u"))];
    assert Key(a[0]) == "update.exe.zip";
    assert Key(a[0]) != UpdateExeName by { assert |Key(a[0])| != |UpdateExeName|; }
    assert Lower(UpdateExeName) == UpdateExeName;
    assert StartsWith(Key(a[0]), UpdateExeName);
  }

  /** Which updater `launch_update_modmanager` starts. */
  datatype Launch = RunUpdateNew | RunUpdate | DownloadUpdater

  /** update_new.exe is preferred, then update.exe; only with neither is the updater
      downloaded. */
  function ChooseUpdater(updateNewExists: bool, updateExists: bool): (c: Launch)
    ensures c == DownloadUpdater <==> !updateNewExists && !updateExists
    ensures c == RunUpdate <==> !updateNewExists && updateExists
  {
    if updateNewExists then RunUpdateNew
    else if updateExists then RunUpdate
    else DownloadUpdater
  }

  /** Where `_download_update_exe_and_launch` ends. */
  datatype DownloadOutcome = NoRelease | NoAsset | DownloadFailed | Launched(url: string)

  /** `_download_update_exe_and_launch`: no release, no usable asset URL (missing or
      empty) or a failed download each stop it; otherwise the downloaded updater runs.
      `download` is the result of `download_url_to_path` for the URL found. */
  function DownloadUpdaterOutcome(assets: Option<seq<Asset>>, download: string -> bool): (o: DownloadOutcome)
    ensures o.Launched? ==> assets.Some? && UpdateExeUrl(assets.value) == Some(o.url) && o.url != "" && download(o.url)
    ensures (assets.Some? && UpdateExeUrl(assets.value).Some? && UpdateExeUrl(assets.value).value != "" &&
             download(UpdateExeUrl(assets.value).value)) ==> o.Launched?
  {
    if assets.None? then NoRelease
    else
      var url := UpdateExeUrl(assets.value);
      if url.None? || url.value == "" then NoAsset
      else if !download(url.value) then DownloadFailed
      else Launched(url.value)
  }
}
