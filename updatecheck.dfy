/** The update check of the 1.0.9 mod manager: it fetches the latest release, records
    its tag in the settings and sets the update dot and label. */
module UpdateCheck {

  import opened Common
  import opened Versions

  /** A value of the settings dictionary or of the release JSON: the key may be absent,
      hold JSON null, or hold a string. */
  datatype Field = Absent | Null | Str(s: string)

  /** The two fields of the latest-release JSON that the check reads. */
  datatype Release = Release(tagName: Field, name: Field)

  /** The version the script assumes when the settings have no "version" key. */
  const ScriptVersion: string := "1.0.9"

  /** `d.get(key)` as Python sees it: `None` for an absent key or a null value. */
  function Get(f: Field): Option<string>
  {
    if f.Str? then Some(f.s) else None
  }

  /** `latest.get("tag_name") or latest.get("name")`: the tag name unless it is missing,
      null or empty, in which case the release name. */
  function TagOf(r: Release): (tag: Option<string>)
    ensures r.tagName.Str? && r.tagName.s != "" ==> tag == Some(r.tagName.s)
    ensures !(r.tagName.Str? && r.tagName.s != "") ==> tag == Get(r.name)
  {
    if r.tagName.Str? && r.tagName.s != "" then Some(r.tagName.s) else Get(r.name)
  }

  /** `settings.get("version", SCRIPT_VERSION)`. */
  function InstalledVersion(version: Field): (v: Option<string>)
    ensures version.Absent? ==> v == Some(ScriptVersion)
    ensures !version.Absent? ==> v == Get(version)
  {
    if version.Absent? then Some(ScriptVersion) else Get(version)
  }

  /** The condition of the green dot: both normalised versions are non-empty and the
      release tag is newer than the installed version. */
  predicate UpdateAvailable(tag: Option<string>, version: Field)
  {
    var tagNorm := SemverNormalize(tag);
    var installed := SemverNormalize(InstalledVersion(version));
    tagNorm.Some? && tagNorm.value != "" && installed.Some? && installed.value != "" &&
    IsVersionNewer(installed.value, tagNorm.value)
  }

  /** What one check shows: the colour of the dot and the label text. */
  datatype Status = Status(available: bool, text: string)

  const UnableToCheck: string := "Unable to check"
  const UpToDate: string := "Up to date"

  /** The status one check leaves behind, given the fetched release (`None` when the
      fetch failed or returned nothing). */
  function CheckStatus(latest: Option<Release>, version: Field): (st: Status)
    ensures latest.None? ==> st == Status(false, UnableToCheck)
    ensures st.available <==> latest.Some? && UpdateAvailable(TagOf(latest.value), version)
    ensures st.available ==> st.text == "Update available (" + TagOf(latest.value).value + ")"
    ensures latest.Some? && !st.available ==> st.text == UpToDate
  {
    if latest.None? then Status(false, UnableToCheck)
    else
      var tag := TagOf(latest.value);
      if UpdateAvailable(tag, version) then Status(true, "Update available (" + tag.value + ")")
      else Status(false, UpToDate)
  }

  /** The settings value stored for `last_release_tag`: the tag, or null without one. */
  function StoredTag(tag: Option<string>): (f: Field)
    ensures Get(f) == tag
  {
    if tag.Some? then Str(tag.value) else Null
  }

  /** The settings and the dot/label state of the main window. */
  class UpdateUi {
    var version: Field          // settings["version"]
    var lastReleaseTag: Field   // settings["last_release_tag"]
    var saves: nat              // how many times the settings file was written
    var status: Status          // the dot colour and label text

    constructor (version: Field, lastReleaseTag: Field)
      ensures this.version == version && this.lastReleaseTag == lastReleaseTag
      ensures saves == 0 && status == Status(false, "")
    {
      this.version := version;
      this.lastReleaseTag := lastReleaseTag;
      saves := 0;
      status := Status(false, "");
    }

    /** `_check_updates_and_update_ui`: a failed fetch only shows "Unable to check"; a
        successful one always stores the tag and saves the settings, whatever the
        outcome, and never touches the installed version. */
    method CheckUpdatesAndUpdateUi(latest: Option<Release>)
      modifies this
      ensures status == CheckStatus(latest, old(version))
      ensures version == old(version)
      ensures latest.None? ==> lastReleaseTag == old(lastReleaseTag) && saves == old(saves)
      ensures latest.Some? ==> lastReleaseTag == StoredTag(TagOf(latest.value)) && saves == old(saves) + 1
    {
      if latest.None? {
        status := Status(false, UnableToCheck);
        return;
      }
      var tag := TagOf(latest.value);
      var newer := UpdateAvailable(tag, version);
      lastReleaseTag := StoredTag(tag);
      saves := saves + 1;
      if newer {
        status := Status(true, "Update available (" + tag.value + ")");
      } else {
        status := Status(false, UpToDate);
      }
    }
  }

  /** A release tagged with the installed version is never offered as an update. */
  lemma NoUpdateToSameVersion(v: string)
    ensures !UpdateAvailable(Some(v), Str(v))
  {
    var n := SemverNormalize(Some(v));
    if n.Some? {
      NewerIrreflexive(n.value);
    }
  }

  /** If release `a` is an update over installed `b`, then `b` is no update over `a`. */
  lemma UpdateAvailableAsymmetric(a: string, b: string)
    ensures !(UpdateAvailable(Some(a), Str(b)) && UpdateAvailable(Some(b), Str(a)))
  {
    var na, nb := SemverNormalize(Some(a)), SemverNormalize(Some(b));
    if na.Some? && nb.Some? {
      NewerAsymmetric(na.value, nb.value);
    }
  }

  /** With no "version" setting the script's own "1.0.9" is compared: release "v1.0.10"
      is an update, release "v1.0.9" is not. */
  lemma DefaultVersionDecides()
    ensures UpdateAvailable(Some("v1.0.10"), Absent)
    ensures !UpdateAvailable(Some("v1.0.9"), Absent)
  {
    NormalizeDropsOneV('v', "1.0.10");
    NormalizeDropsOneV('v', "1.0.9");
    NormalizeKeepsPlain("1.0.9");
    assert "v1.0.10" == ['v'] + "1.0.10";
    assert "v1.0.9" == ['v'] + "1.0.9";
    NewerComparesNumbers();
    NewerIrreflexive("1.0.9");
  }

  /** A release without a usable tag or name is never an update, and neither is any
      release when the version setting is null or empty. */
  lemma NoTagNoUpdate(r: Release, version: Field)
    requires TagOf(r) == None || version == Null || version == Str("")
    ensures !UpdateAvailable(TagOf(r), version)
  {
  }
}
