/** Mod folders: a mod is disabled by prefixing its folder name with "DISABLED_". The
    naming rules of the toggle, the display name, the enabled/total counters, the
    "more than 1 mod enabled" warning of each version, and the 3-column grid of items. */
module ModFolders {

  import opened Common
  import opened Text

  const DisabledPrefix: string := "DISABLED_"

  /** `f.startswith("DISABLED_")`. */
  predicate IsDisabled(name: string)
  {
    StartsWith(name, DisabledPrefix)
  }

  // ------------------------------------------------------------- the toggle

  /** The toggle of the 1.0.9 mod manager: `replace("DISABLED_", "", 1)` on a disabled
      name, the prefix added to any other. */
  function Toggle(name: string): string
  {
    if IsDisabled(name) then ReplaceFirst(name, DisabledPrefix, "") else DisabledPrefix + name
  }

  /** The toggle of versions 1.0.1 to 1.0.3: `replace("DISABLED_", "")` removes every
      occurrence from a disabled name. */
  function ToggleLegacy(name: string): string
  {
    if IsDisabled(name) then ReplaceAll(name, DisabledPrefix, "") else DisabledPrefix + name
  }

  /** On a disabled name the first occurrence is the prefix itself, so the 1.0.9 toggle
      removes exactly that prefix; an enabled name gets it. */
  lemma ToggleEffect(name: string)
    ensures IsDisabled(name) ==> Toggle(name) == name[|DisabledPrefix|..]
    ensures !IsDisabled(name) ==> Toggle(name) == DisabledPrefix + name && IsDisabled(Toggle(name))
  {
    if !IsDisabled(name) {
      assert (DisabledPrefix + name)[..|DisabledPrefix|] == DisabledPrefix;
    }
  }

  /** Toggling twice restores a folder name exactly when the name does not start with the
      prefix twice: "DISABLED_DISABLED_x" becomes "DISABLED_x" and then "x". */
  lemma ToggleTwice(name: string)
    ensures Toggle(Toggle(name)) == name <==> !StartsWith(name, DisabledPrefix + DisabledPrefix)
  {
    var n := |DisabledPrefix|;
    ToggleEffect(name);
    if IsDisabled(name) {
      var rest := name[n..];
      ToggleEffect(rest);
      assert name == DisabledPrefix + rest;
      assert StartsWith(name, DisabledPrefix + DisabledPrefix) <==> StartsWith(rest, DisabledPrefix) by {
        if StartsWith(rest, DisabledPrefix) {
          assert name[..2 * n] == DisabledPrefix + rest[..n];
        }
        if StartsWith(name, DisabledPrefix + DisabledPrefix) {
          assert rest[..n] == name[n..2 * n] == (DisabledPrefix + DisabledPrefix)[n..];
        }
      }
    } else {
      ToggleEffect(DisabledPrefix + name);
      assert (DisabledPrefix + name)[n..] == name;
    }
  }

  /** The toggle switches a mod between enabled and disabled, except on a name that
      starts with the prefix twice, which stays disabled. */
  lemma ToggleFlips(name: string)
    ensures IsDisabled(Toggle(name)) <==> !IsDisabled(name) || StartsWith(name, DisabledPrefix + DisabledPrefix)
  {
    var n := |DisabledPrefix|;
    ToggleEffect(name);
    if IsDisabled(name) {
      var rest := name[n..];
      if StartsWith(rest, DisabledPrefix) {
        assert name[..2 * n] == DisabledPrefix + rest[..n];
      }
      if StartsWith(name, DisabledPrefix + DisabledPrefix) {
        assert rest[..n] == name[n..2 * n] == (DisabledPrefix + DisabledPrefix)[n..];
      }
    }
  }

  /** The legacy toggle restores an enabled name exactly when "DISABLED_" does not occur
      in it: otherwise the second toggle removes that occurrence too. */
  lemma ToggleLegacyTwiceEnabled(name: string)
    requires !IsDisabled(name)
    ensures ToggleLegacy(ToggleLegacy(name)) == name <==> !Contains(name, DisabledPrefix)
  {
    var d := DisabledPrefix + name;
    assert IsDisabled(d) by {
      assert d[..|DisabledPrefix|] == DisabledPrefix;
    }
    ReplaceAllPrefix(DisabledPrefix, name, "");
    if Contains(name, DisabledPrefix) {
      ReplaceAllShorter(name, DisabledPrefix);
    } else {
      ReplaceAllAbsent(name, DisabledPrefix, "");
    }
  }

  /** A disabled name with no other "DISABLED_" in it comes back after two legacy
      toggles. */
  lemma ToggleLegacyTwiceDisabled(name: string)
    requires IsDisabled(name) && !Contains(name[|DisabledPrefix|..], DisabledPrefix)
    ensures ToggleLegacy(ToggleLegacy(name)) == name
  {
    var rest := name[|DisabledPrefix|..];
    assert name == DisabledPrefix + rest;
    ReplaceAllPrefix(DisabledPrefix, rest, "");
    ReplaceAllAbsent(rest, DisabledPrefix, "");
  }

  /** Removing a pattern that occurs strictly shortens a string. */
  lemma {:induction false} ReplaceAllShorter(s: string, pat: string)
    requires |pat| > 0 && Contains(s, pat)
    ensures |ReplaceAll(s, pat, "")| < |s|
    decreases |s|
  {
    if |s| < |pat| {
      ContainsIff(s, pat);
    } else if StartsWith(s, pat) {
      ReplaceAllShrinks(s[|pat|..], pat);
    } else {
      ReplaceAllShorter(s[1..], pat);
    }
  }

  // ------------------------------------------------------------- display

  /** `f.replace("DISABLED_", "")`: the name shown in the mod list. */
  function DisplayName(name: string): string
  {
    ReplaceAll(name, DisabledPrefix, "")
  }

  /** The 1.0.9 toggle never changes what the mod list shows for a folder. */
  lemma ToggleKeepsDisplay(name: string)
    ensures DisplayName(Toggle(name)) == DisplayName(name)
  {
    ToggleEffect(name);
    if IsDisabled(name) {
      assert name == DisabledPrefix + name[|DisabledPrefix|..];
      ReplaceAllPrefix(DisabledPrefix, name[|DisabledPrefix|..], "");
    } else {
      ReplaceAllPrefix(DisabledPrefix, name, "");
    }
  }

  // ------------------------------------------------------------- counters

  /** The subfolders not starting with "DISABLED_", in listing order. */
  function Enabled(names: seq<string>): (r: seq<string>)
    ensures |r| <= |names|
    ensures forall x :: x in r <==> x in names && !IsDisabled(x)
    decreases |names|
  {
    if |names| == 0 then []
    else
      var init := Enabled(names[..|names| - 1]);
      var last := names[|names| - 1];
      assert names == names[..|names| - 1] + [last];
      if IsDisabled(last) then init else init + [last]
  }

  datatype Counter = Counter(count: nat, enabled: nat)

  /** `update_mod_counter`: `listing` is the subfolder names of the item's folder, `None`
      when the folder does not exist; both counts are then 0. */
  function Counts(listing: Option<seq<string>>): (r: Counter)
    ensures r.enabled <= r.count
    ensures listing.None? ==> r == Counter(0, 0)
    ensures listing.Some? ==> r.count == |listing.value| &&
                              (r.enabled == r.count <==> forall i :: 0 <= i < |listing.value| ==> !IsDisabled(listing.value[i]))
  {
    if listing.None? then Counter(0, 0)
    else
      EnabledAll(listing.value);
      Counter(|listing.value|, |Enabled(listing.value)|)
  }

  /** No subfolder is filtered out exactly when none is disabled. */
  lemma {:induction false} EnabledAll(names: seq<string>)
    ensures |Enabled(names)| == |names| <==> forall i :: 0 <= i < |names| ==> !IsDisabled(names[i])
    decreases |names|
  {
    if |names| > 0 {
      var init := names[..|names| - 1];
      EnabledAll(init);
      assert forall i :: 0 <= i < |init| ==> init[i] == names[i];
    }
  }

  /** 1 for an enabled folder name, 0 for a disabled one. */
  function EnabledWeight(name: string): nat
  {
    if IsDisabled(name) then 0 else 1
  }

  /** Renaming one subfolder changes the enabled count only by what the rename does to
      that one folder. */
  lemma {:induction false} EnabledUpdate(names: seq<string>, i: nat, x: string)
    requires i < |names|
    ensures |Enabled(names[i := x])| + EnabledWeight(names[i]) == |Enabled(names)| + EnabledWeight(x)
    decreases |names|
  {
    var m := names[i := x];
    var k := |names| - 1;
    if i == k {
      assert m[..k] == names[..k];
    } else {
      assert m[..k] == names[..k][i := x];
      EnabledUpdate(names[..k], i, x);
    }
  }

  /** Disabling one enabled mod with the 1.0.9 toggle lowers the enabled count by one and
      leaves the total as it is. */
  lemma ToggleDisablesOne(names: seq<string>, i: nat)
    requires i < |names| && !IsDisabled(names[i])
    ensures Counts(Some(names[i := Toggle(names[i])])) ==
            Counter(Counts(Some(names)).count, Counts(Some(names)).enabled - 1)
  {
    ToggleEffect(names[i]);
    EnabledUpdate(names, i, Toggle(names[i]));
  }

  // ------------------------------------------------------------- warnings

  datatype Version = V101 | V102 | V103 | V109

  const Characters: string := "characters"
  const Weapons: string := "weapons"

  /** Whether "More than 1 mod enabled!" shows for an item: 1.0.1 warns only in the
      characters category, 1.0.2 in every category, 1.0.3 and 1.0.9 for characters and
      weapons. */
  function Warns(v: Version, category: string, enabled: nat): bool
  {
    enabled > 1 &&
    match v
    case V101 => category == Characters
    case V102 => true
    case V103 | V109 => category == Characters || category == Weapons
  }

  /** Each version warns only about more than one enabled mod, and each later rule
      covers the categories of the earlier one narrowed from 1.0.2: 1.0.1 warns in fewer
      cases than 1.0.3 and 1.0.9, which agree, and those in fewer than 1.0.2. */
  lemma WarningsNest(category: string, enabled: nat)
    ensures forall v :: Warns(v, category, enabled) ==> enabled > 1
    ensures Warns(V101, category, enabled) ==> Warns(V103, category, enabled)
    ensures Warns(V103, category, enabled) == Warns(V109, category, enabled)
    ensures Warns(V103, category, enabled) ==> Warns(V102, category, enabled)
    ensures Warns(V102, category, enabled) <==> enabled > 1
  {
  }

  /** A folder with at most one mod never warns, whatever the version. */
  lemma WarningOfCounts(v: Version, category: string, listing: Option<seq<string>>)
    ensures Counts(listing).count <= 1 ==> !Warns(v, category, Counts(listing).enabled)
  {
  }

  // ------------------------------------------------------------- the grid

  datatype Cell = Cell(row: nat, col: nat)

  /** The grid loop of `load_items`: each item goes to the current cell, and the column
      wraps after three. */
  method PlaceItems(n: nat) returns (cells: seq<Cell>)
    ensures |cells| == n
    ensures forall i :: 0 <= i < n ==> cells[i] == Cell(i / 3, i % 3)
  {
    var row, col := 0, 0;
    cells := [];
    var i := 0;
    while i < n
      invariant 0 <= i <= n && |cells| == i
      invariant row == i / 3 && col == i % 3
      invariant forall j :: 0 <= j < i ==> cells[j] == Cell(j / 3, j % 3)
    {
      cells := cells + [Cell(row, col)];
      col := col + 1;
      if col >= 3 {
        col := 0;
        row := row + 1;
      }
      i := i + 1;
    }
  }

  /** No two items share a cell, and every cell lies in one of three columns. */
  lemma GridCellsDistinct(i: nat, j: nat)
    ensures Cell(i / 3, i % 3).col < 3
    ensures i != j ==> Cell(i / 3, i % 3) != Cell(j / 3, j % 3)
  {
    assert i == 3 * (i / 3) + i % 3;
    assert j == 3 * (j / 3) + j % 3;
  }
}
