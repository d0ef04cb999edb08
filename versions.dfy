/** Version tags across the generations of the mod manager: normalising a release tag,
    the integer-list comparison that decides "newer", the 1.0.3 comparison and tag
    extraction, the 1.0.2 literal-tag rule, and the release download URLs. */
module Versions {

  import opened Common
  import opened Text

  // ---------------------------------------------------------------- Python list order

  /** Python's `a < b` on lists of integers: the first differing element decides, and a
      strict prefix is smaller than the longer list. */
  predicate ListLess(a: seq<int>, b: seq<int>)
  {
    if |b| == 0 then false
    else if |a| == 0 then true
    else if a[0] != b[0] then a[0] < b[0]
    else ListLess(a[1..], b[1..])
  }

  lemma {:induction false} ListLessIrreflexive(a: seq<int>)
    ensures !ListLess(a, a)
    decreases |a|
  {
    if |a| > 0 {
      ListLessIrreflexive(a[1..]);
    }
  }

  lemma {:induction false} ListLessAsymmetric(a: seq<int>, b: seq<int>)
    ensures !(ListLess(a, b) && ListLess(b, a))
    decreases |a|
  {
    if |a| > 0 && |b| > 0 && a[0] == b[0] {
      ListLessAsymmetric(a[1..], b[1..]);
    }
  }

  lemma {:induction false} ListLessTransitive(a: seq<int>, b: seq<int>, c: seq<int>)
    requires ListLess(a, b) && ListLess(b, c)
    ensures ListLess(a, c)
    decreases |a|
  {
    if |a| > 0 && a[0] == b[0] && b[0] == c[0] {
      ListLessTransitive(a[1..], b[1..], c[1..]);
    }
  }

  /** Two different lists are always ordered one way or the other. */
  lemma {:induction false} ListLessTotal(a: seq<int>, b: seq<int>)
    requires a != b
    ensures ListLess(a, b) || ListLess(b, a)
    decreases |a|
  {
    if |a| > 0 && |b| > 0 && a[0] == b[0] {
      ListLessTotal(a[1..], b[1..]);
    }
  }

  /** A strict prefix is older: `[1, 2] < [1, 2, 0]`. */
  lemma {:induction false} StrictPrefixIsLess(a: seq<int>, rest: seq<int>)
    requires |rest| > 0
    ensures ListLess(a, a + rest)
    decreases |a|
  {
    if |a| > 0 {
      assert (a + rest)[1..] == a[1..] + rest;
      StrictPrefixIsLess(a[1..], rest);
    }
  }

  // ---------------------------------------------------------------- 1.0.9: semver_normalize

  /** `semver_normalize(tag)`: `None` for a missing or empty tag; otherwise the stripped
      tag with one leading 'v' or 'V' removed. */
  function SemverNormalize(tag: Option<string>): (r: Option<string>)
    ensures tag.None? || tag.value == "" <==> r.None?
    ensures r.Some? ==> |r.value| <= |tag.value|
  {
    if tag.None? || tag.value == "" then None
    else
      var t := Strip(tag.value);
      if |t| > 0 && (t[0] == 'v' || t[0] == 'V') then Some(t[1..]) else Some(t)
  }

  /** Exactly one leading 'v'/'V' goes, and what follows it is kept verbatim. */
  lemma NormalizeDropsOneV(prefix: char, rest: string)
    requires prefix == 'v' || prefix == 'V'
    requires rest == [] || !IsSpace(rest[|rest| - 1])
    ensures SemverNormalize(Some([prefix] + rest)) == Some(rest)
  {
    var s := [prefix] + rest;
    StripNoSpace(s);
    assert s[1..] == rest;
  }

  /** A stripped tag without a leading 'v'/'V' is returned as it is. */
  lemma NormalizeKeepsPlain(s: string)
    requires |s| > 0 && !IsSpace(s[0]) && !IsSpace(s[|s| - 1])
    requires s[0] != 'v' && s[0] != 'V'
    ensures SemverNormalize(Some(s)) == Some(s)
  {
    StripNoSpace(s);
  }

  /** Normalising twice strips a second 'v' ("vv1" gives "v1", and then "1"): the
      function is not idempotent. */
  lemma NormalizeTwiceOnDoubleV()
    ensures SemverNormalize(Some("vv1")) == Some("v1")
    ensures SemverNormalize(Some("v1")) == Some("1")
  {
    NormalizeDropsOneV('v', "v1");
    NormalizeDropsOneV('v', "1");
    assert "vv1" == ['v'] + "v1";
    assert "v1" == ['v'] + "1";
  }

  // ---------------------------------------------------------------- 1.0.9: is_version_newer

  /** `[int(x) for x in pieces if x.isdigit()]`: the all-digit pieces as numbers. */
  function DigitPieces(pieces: seq<string>): (r: seq<int>)
    ensures |r| <= |pieces|
    ensures forall i :: 0 <= i < |r| ==> r[i] >= 0
  {
    if |pieces| == 0 then []
    else
      var rest := DigitPieces(pieces[1..]);
      if IsDigits(pieces[0]) then [DigitsValue(pieces[0]) as int] + rest else rest
  }

  /** The numeric parts of a dotted version: the all-digit segments only. */
  function NumericParts(v: string): seq<int>
  {
    DigitPieces(Split(v, '.'))
  }

  /** The fallback of `is_version_newer(installed, latest)`: `latest`'s numeric parts
      compare greater than `installed`'s as Python lists. */
  predicate IsVersionNewer(installed: string, latest: string)
  {
    ListLess(NumericParts(installed), NumericParts(latest))
  }

  /** Equal versions are never newer than each other. */
  lemma NewerIrreflexive(v: string)
    ensures !IsVersionNewer(v, v)
  {
    ListLessIrreflexive(NumericParts(v));
  }

  /** No pair of versions is newer in both directions. */
  lemma NewerAsymmetric(a: string, b: string)
    ensures !(IsVersionNewer(a, b) && IsVersionNewer(b, a))
  {
    ListLessAsymmetric(NumericParts(a), NumericParts(b));
  }

  /** "Newer" chains. */
  lemma NewerTransitive(a: string, b: string, c: string)
    requires IsVersionNewer(a, b) && IsVersionNewer(b, c)
    ensures IsVersionNewer(a, c)
  {
    ListLessTransitive(NumericParts(a), NumericParts(b), NumericParts(c));
  }

  /** Dot-separated segments without dots split back into themselves. */
  lemma SplitDots(parts: seq<string>)
    requires |parts| >= 1
    requires forall i :: 0 <= i < |parts| ==> '.' !in parts[i]
    ensures Split(Join(parts, '.'), '.') == parts
  {
    SplitJoin(parts, '.');
  }

  /** The numeric parts of a version written out as its dot-separated segments. */
  lemma NumericPartsOf(parts: seq<string>, v: string)
    requires |parts| >= 1 && v == Join(parts, '.')
    requires forall i :: 0 <= i < |parts| ==> '.' !in parts[i]
    ensures NumericParts(v) == DigitPieces(parts)
  {
    SplitDots(parts);
  }

  lemma NumericParts109()
    ensures NumericParts("1.0.9") == [1, 0, 9]
  {
    SingleDigits(1, 0, 9);
    assert "1.0.9" == [DigitChar(1), '.', DigitChar(0), '.', DigitChar(9)];
  }


  lemma NumericParts1010()
    ensures NumericParts("1.0.10") == [1, 0, 10]
  {
    NumericPartsOf(["1", "0", "10"], "1.0.10");
    DigitPieces1010();
  }

  lemma DigitPieces1010()
    ensures DigitPieces(["1", "0", "10"]) == [1, 0, 10]
  {
    assert DigitsValue("10") == 10 by { assert "10"[..1] == "1"; }
  }

  /** "1.0.10" is newer than "1.0.9": segments compare as numbers, not as text. */
  lemma NewerComparesNumbers()
    ensures IsVersionNewer("1.0.9", "1.0.10")
    ensures !IsVersionNewer("1.0.10", "1.0.9")
  {
    NumericParts109();
    NumericParts1010();
  }

  lemma NumericParts12()
    ensures NumericParts("1.2") == [1, 2]
  {
    NumericPartsOf(["1", "2"], "1.2");
  }

  lemma NumericParts120()
    ensures NumericParts("1.2.0") == [1, 2] + [0]
  {
    SingleDigits(1, 2, 0);
    assert "1.2.0" == [DigitChar(1), '.', DigitChar(2), '.', DigitChar(0)];
    assert [1, 2] + [0] == [1, 2, 0];
  }

  /** "1.2.0" is newer than "1.2", because a strict prefix compares smaller. */
  lemma NewerStrictPrefix()
    ensures IsVersionNewer("1.2", "1.2.0")
  {
    NumericParts12();
    NumericParts120();
    StrictPrefixIsLess([1, 2], [0]);
  }

  /** The character of a decimal digit. */
  function DigitChar(n: nat): char
    requires n < 10
  {
    ('0' as int + n) as char
  }

  /** A version of three one-digit segments has those three numbers as its parts. */
  lemma SingleDigits(x: nat, y: nat, z: nat)
    requires x < 10 && y < 10 && z < 10
    ensures NumericParts([DigitChar(x), '.', DigitChar(y), '.', DigitChar(z)]) == [x, y, z]
  {
    var a, b, c := [DigitChar(x)], [DigitChar(y)], [DigitChar(z)];
    var ps := [a, b, c];
    assert ps[1..] == [b, c] && ps[1..][1..] == [c] && ps[1..][1..][1..] == [];
    assert Join(ps[1..], '.') == b + ['.'] + c;
    assert Join(ps, '.') == [DigitChar(x), '.', DigitChar(y), '.', DigitChar(z)];
    SplitJoin(ps, '.');
    assert IsDigits(a) && DigitsValue(a) == x by { assert a[..0] == []; }
    assert IsDigits(b) && DigitsValue(b) == y by { assert b[..0] == []; }
    assert IsDigits(c) && DigitsValue(c) == z by { assert c[..0] == []; }
    assert DigitPieces(ps[1..][1..]) == [z];
    assert DigitPieces(ps[1..]) == [y, z];
  }

  lemma NumericParts10Beta()
    ensures NumericParts("1.0-beta") == [1]
  {
    var a, b := "1", "0-beta";
    assert '.' !in a && '.' !in b && !IsDigits(b) by { assert !IsDigit(b[1]); }
    assert "1.0-beta" == a + ['.'] + b;
    SplitTwo(a, b);
    assert DigitsValue(a) == 1 by { assert a[..0] == []; }
    assert DigitPieces([a, b]) == [1] by { assert [a, b][1..] == [b]; assert [b][1..] == []; }
  }

  lemma SplitTwo(a: string, b: string)
    requires '.' !in a && '.' !in b
    ensures Split(a + ['.'] + b, '.') == [a, b]
  {
    SplitJoin([a, b], '.');
    assert Join([a, b], '.') == a + ['.'] + b by { assert [a, b][1..] == [b]; }
  }

  lemma NumericParts10()
    ensures NumericParts("1.0") == [1] + [0]
  {
    NumericPartsOf(["1", "0"], "1.0");
  }

  /** Segments that are not all digits are skipped, so "1.0-beta" ranks below "1.0". */
  lemma NewerSkipsNonDigitSegments()
    ensures IsVersionNewer("1.0-beta", "1.0")
  {
    NumericParts10Beta();
    NumericParts10();
    StrictPrefixIsLess([1], [0]);
  }

  // ---------------------------------------------------------------- 1.0.3: compare_versions

  /** The version constant of release 1.0.3. */
  const Version103: string := "v1.0.3"

  /** `[int(x) for x in pieces]`: every piece parsed, or `None` when one does not parse. */
  function ParseInts(pieces: seq<string>): (r: Option<seq<int>>)
    ensures r.Some? ==> |r.value| == |pieces|
    ensures r.Some? ==> forall i :: 0 <= i < |pieces| ==> PyInt(pieces[i]) == Some(r.value[i])
  {
    if |pieces| == 0 then Some([])
    else
      var head := PyInt(pieces[0]);
      var rest := ParseInts(pieces[1..]);
      if head.None? || rest.None? then None
      else
        ReadsShift(PyInt, pieces, head.value, rest.value);
        Some([head.value] + rest.value)
  }

  /** What `read` gives for the first piece, followed by what it gives for each of the
      others, is what it gives for every piece. */
  lemma ReadsShift<T, U>(read: T -> Option<U>, pieces: seq<T>, h: U, t: seq<U>)
    requires |pieces| > 0 && |t| == |pieces| - 1
    requires read(pieces[0]) == Some(h)
    requires forall i :: 0 <= i < |t| ==> read(pieces[1..][i]) == Some(t[i])
    ensures forall i :: 0 <= i < |pieces| ==> read(pieces[i]) == Some(([h] + t)[i])
  {
    forall i | 0 <= i < |pieces|
      ensures read(pieces[i]) == Some(([h] + t)[i])
    {
      if i > 0 {
        assert pieces[i] == pieces[1..][i - 1];
      }
    }
  }

  /** The list is produced as soon as every piece parses, so `ParseInts` fails exactly
      when some piece does not. */
  lemma {:induction false} ParseIntsSucceeds(pieces: seq<string>)
    requires forall i :: 0 <= i < |pieces| ==> PyInt(pieces[i]).Some?
    ensures ParseInts(pieces).Some?
    decreases |pieces|
  {
    if |pieces| > 0 {
      assert forall i :: 0 <= i < |pieces| - 1 ==> pieces[1..][i] == pieces[i + 1];
      ParseIntsSucceeds(pieces[1..]);
    }
  }

  /** `[int(x) for x in v.strip('v').split('.')]`. */
  function VersionInts(v: string): Option<seq<int>>
  {
    ParseInts(Split(StripChar(v, 'v'), '.'))
  }

  /** `compare_versions(current, latest)`: true iff both parse and latest's list is
      greater; a segment that `int()` rejects makes the answer false. */
  predicate CompareVersions(current: string, latest: string)
  {
    var cur := VersionInts(current);
    var lat := VersionInts(latest);
    cur.Some? && lat.Some? && ListLess(cur.value, lat.value)
  }

  /** `compare_versions` is a strict order too: never both ways, never for equal strings. */
  lemma CompareVersionsAsymmetric(a: string, b: string)
    ensures !(CompareVersions(a, b) && CompareVersions(b, a))
    ensures !CompareVersions(a, a)
  {
    if VersionInts(a).Some? {
      ListLessIrreflexive(VersionInts(a).value);
      if VersionInts(b).Some? {
        ListLessAsymmetric(VersionInts(a).value, VersionInts(b).value);
      }
    }
  }

  /** Any segment that `int()` rejects in the latest tag makes the answer false. */
  lemma CompareVersionsRejectsText(current: string, latest: string, i: int)
    requires var p := Split(StripChar(latest, 'v'), '.'); 0 <= i < |p| && PyInt(p[i]).None?
    ensures !CompareVersions(current, latest)
  {
  }

  /** On all-digit segments `int()` and the `isdigit` filter agree, so parsing keeps
      every segment. */
  lemma {:induction false} ParseIntsDigits(pieces: seq<string>)
    requires forall i :: 0 <= i < |pieces| ==> IsDigits(pieces[i])
    ensures ParseInts(pieces) == Some(DigitPieces(pieces))
    decreases |pieces|
  {
    if |pieces| > 0 {
      PyIntDigits(pieces[0]);
      assert forall i :: 0 <= i < |pieces| - 1 ==> pieces[1..][i] == pieces[i + 1];
      ParseIntsDigits(pieces[1..]);
    }
  }

  /** Stripping the 'v' of a tag that starts with one 'v' and ends in a digit. */
  lemma StripOneV(rest: string)
    requires |rest| > 0 && rest[0] != 'v' && IsDigit(rest[|rest| - 1])
    ensures StripChar(['v'] + rest, 'v') == rest
  {
    assert (['v'] + rest)[1..] == rest;
    assert LStripChar(rest, 'v') == rest;
    assert rest[|rest| - 1] != 'v';
    assert RStripChar(rest, 'v') == rest;
  }

  /** The segments of a 'v'-stripped tag, read one by one, give the tag's numbers. */
  lemma VersionIntsOf(rest: string, pieces: seq<string>, values: seq<int>)
    requires |rest| > 0 && rest[0] != 'v' && IsDigit(rest[|rest| - 1])
    requires Split(rest, '.') == pieces && ParseInts(pieces) == Some(values)
    ensures VersionInts(['v'] + rest) == Some(values)
  {
    StripOneV(rest);
  }

  /** A tag "vX.Y.Z" of single digits parses as [X, Y, Z]. */
  lemma VersionIntsThree(x: nat, y: nat, z: nat)
    requires x < 10 && y < 10 && z < 10
    ensures VersionInts(['v', DigitChar(x), '.', DigitChar(y), '.', DigitChar(z)]) == Some([x, y, z])
  {
    var rest := [DigitChar(x), '.', DigitChar(y), '.', DigitChar(z)];
    assert ['v', DigitChar(x), '.', DigitChar(y), '.', DigitChar(z)] == ['v'] + rest;
    var ps := [[DigitChar(x)], [DigitChar(y)], [DigitChar(z)]];
    assert rest == ps[0] + ['.'] + ps[1] + ['.'] + ps[2];
    SplitThree(ps);
    SingleDigits(x, y, z);
    ParseIntsDigits(ps);
    VersionIntsOf(rest, ps, [x, y, z]);
  }

  /** Three one-character segments joined by dots split back into them. */
  lemma SplitThree(ps: seq<string>)
    requires |ps| == 3 && forall i :: 0 <= i < 3 ==> |ps[i]| == 1 && ps[i][0] != '.'
    ensures Split(ps[0] + ['.'] + ps[1] + ['.'] + ps[2], '.') == ps
  {
    assert ps[1..] == [ps[1], ps[2]] && ps[1..][1..] == [ps[2]];
    assert Join(ps[1..], '.') == ps[1] + ['.'] + ps[2];
    assert Join(ps, '.') == ps[0] + ['.'] + ps[1] + ['.'] + ps[2];
    SplitJoin(ps, '.');
  }

  /** A tag "vX.Y_Z" parses as [X, YZ]: the second segment is the digit groups Y and Z. */
  lemma VersionIntsJoinedGroups(x: nat, y: nat, z: nat)
    requires x < 10 && y < 10 && z < 10
    ensures VersionInts(['v', DigitChar(x), '.', DigitChar(y), '_', DigitChar(z)]) == Some([x, 10 * y + z])
  {
    var a, gy, gz := [DigitChar(x)], [DigitChar(y)], [DigitChar(z)];
    var b := gy + "_" + gz;
    var rest := a + ['.'] + b;
    assert ['v', DigitChar(x), '.', DigitChar(y), '_', DigitChar(z)] == ['v'] + rest;
    DigitsValueTwo(x, y, z);
    var values := [DigitsValue(a), DigitsValue(gy + gz)];
    assert values == [x, 10 * y + z];
    SplitTwo(a, b);
    ParseIntsJoined(a, gy, gz);
    VersionIntsOf(rest, [a, b], values);
  }

  /** The values of the one-digit string X and the two-digit string YZ. */
  lemma DigitsValueTwo(x: nat, y: nat, z: nat)
    requires x < 10 && y < 10 && z < 10
    ensures DigitsValue([DigitChar(x)]) == x
    ensures DigitsValue([DigitChar(y)] + [DigitChar(z)]) == 10 * y + z
  {
    var gy, gz := [DigitChar(y)], [DigitChar(z)];
    assert [DigitChar(x)][..0] == [];
    assert (gy + gz)[..1] == gy && gy[..0] == [];
  }

  /** A plain number followed by a segment of two digit groups. */
  lemma ParseIntsJoined(a: string, b: string, c: string)
    requires IsDigits(a) && IsDigits(b) && IsDigits(c)
    ensures ParseInts([a, b + "_" + c]) == Some([DigitsValue(a), DigitsValue(b + c)])
  {
    PyIntDigits(a);
    PyIntUnderscore(b, c);
    ParseIntsPair(a, b + "_" + c, DigitsValue(a), DigitsValue(b + c));
  }

  /** Two segments that `int()` reads give the list of their two values. */
  lemma ParseIntsPair(p: string, q: string, m: int, n: int)
    requires PyInt(p) == Some(m) && PyInt(q) == Some(n)
    ensures ParseInts([p, q]) == Some([m, n])
  {
    var ps, vs := [p, q], [m, n];
    assert PyInt(ps[0]) == Some(vs[0]) && PyInt(ps[1]) == Some(vs[1]);
    ParseIntsValues(ps, vs);
  }

  /** When `int()` reads every piece, the list holds exactly what it reads from each. */
  lemma ParseIntsValues(pieces: seq<string>, values: seq<int>)
    requires |values| == |pieces|
    requires forall i :: 0 <= i < |pieces| ==> PyInt(pieces[i]) == Some(values[i])
    ensures ParseInts(pieces) == Some(values)
  {
    ParseIntsSucceeds(pieces);
    SameReads(PyInt, pieces, ParseInts(pieces).value, values);
  }

  /** Two lists that both hold, piece by piece, what `read` gives are the same list. */
  lemma SameReads<T, U>(read: T -> Option<U>, pieces: seq<T>, r: seq<U>, values: seq<U>)
    requires |r| == |pieces| && |values| == |pieces|
    requires forall i :: 0 <= i < |pieces| ==> read(pieces[i]) == Some(r[i])
    requires forall i :: 0 <= i < |pieces| ==> read(pieces[i]) == Some(values[i])
    ensures r == values
  {
    forall i | 0 <= i < |pieces|
      ensures r[i] == values[i]
    {
      assert Some(r[i]) == Some(values[i]);
    }
  }

  /** `int()` reads digit groups joined by an underscore, so `compare_versions` finds
      "v1.0_4" (segments 1 and 4) newer than "v1.0.3" (segments 1, 0 and 3). */
  lemma CompareVersionsReadsUnderscore()
    ensures CompareVersions(Version103, "v1.0_4")
  {
    VersionIntsThree(1, 0, 3);
    assert Version103 == ['v', DigitChar(1), '.', DigitChar(0), '.', DigitChar(3)];
    VersionIntsJoinedGroups(1, 0, 4);
    assert "v1.0_4" == ['v', DigitChar(1), '.', DigitChar(0), '_', DigitChar(4)];
    assert ListLess([1, 0, 3], [1, 4]) by { assert [1, 0, 3][1..] == [0, 3] && [1, 4][1..] == [4]; }
  }

  /** Where every segment of the 'v'-stripped tag is a plain number, the 1.0.3 parse
      yields the numeric parts the fallback of 1.0.9 uses. */
  lemma VersionIntsDigits(v: string)
    requires forall p <- Split(StripChar(v, 'v'), '.') :: IsDigits(p)
    ensures VersionInts(v) == Some(NumericParts(StripChar(v, 'v')))
  {
    var pieces := Split(StripChar(v, 'v'), '.');
    assert forall i :: 0 <= i < |pieces| ==> IsDigits(pieces[i]) by {
      forall i | 0 <= i < |pieces| ensures IsDigits(pieces[i]) {
        assert pieces[i] in pieces;
      }
    }
    ParseIntsDigits(pieces);
  }

  /** On such tags the 1.0.3 comparison and the fallback of 1.0.9 agree. */
  lemma CompareVersionsAgreesWithFallback(current: string, latest: string)
    requires forall p <- Split(StripChar(current, 'v'), '.') :: IsDigits(p)
    requires forall p <- Split(StripChar(latest, 'v'), '.') :: IsDigits(p)
    ensures CompareVersions(current, latest) == IsVersionNewer(StripChar(current, 'v'), StripChar(latest, 'v'))
  {
    VersionIntsDigits(current);
    VersionIntsDigits(latest);
  }

  /** `check_for_update` in 1.0.3: the dot turns green iff a tag was obtained, it is
      non-empty and `compare_versions` says it is newer than the running version. */
  predicate CheckForUpdate103(latest: Option<string>)
  {
    latest.Some? && latest.value != "" && CompareVersions(Version103, latest.value)
  }

  /** No tag and the running version's own tag leave the dot red, and a tag that turns it
      green is one the running version is not newer than. */
  lemma CheckForUpdate103Cases(tag: string)
    ensures !CheckForUpdate103(None) && !CheckForUpdate103(Some(Version103))
    ensures CheckForUpdate103(Some(tag)) ==> !CompareVersions(tag, Version103)
  {
    CompareVersionsAsymmetric(Version103, tag);
    CompareVersionsAsymmetric(Version103, Version103);
  }

  /** `r.url.split('/')[-1]` after the redirect, or `None` when the request failed. */
  function LatestTag103(finalUrl: Option<string>): (r: Option<string>)
    ensures finalUrl.None? <==> r.None?
    ensures r.Some? ==> '/' !in r.value
  {
    if finalUrl.None? then None else Some(Last(Split(finalUrl.value, '/')))
  }

  /** The tag is the last URL segment: a URL ending in "/<tag>" yields exactly that tag. */
  lemma LatestTagRoundTrip(base: string, tag: string)
    requires '/' !in tag
    ensures LatestTag103(Some(base + "/" + tag)) == Some(tag)
  {
    SplitConcat(base, tag, '/');
    SplitNoSep(tag, '/');
    assert base + "/" + tag == base + ['/'] + tag;
  }

  // ---------------------------------------------------------------- release download URLs

  /** The repository URL shared by every generation. */
  const RepoUrl: string := "https://github.com/Sanddino00/Mod-Manager"

  /** The tag 1.0.1 downloads from, and its executable asset name. */
  const Tag101: string := "v.1"
  const Exe101: string := "Mod-Manager.exe"

  /** `f"{repo}/releases/download/{tag}/{file}"`. */
  function ReleaseAssetUrl(tag: string, file: string): (r: string)
    ensures StartsWith(r, RepoUrl + "/releases/download/")
  {
    var p := RepoUrl + "/releases/download/";
    assert (p + tag + "/" + file)[..|p|] == p;
    p + tag + "/" + file
  }

  /** The URL's last two '/'-segments give back the tag and the file name. */
  lemma ReleaseAssetUrlSegments(tag: string, file: string)
    requires '/' !in tag && '/' !in file
    ensures var p := Split(ReleaseAssetUrl(tag, file), '/');
      |p| >= 2 && p[|p| - 2] == tag && p[|p| - 1] == file
  {
    var base := RepoUrl + "/releases/download";
    assert ReleaseAssetUrl(tag, file) == base + ['/'] + (tag + ['/'] + file);
    SplitConcat(base, tag + ['/'] + file, '/');
    SplitConcat(tag, file, '/');
    SplitNoSep(tag, '/');
    SplitNoSep(file, '/');
  }

  // ---------------------------------------------------------------- 1.0.2: literal tag rule

  /** The version constant of release 1.0.2 and the tag it considers current. */
  const Version102: string := "1.0.2"

  /** A JSON value as far as the comparison with a string can tell. */
  datatype JsonValue = JString(s: string) | JOther

  /** The first release's `tag_name` when the response is a list: `None` for a missing key. */
  type Releases102 = seq<Option<JsonValue>>

  /** `check_for_update` in 1.0.2: available iff the request produced a list whose first
      entry has a `tag_name` different from "v." + VERSION; any failure (no response, an
      empty list, a missing key) means not available. */
  predicate UpdateAvailable102(releases: Option<Releases102>)
  {
    releases.Some? && |releases.value| > 0 && releases.value[0].Some? &&
    releases.value[0].value != JString("v." + Version102)
  }

  /** The rule is literal inequality: the current tag is not an update, any other string
      is, including an older one such as "v.1.0.1" that the integer comparison of 1.0.9
      would reject. */
  lemma UpdateAvailable102Literal(rest: Releases102)
    ensures !UpdateAvailable102(Some([Some(JString("v.1.0.2"))] + rest))
    ensures UpdateAvailable102(Some([Some(JString("v.1.0.1"))] + rest))
    ensures !IsVersionNewer("1.0.2", "1.0.1")
  {
    assert "v." + Version102 == "v.1.0.2";
    assert "v.1.0.1" != "v.1.0.2" by { assert "v.1.0.1"[6] != "v.1.0.2"[6]; }
    OlderIsNotNewer();
  }

  lemma OlderIsNotNewer()
    ensures !IsVersionNewer("1.0.2", "1.0.1")
  {
    NumericParts102();
    NumericParts101();
  }

  lemma NumericParts102()
    ensures NumericParts("1.0.2") == [1, 0, 2]
  {
    SingleDigits(1, 0, 2);
    assert "1.0.2" == [DigitChar(1), '.', DigitChar(0), '.', DigitChar(2)];
  }


  lemma NumericParts101()
    ensures NumericParts("1.0.1") == [1, 0, 1]
  {
    SingleDigits(1, 0, 1);
    assert "1.0.1" == [DigitChar(1), '.', DigitChar(0), '.', DigitChar(1)];
  }

}
