/** The handful of Python `str` operations the mod manager and its updaters rely on,
    stated over `seq<char>`. Only the ASCII/Latin-1 behaviour is modelled (see README). */
module Text {

  import opened Common

  // ---------------------------------------------------------------- characters

  /** `str.isspace()` for one character of the Latin-1 range. */
  predicate IsSpace(c: char)
  {
    (9 <= c as int <= 13) || (28 <= c as int <= 32) || c as int == 0x85 || c as int == 0xA0
  }

  /** `str.isdigit()` for one ASCII character. */
  predicate IsDigit(c: char)
  {
    '0' as int <= c as int <= '9' as int
  }

  predicate IsUpper(c: char)
  {
    'A' <= c <= 'Z'
  }

  /** `str.lower()` for one ASCII character: an upper-case letter becomes the same letter
      in lower case, anything else is left alone. */
  function LowerChar(c: char): (r: char)
    ensures !IsUpper(r)
    ensures IsUpper(c) ==> 'a' <= r <= 'z' && r as int - 'a' as int == c as int - 'A' as int
    ensures !IsUpper(c) ==> r == c
  {
    if IsUpper(c) then (c as int + 32) as char else c
  }

  /** `str.lower()`: every upper-case ASCII letter becomes lower-case, in place. */
  function Lower(s: string): (r: string)
    ensures |r| == |s|
    ensures forall i :: 0 <= i < |r| ==> !IsUpper(r[i])
    ensures forall i :: 0 <= i < |s| && !IsUpper(s[i]) ==> r[i] == s[i]
    ensures forall i :: 0 <= i < |s| && IsUpper(s[i]) ==> r[i] as int == s[i] as int + 32
  {
    seq(|s|, i requires 0 <= i < |s| => LowerChar(s[i]))
  }

  /** A string with no upper-case letter is its own lower case. */
  lemma LowerLeavesLower(s: string)
    requires forall i :: 0 <= i < |s| ==> !IsUpper(s[i])
    ensures Lower(s) == s
  {
    var r := Lower(s);
    assert forall i :: 0 <= i < |s| ==> r[i] == s[i];
  }

  /** Lower-casing twice is lower-casing once. */
  lemma LowerIdempotent(s: string)
    ensures Lower(Lower(s)) == Lower(s)
  {
    LowerLeavesLower(Lower(s));
  }

  // ---------------------------------------------------------------- stripping

  /** Drops the longest prefix of characters satisfying `drop`. */
  function LStripBy(s: string, drop: char -> bool): (r: string)
    ensures |r| <= |s| && r == s[|s| - |r|..]
    ensures forall i :: 0 <= i < |s| - |r| ==> drop(s[i])
    ensures r == [] || !drop(r[0])
  {
    if |s| > 0 && drop(s[0]) then
      var r := LStripBy(s[1..], drop);
      assert s[1..][|s| - 1 - |r|..] == s[|s| - |r|..];
      r
    else s
  }

  /** Drops the longest suffix of characters satisfying `drop`. */
  function RStripBy(s: string, drop: char -> bool): (r: string)
    ensures |r| <= |s| && r == s[..|r|]
    ensures forall i :: |r| <= i < |s| ==> drop(s[i])
    ensures r == [] || !drop(r[|r| - 1])
  {
    if |s| > 0 && drop(s[|s| - 1]) then RStripBy(s[..|s| - 1], drop) else s
  }

  /** `str.strip()`: surrounding whitespace removed. */
  function Strip(s: string): (r: string)
    ensures |r| <= |s|
    ensures r == [] || (!IsSpace(r[0]) && !IsSpace(r[|r| - 1]))
  {
    RStripBy(LStripBy(s, IsSpace), IsSpace)
  }

  /** Drops every leading `c`. */
  function LStripChar(s: string, c: char): (r: string)
    ensures |r| <= |s| && r == s[|s| - |r|..]
    ensures r == [] || r[0] != c
  {
    if |s| > 0 && s[0] == c then LStripChar(s[1..], c) else s
  }

  /** Drops every trailing `c`. */
  function RStripChar(s: string, c: char): (r: string)
    ensures |r| <= |s| && r == s[..|r|]
    ensures r == [] || r[|r| - 1] != c
  {
    if |s| > 0 && s[|s| - 1] == c then RStripChar(s[..|s| - 1], c) else s
  }

  /** `str.strip(c)`: every leading and trailing `c` removed. */
  function StripChar(s: string, c: char): (r: string)
    ensures |r| <= |s|
    ensures r == [] || (r[0] != c && r[|r| - 1] != c)
  {
    RStripChar(LStripChar(s, c), c)
  }

  /** A string that neither starts nor ends with whitespace is its own strip. */
  lemma StripNoSpace(s: string)
    requires s == [] || (!IsSpace(s[0]) && !IsSpace(s[|s| - 1]))
    ensures Strip(s) == s
  {
    assert LStripBy(s, IsSpace) == s;
  }

  // ---------------------------------------------------------------- searching

  /** `s.startswith(p)`. */
  predicate StartsWith(s: string, p: string)
  {
    |p| <= |s| && s[..|p|] == p
  }

  /** `sub in s`: `sub` occurs at some position of `s`. */
  predicate Contains(s: string, sub: string)
    decreases |s|
  {
    StartsWith(s, sub) || (|s| > 0 && Contains(s[1..], sub))
  }

  /** `sub` occurs in `s` starting at index `i`. */
  predicate OccursAt(s: string, sub: string, i: int)
  {
    0 <= i && i + |sub| <= |s| && s[i..i + |sub|] == sub
  }

  /** `Contains` is the existence of an occurrence. */
  lemma {:induction false} ContainsIff(s: string, sub: string)
    ensures Contains(s, sub) <==> exists i :: OccursAt(s, sub, i)
    decreases |s|
  {
    if StartsWith(s, sub) {
      assert OccursAt(s, sub, 0);
    } else if |s| > 0 {
      ContainsIff(s[1..], sub);
      if exists i :: OccursAt(s, sub, i) {
        var i :| OccursAt(s, sub, i);
        assert i != 0;
        assert s[1..][i - 1..i - 1 + |sub|] == s[i..i + |sub|];
        assert OccursAt(s[1..], sub, i - 1);
      }
      if Contains(s[1..], sub) {
        var i :| OccursAt(s[1..], sub, i);
        assert s[i + 1..i + 1 + |sub|] == s[1..][i..i + |sub|];
        assert OccursAt(s, sub, i + 1);
      }
    } else {
      assert forall i :: !OccursAt(s, sub, i);
    }
  }

  /** A string containing `sub` after a prefix still contains it. */
  lemma {:induction false} ContainsAppendLeft(p: string, s: string, sub: string)
    requires Contains(s, sub)
    ensures Contains(p + s, sub)
    decreases |p|
  {
    if |p| > 0 {
      ContainsAppendLeft(p[1..], s, sub);
      assert (p + s)[1..] == p[1..] + s;
    } else {
      assert p + s == s;
    }
  }

  // ---------------------------------------------------------------- replacing

  /** `s.replace(pat, rep)`: every non-overlapping occurrence of `pat`, scanned left to
      right, is replaced by `rep`. */
  function ReplaceAll(s: string, pat: string, rep: string): (r: string)
    requires |pat| > 0
    decreases |s|
  {
    if |s| < |pat| then s
    else if StartsWith(s, pat) then rep + ReplaceAll(s[|pat|..], pat, rep)
    else [s[0]] + ReplaceAll(s[1..], pat, rep)
  }

  /** `s.replace(pat, rep, 1)`: only the first occurrence is replaced. */
  function ReplaceFirst(s: string, pat: string, rep: string): (r: string)
    requires |pat| > 0
    decreases |s|
  {
    if |s| < |pat| then s
    else if StartsWith(s, pat) then rep + s[|pat|..]
    else [s[0]] + ReplaceFirst(s[1..], pat, rep)
  }

  /** Replacing a pattern that does not occur changes nothing. */
  lemma {:induction false} ReplaceAllAbsent(s: string, pat: string, rep: string)
    requires |pat| > 0 && !Contains(s, pat)
    ensures ReplaceAll(s, pat, rep) == s
    decreases |s|
  {
    if |s| >= |pat| {
      ReplaceAllAbsent(s[1..], pat, rep);
    }
  }

  /** Replacing with the empty string never lengthens a string. */
  lemma {:induction false} ReplaceAllShrinks(s: string, pat: string)
    requires |pat| > 0
    ensures |ReplaceAll(s, pat, "")| <= |s|
    decreases |s|
  {
    if |s| >= |pat| {
      if StartsWith(s, pat) {
        ReplaceAllShrinks(s[|pat|..], pat);
      } else {
        ReplaceAllShrinks(s[1..], pat);
      }
    }
  }

  /** A removed prefix leaves the rest to be scanned. */
  lemma ReplaceAllPrefix(pat: string, s: string, rep: string)
    requires |pat| > 0
    ensures ReplaceAll(pat + s, pat, rep) == rep + ReplaceAll(s, pat, rep)
  {
    assert StartsWith(pat + s, pat);
    assert (pat + s)[|pat|..] == s;
  }

  /** A replacement at least as long as the pattern never shortens a string, and a longer
      one lengthens every string the pattern occurs in. */
  lemma {:induction false} ReplaceAllLonger(s: string, pat: string, rep: string)
    requires |pat| > 0 && |rep| >= |pat|
    ensures |ReplaceAll(s, pat, rep)| >= |s|
    ensures Contains(s, pat) && |rep| > |pat| ==> |ReplaceAll(s, pat, rep)| > |s|
    decreases |s|
  {
    if |s| < |pat| {
      ContainsIff(s, pat);
    } else if StartsWith(s, pat) {
      ReplaceAllLonger(s[|pat|..], pat, rep);
    } else {
      ReplaceAllLonger(s[1..], pat, rep);
    }
  }

  // ---------------------------------------------------------------- splitting

  /** `s.split(c)`: the pieces between occurrences of `c` (always at least one). */
  function Split(s: string, c: char): (r: seq<string>)
    ensures |r| >= 1
    ensures forall i :: 0 <= i < |r| ==> c !in r[i]
    ensures Join(r, c) == s
    decreases |s|
  {
    if |s| == 0 then [""]
    else
      var rest := Split(s[1..], c);
      if s[0] == c then [""] + rest
      else [[s[0]] + rest[0]] + rest[1..]
  }

  /** `c.join(parts)`. */
  function Join(parts: seq<string>, c: char): string
    requires |parts| >= 1
  {
    if |parts| == 1 then parts[0] else parts[0] + [c] + Join(parts[1..], c)
  }

  /** The last element of a non-empty sequence (Python's `xs[-1]`). */
  function Last<T>(xs: seq<T>): T
    requires |xs| > 0
  {
    xs[|xs| - 1]
  }

  /** A string without the separator is a single piece. */
  lemma {:induction false} SplitNoSep(s: string, c: char)
    requires c !in s
    ensures Split(s, c) == [s]
    decreases |s|
  {
    if |s| > 0 {
      SplitNoSep(s[1..], c);
    }
  }

  /** A character absent from a string is absent from every piece of its split. */
  lemma {:induction false} SplitAbsent(s: string, c: char, d: char)
    requires d !in s
    ensures forall i :: 0 <= i < |Split(s, c)| ==> d !in Split(s, c)[i]
    decreases |s|
  {
    if |s| > 0 {
      assert forall k :: 0 <= k < |s[1..]| ==> s[1..][k] == s[k + 1];
      SplitAbsent(s[1..], c, d);
    }
  }

  /** Splitting distributes over one separator: the pieces of `a + [c] + b` are those of
      `a` followed by those of `b`. */
  lemma {:induction false} SplitConcat(a: string, b: string, c: char)
    ensures Split(a + [c] + b, c) == Split(a, c) + Split(b, c)
    decreases |a|
  {
    var s := a + [c] + b;
    if |a| == 0 {
      assert s[0] == c && s[1..] == b;
    } else {
      assert s[0] == a[0] && s[1..] == a[1..] + [c] + b;
      var head, tail := Split(a[1..], c), Split(b, c);
      SplitConcat(a[1..], b, c);
      SplitStep(a[0], head, tail, c);
    }
  }

  /** The list step of `SplitConcat`: adding one character in front of the first piece, or
      one empty piece, commutes with appending the pieces of the rest. */
  lemma SplitStep(x: char, head: seq<string>, tail: seq<string>, c: char)
    requires |head| >= 1
    ensures var rest := head + tail;
            (if x == c then [""] + rest else [[x] + rest[0]] + rest[1..]) ==
            (if x == c then [""] + head else [[x] + head[0]] + head[1..]) + tail
  {
    assert (head + tail)[1..] == head[1..] + tail;
  }

  /** Splitting a join gives back the parts when no part holds the separator. */
  lemma {:induction false} SplitJoin(parts: seq<string>, c: char)
    requires |parts| >= 1
    requires forall i :: 0 <= i < |parts| ==> c !in parts[i]
    ensures Split(Join(parts, c), c) == parts
    decreases |parts|
  {
    SplitNoSep(parts[0], c);
    if |parts| > 1 {
      SplitJoin(parts[1..], c);
      SplitConcat(parts[0], Join(parts[1..], c), c);
    }
  }

  // ---------------------------------------------------------------- numbers

  /** `s.isdigit()` on ASCII: non-empty and only digits. */
  predicate IsDigits(s: string)
  {
    |s| > 0 && forall i :: 0 <= i < |s| ==> IsDigit(s[i])
  }

  /** The decimal value of a string of ASCII digits. */
  function DigitsValue(s: string): (r: nat)
    requires forall i :: 0 <= i < |s| ==> IsDigit(s[i])
  {
    if |s| == 0 then 0
    else
      assert IsDigit(s[|s| - 1]);
      DigitsValue(s[..|s| - 1]) * 10 + (s[|s| - 1] as int - '0' as int)
  }

  /** The digits of a base-10 literal as `int()` reads them (PEP 515): one or more
      digits, where single underscores may separate two digits. */
  predicate IsDigitGroups(s: string)
  {
    |s| > 0 && IsDigit(s[0]) && IsDigit(s[|s| - 1]) &&
    (forall i :: 0 <= i < |s| ==> IsDigit(s[i]) || s[i] == '_') &&
    (forall i :: 0 <= i < |s| - 1 && s[i] == '_' ==> s[i + 1] != '_')
  }

  /** `s` without its underscores. */
  function DropUnderscores(s: string): (r: string)
    ensures |r| <= |s|
    ensures forall i :: 0 <= i < |r| ==> r[i] != '_'
  {
    if |s| == 0 then []
    else (if s[0] == '_' then [] else [s[0]]) + DropUnderscores(s[1..])
  }

  /** Of digits and underscores, only digits are left. */
  lemma {:induction false} DropKeepsDigits(s: string)
    requires forall i :: 0 <= i < |s| ==> IsDigit(s[i]) || s[i] == '_'
    ensures forall i :: 0 <= i < |DropUnderscores(s)| ==> IsDigit(DropUnderscores(s)[i])
    decreases |s|
  {
    if |s| > 0 {
      assert forall i :: 0 <= i < |s| - 1 ==> s[1..][i] == s[i + 1];
      DropKeepsDigits(s[1..]);
    }
  }

  /** Text without underscores is left as it is. */
  lemma {:induction false} DropNoUnderscore(s: string)
    requires forall i :: 0 <= i < |s| ==> s[i] != '_'
    ensures DropUnderscores(s) == s
    decreases |s|
  {
    if |s| > 0 {
      assert forall i :: 0 <= i < |s| - 1 ==> s[1..][i] == s[i + 1];
      DropNoUnderscore(s[1..]);
      assert [s[0]] + s[1..] == s;
    }
  }

  /** Dropping underscores works piece by piece. */
  lemma {:induction false} DropUnderscoresAppend(x: string, y: string)
    ensures DropUnderscores(x + y) == DropUnderscores(x) + DropUnderscores(y)
    decreases |x|
  {
    if |x| > 0 {
      var head := if x[0] == '_' then [] else [x[0]];
      assert (x + y)[0] == x[0] && (x + y)[1..] == x[1..] + y;
      assert DropUnderscores(x + y) == head + DropUnderscores(x[1..] + y);
      DropUnderscoresAppend(x[1..], y);
      assert DropUnderscores(x) == head + DropUnderscores(x[1..]);
    } else {
      assert x + y == y;
    }
  }

  /** The value of the digit groups of an unsigned literal, or `None` when `d` is not one. */
  function ReadGroups(d: string): (r: Option<nat>)
    ensures r.Some? <==> IsDigitGroups(d)
  {
    if IsDigitGroups(d) then DropKeepsDigits(d); Some(DigitsValue(DropUnderscores(d))) else None
  }

  /** A stripped literal as `int()` reads it: an optional sign, then digit groups. */
  function ParseLiteral(t: string): Option<int>
  {
    var signed := |t| > 0 && (t[0] == '+' || t[0] == '-');
    var g := if signed then ReadGroups(t[1..]) else ReadGroups(t);
    if g.None? then None
    else if signed && t[0] == '-' then Some(-(g.value as int))
    else Some(g.value as int)
  }

  /** Python's `int(s)` for base-10 text: surrounding whitespace, an optional sign and
      digit groups joined by single underscores; anything else raises, which is `None`
      here. */
  function PyInt(s: string): Option<int>
  {
    ParseLiteral(Strip(s))
  }

  /** A plain digit string is a single digit group, read as its decimal value. */
  lemma ReadGroupsDigits(s: string)
    requires IsDigits(s)
    ensures ReadGroups(s) == Some(DigitsValue(s))
  {
    assert IsDigitGroups(s);
    DropNoUnderscore(s);
  }

  /** `int()` reads a plain digit string as its decimal value. */
  lemma PyIntDigits(s: string)
    requires IsDigits(s)
    ensures PyInt(s) == Some(DigitsValue(s))
  {
    assert IsDigit(s[0]) && IsDigit(s[|s| - 1]);
    StripNoSpace(s);
    ParseLiteralDigits(s);
  }

  /** An unsigned digit string is read as its decimal value. */
  lemma ParseLiteralDigits(t: string)
    requires IsDigits(t)
    ensures ParseLiteral(t) == Some(DigitsValue(t))
  {
    assert IsDigit(t[0]);
    ReadGroupsDigits(t);
  }

  /** A sign before digit groups negates the value or keeps it. */
  lemma ParseLiteralSigned(sign: char, d: string)
    requires sign == '+' || sign == '-'
    requires IsDigits(d)
    ensures ParseLiteral([sign] + d) == Some(if sign == '-' then -(DigitsValue(d) as int) else DigitsValue(d))
  {
    var s := [sign] + d;
    assert s[0] == sign && s[1..] == d;
    ReadGroupsDigits(d);
  }

  /** `int()` accepts surrounding whitespace and a sign. */
  lemma PyIntSigned(sign: char, d: string)
    requires sign == '+' || sign == '-'
    requires IsDigits(d)
    ensures PyInt([sign] + d) == Some(if sign == '-' then -(DigitsValue(d) as int) else DigitsValue(d))
  {
    var s := [sign] + d;
    assert s[0] == sign && s[|s| - 1] == d[|d| - 1] && IsDigit(d[|d| - 1]);
    StripNoSpace(s);
    ParseLiteralSigned(sign, d);
  }

  /** Two digit strings joined by one underscore form digit groups. */
  lemma JoinedGroups(a: string, b: string)
    requires IsDigits(a) && IsDigits(b)
    ensures IsDigitGroups(a + "_" + b)
  {
    var s := a + "_" + b;
    assert s[0] == a[0] && s[|s| - 1] == b[|b| - 1];
    forall i | 0 <= i < |s|
      ensures (i < |a| ==> s[i] == a[i]) && (i == |a| ==> s[i] == '_') && (i > |a| ==> s[i] == b[i - |a| - 1])
    {
    }
  }

  /** Without its one underscore, `a + "_" + b` is `a + b`. */
  lemma DropJoined(a: string, b: string)
    requires forall i :: 0 <= i < |a| ==> a[i] != '_'
    requires forall i :: 0 <= i < |b| ==> b[i] != '_'
    ensures DropUnderscores(a + "_" + b) == a + b
  {
    var tail := "_" + b;
    assert a + "_" + b == a + tail;
    DropUnderscoresAppend(a, tail);
    assert tail[0] == '_' && tail[1..] == b;
    assert DropUnderscores(tail) == [] + DropUnderscores(b) == DropUnderscores(b);
    DropNoUnderscore(a);
    DropNoUnderscore(b);
    assert DropUnderscores(a + tail) == a + b;
  }

  /** `int()` reads two digit strings joined by one underscore as the digits run
      together: `int("1_000") == 1000`. */
  lemma PyIntUnderscore(a: string, b: string)
    requires IsDigits(a) && IsDigits(b)
    ensures PyInt(a + "_" + b) == Some(DigitsValue(a + b))
  {
    var s := a + "_" + b;
    assert s[0] == a[0] && s[|s| - 1] == b[|b| - 1];
    StripNoSpace(s);
    JoinedGroups(a, b);
    DropJoined(a, b);
  }

  /** Two underscores in a row leave no literal to read. */
  lemma DoubleUnderscoreBlocks(t: string, k: int)
    requires 0 <= k < |t| - 1 && t[k] == '_' && t[k + 1] == '_'
    ensures ParseLiteral(t).None?
  {
    if |t| > 0 && (t[0] == '+' || t[0] == '-') {
      assert t[1..][k - 1] == '_' && t[1..][k] == '_';
    }
  }

  /** `int()` rejects two underscores in a row. */
  lemma PyIntRejectsDoubleUnderscore(s: string, i: int)
    requires 0 <= i < |s| - 1 && s[i] == '_' && s[i + 1] == '_'
    ensures PyInt(s).None?
  {
    StripInsidePair(s, i);
    DoubleUnderscoreBlocks(Strip(s), i - (|s| - |LStripBy(s, IsSpace)|));
  }

  /** `int()` rejects an underscore at either end of the digits, or right after the
      sign. */
  lemma PyIntRejectsEdgeUnderscore(s: string)
    requires var t := Strip(s);
      |t| > 0 && (t[0] == '_' || t[|t| - 1] == '_' || (|t| > 1 && (t[0] == '+' || t[0] == '-') && t[1] == '_'))
    ensures PyInt(s).None?
  {
    var t := Strip(s);
    if |t| > 1 && (t[0] == '+' || t[0] == '-') {
      var d := t[1..];
      assert d[0] == t[1] && d[|d| - 1] == t[|t| - 1];
    }
  }

  /** Two neighbouring non-space characters stay neighbours after stripping. */
  lemma StripInsidePair(s: string, i: int)
    requires 0 <= i < |s| - 1 && !IsSpace(s[i]) && !IsSpace(s[i + 1])
    ensures var k := i - (|s| - |LStripBy(s, IsSpace)|);
      0 <= k < |Strip(s)| - 1 && Strip(s)[k] == s[i] && Strip(s)[k + 1] == s[i + 1]
  {
    StripInside(s, i);
    StripInside(s, i + 1);
  }

  /** `int()` rejects blank text and text holding a character that is neither a digit,
      an underscore, a leading sign nor surrounding whitespace. */
  lemma PyIntRejectsLetter(s: string, i: int)
    requires 0 <= i < |s| && !IsDigit(s[i]) && !IsSpace(s[i]) && s[i] != '+' && s[i] != '-' && s[i] != '_'
    ensures PyInt(s).None?
  {
    StripInside(s, i);
    NonDigitBlocks(Strip(s), i - (|s| - |LStripBy(s, IsSpace)|));
  }

  /** A character that is neither a digit, an underscore nor a sign leaves no digit groups
      to read, whether or not a sign comes first. */
  lemma NonDigitBlocks(t: string, k: int)
    requires 0 <= k < |t| && !IsDigit(t[k]) && t[k] != '+' && t[k] != '-' && t[k] != '_'
    ensures ParseLiteral(t).None?
  {
    if t[0] == '+' || t[0] == '-' {
      assert t[1..][k - 1] == t[k];
    }
  }

  /** A non-space character of `s` survives stripping, at its position less the
      stripped prefix. */
  lemma StripInside(s: string, i: int)
    requires 0 <= i < |s| && !IsSpace(s[i])
    ensures var l := LStripBy(s, IsSpace); var k := i - (|s| - |l|);
      0 <= k < |Strip(s)| && Strip(s)[k] == s[i]
  {
    var l := LStripBy(s, IsSpace);
    var k := i - (|s| - |l|);
    assert 0 <= k < |l| && l[k] == s[i];
    var r := RStripBy(l, IsSpace);
    assert k < |r|;
  }

  /** Truncating integer division, as Python's `int(a / b)` rounds toward zero. */
  function TruncDiv(a: int, b: int): (r: int)
    requires b != 0
    ensures a >= 0 && b > 0 ==> r == a / b
    ensures (a >= 0) == (b > 0) ==> r >= 0
  {
    if (a >= 0) == (b > 0) then (if a >= 0 then a / b else (-a) / (-b))
    else -((if a >= 0 then a else -a) / (if b > 0 then b else -b))
  }
}
