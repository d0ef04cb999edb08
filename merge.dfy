/** Unpacking resources.zip into the install folder, in the three ways the updaters do it:
    the installer's per-member write that strips a leading "resources" component
    (update.py), updater 1.1's extraction into a staging directory followed by a copy
    over the destination, and updater 1.2's extraction followed by a move loop whose
    source and target folder are the same. */
module Merge {

  import opened Common
  import opened Text
  import opened FileTree
  import opened Disk

  /** A zip member: its name as stored (a trailing '/' marks a directory) and its bytes. */
  datatype Member = Member(name: string, data: Bytes)

  predicate IsDirMember(m: Member)
  {
    |m.name| > 0 && m.name[|m.name| - 1] == '/'
  }

  // ---------------------------------------------------------------- path strings

  function SplitEach(parts: seq<string>, c: char): seq<string>
    decreases |parts|
  {
    if |parts| == 0 then [] else Split(parts[0], c) + SplitEach(parts[1..], c)
  }

  /** The components the operating system reads in one path string: it separates at '/'
      and, on Windows, at '\\' as well. */
  function OsPieces(s: string, windows: bool): seq<string>
  {
    if windows then SplitEach(Split(s, '/'), '\\') else Split(s, '/')
  }

  /** The components of `os.path.join(base, *parts)` after `base`. */
  function JoinedPieces(parts: seq<string>, windows: bool): seq<string>
    decreases |parts|
  {
    if |parts| == 0 then [] else OsPieces(parts[0], windows) + JoinedPieces(parts[1..], windows)
  }

  /** How a path string is followed from `base`: empty and "." components stay where they
      are, ".." goes up one level, any other name goes down into it. */
  function Resolve(base: Path, pieces: seq<string>): Path
    decreases |pieces|
  {
    if |pieces| == 0 then base
    else
      var p := pieces[0];
      var next := if p == "" || p == "." then base
                  else if p == ".." then (if |base| > 0 then Parent(base) else base)
                  else base + [p];
      Resolve(next, pieces[1..])
  }

  /** A component that names an entry rather than moving around. */
  predicate IsName(p: string)
  {
    p != "" && p != "." && p != ".."
  }

  /** Plain names are followed one by one. */
  lemma {:induction false} ResolveNames(base: Path, pieces: seq<string>)
    requires forall i :: 0 <= i < |pieces| ==> IsName(pieces[i])
    ensures Resolve(base, pieces) == base + pieces
    decreases |pieces|
  {
    if |pieces| > 0 {
      ResolveNames(base + [pieces[0]], pieces[1..]);
      assert base + [pieces[0]] + pieces[1..] == base + pieces;
    }
  }

  /** Without ".." a path never leaves `base`. */
  lemma {:induction false} ResolveStaysBelow(base: Path, pieces: seq<string>)
    requires forall i :: 0 <= i < |pieces| ==> pieces[i] != ".."
    ensures Below(base, Resolve(base, pieces))
    decreases |pieces|
  {
    if |pieces| > 0 {
      var p := pieces[0];
      var next := if p == "" || p == "." then base else base + [p];
      ResolveStaysBelow(next, pieces[1..]);
      var r := Resolve(base, pieces);
      assert r[..|next|] == next;
      assert r[..|base|] == next[..|base|];
    }
  }

  // ---------------------------------------------------------------- steps per member

  /** The steps of a whole archive, member after member. */
  function OpsOf(ms: seq<Member>, f: Member -> seq<Op>): seq<Op>
    decreases |ms|
  {
    if |ms| == 0 then [] else OpsOf(ms[..|ms| - 1], f) + f(ms[|ms| - 1])
  }

  lemma {:induction false} OpsOfAppend(a: seq<Member>, b: seq<Member>, f: Member -> seq<Op>)
    ensures OpsOf(a + b, f) == OpsOf(a, f) + OpsOf(b, f)
    decreases |b|
  {
    if |b| > 0 {
      assert (a + b)[..|a + b| - 1] == a + b[..|b| - 1];
      OpsOfAppend(a, b[..|b| - 1], f);
    } else {
      assert a + b == a;
    }
  }

  /** The steps of the first `i + 1` members: those of the first `i`, then member `i`'s. */
  lemma OpsOfSnoc(ms: seq<Member>, f: Member -> seq<Op>, i: nat)
    requires i < |ms|
    ensures OpsOf(ms[..i + 1], f) == OpsOf(ms[..i], f) + f(ms[i])
  {
    assert ms[..i + 1][..i] == ms[..i];
  }

  /** One pass of a loop over the members: the run so far extended by member `i`'s steps
      is the run of the first `i + 1` members, and a failure there is the outcome of the
      whole archive. */
  lemma MemberStep(t: Tree, locked: set<Path>, ms: seq<Member>, f: Member -> seq<Op>, i: nat, before: Tree, r: Run)
    requires i < |ms|
    requires Exec(t, locked, OpsOf(ms[..i], f)) == Run(before, true)
    requires r == Exec(before, locked, f(ms[i]))
    ensures r.ok ==> Exec(t, locked, OpsOf(ms[..i + 1], f)) == r
    ensures !r.ok ==> Exec(t, locked, OpsOf(ms, f)) == r
  {
    OpsOfSnoc(ms, f, i);
    ExecAppend(t, locked, OpsOf(ms[..i], f), f(ms[i]));
    if !r.ok {
      StopsAt(t, locked, ms, i + 1, f);
    }
  }

  /** Every step comes from some member. */
  lemma {:induction false} OpsOfFrom(ms: seq<Member>, f: Member -> seq<Op>, op: Op)
    requires op in OpsOf(ms, f)
    ensures exists m :: m in ms && op in f(m)
    decreases |ms|
  {
    if op !in f(ms[|ms| - 1]) {
      OpsOfFrom(ms[..|ms| - 1], f, op);
    }
  }

  /** The state after member `i`'s steps, when its last step writes `x`, survives to the
      end unless a later member writes `x` with other bytes. */
  lemma LastWriteWins(t: Tree, locked: set<Path>, ms: seq<Member>, f: Member -> seq<Op>,
                      i: nat, x: Path, d: Bytes)
    requires Exec(t, locked, OpsOf(ms, f)).ok
    requires i < |ms| && |f(ms[i])| > 0 && f(ms[i])[|f(ms[i])| - 1] == Write(x, d)
    requires forall m, op :: m in ms[i + 1..] && op in f(m) && MayWrite(op, x) ==> op.data == d
    ensures x in Exec(t, locked, OpsOf(ms, f)).tree
    ensures Exec(t, locked, OpsOf(ms, f)).tree[x] == File(d)
  {
    var a, b := OpsOf(ms[..i + 1], f), OpsOf(ms[i + 1..], f);
    assert ms == ms[..i + 1] + ms[i + 1..];
    OpsOfAppend(ms[..i + 1], ms[i + 1..], f);
    ExecAppend(t, locked, a, b);
    var s := Exec(t, locked, a).tree;
    OpsOfSnoc(ms, f, i);
    AfterLastWrite(t, locked, OpsOf(ms[..i], f), f(ms[i]), x, d);
    forall op | op in b && MayWrite(op, x)
      ensures s[x] == File(op.data)
    {
      OpsOfFrom(ms[i + 1..], f, op);
    }
    ExecKeeps(s, locked, b, x);
  }

  /** After a successful run whose last step writes `x`, `x` holds those bytes. */
  lemma AfterLastWrite(t: Tree, locked: set<Path>, a: seq<Op>, b: seq<Op>, x: Path, d: Bytes)
    requires |b| > 0 && b[|b| - 1] == Write(x, d)
    requires Exec(t, locked, a + b).ok
    ensures x in Exec(t, locked, a + b).tree && Exec(t, locked, a + b).tree[x] == File(d)
  {
    var c := a + b[..|b| - 1];
    assert a + b == c + [Write(x, d)];
    ExecAppend(t, locked, c, [Write(x, d)]);
  }

  // ---------------------------------------------------------------- the installer (update.py)

  const ResourcesFolderName: string := "resources"

  /** `os.sep`. */
  function OsSep(windows: bool): char
  {
    if windows then '\\' else '/'
  }

  /** `member.split(sep)`, without the first part when it is "resources" in any case. */
  function InstallerParts(name: string, sep: char): seq<string>
  {
    var parts := Split(name, sep);
    if Lower(parts[0]) == Lower(ResourcesFolderName) then parts[1..] else parts
  }

  /** `os.path.join(dest_folder, *parts)`. */
  function InstallerTarget(name: string, dest: Path, sep: char, windows: bool): Path
  {
    Resolve(dest, JoinedPieces(InstallerParts(name, sep), windows))
  }

  /** `os.path.dirname(target_path)`: the joined string without its last component. */
  function InstallerDir(name: string, dest: Path, sep: char, windows: bool): Path
  {
    var pieces := JoinedPieces(InstallerParts(name, sep), windows);
    if |pieces| > 0 then Resolve(dest, pieces[..|pieces| - 1])
    else if |dest| > 0 then Parent(dest) else dest
  }

  /** A directory member only creates its directory; a file member creates its parent
      directories and then overwrites its target with its bytes. */
  function InstallerMemberOps(m: Member, dest: Path, sep: char, windows: bool): seq<Op>
  {
    if IsDirMember(m) then [MakeDirs(InstallerTarget(m.name, dest, sep, windows))]
    else [MakeDirs(InstallerDir(m.name, dest, sep, windows)), Write(InstallerTarget(m.name, dest, sep, windows), m.data)]
  }

  function InstallerF(dest: Path, sep: char, windows: bool): Member -> seq<Op>
  {
    m => InstallerMemberOps(m, dest, sep, windows)
  }

  function InstallerOps(ms: seq<Member>, dest: Path, sep: char, windows: bool): seq<Op>
  {
    OpsOf(ms, InstallerF(dest, sep, windows))
  }

  /** `unzip_and_merge(zip_path, dest_folder)` of the installer, splitting member names at
      `sep` (the code uses `os.sep`). An exception stops the loop where it occurred. */
  method InstallerUnzipAndMerge(d: Disk, members: seq<Member>, dest: Path, sep: char) returns (ok: bool)
    modifies d
    ensures Run(d.tree, ok) == Exec(old(d.tree), old(d.Held()), InstallerOps(members, dest, sep, d.windows))
    ensures d.locks == old(d.locks)
  {
    ghost var t0, held := d.tree, d.Held();
    var i := 0;
    while i < |members|
      invariant 0 <= i <= |members|
      invariant d.locks == old(d.locks) && d.Held() == held
      invariant Exec(t0, held, InstallerOps(members[..i], dest, sep, d.windows)) == Run(d.tree, true)
    {
      ghost var before := d.tree;
      ok := InstallerWriteMember(d, members[i], dest, sep);
      MemberStep(t0, held, members, InstallerF(dest, sep, d.windows), i, before, Run(d.tree, ok));
      if !ok {
        return;
      }
      i := i + 1;
    }
    assert members[..|members|] == members;
    ok := true;
  }

  /** One pass of the installer's loop. */
  method InstallerWriteMember(d: Disk, m: Member, dest: Path, sep: char) returns (ok: bool)
    modifies d
    ensures Run(d.tree, ok) == Exec(old(d.tree), old(d.Held()), InstallerMemberOps(m, dest, sep, d.windows))
    ensures d.locks == old(d.locks)
  {
    var target := InstallerTarget(m.name, dest, sep, d.windows);
    if IsDirMember(m) {
      ok := d.MakeDirs(target);
    } else {
      var dir := InstallerDir(m.name, dest, sep, d.windows);
      ok := d.MakeDirs(dir);
      if ok {
        ok := d.WriteBytes(target, m.data);
      }
      TwoSteps(old(d.tree), old(d.Held()), MakeDirs(dir), Write(target, m.data));
    }
  }

  /** Running two steps. */
  lemma TwoSteps(t: Tree, locked: set<Path>, a: Op, b: Op)
    ensures Exec(t, locked, [a, b]) ==
            match Step(t, locked, a)
            case None => Run(t, false)
            case Some(t1) => (match Step(t1, locked, b) case None => Run(t1, false) case Some(t2) => Run(t2, true))
  {
    assert [a, b][0] == a && [a, b][1..] == [b];
    match Step(t, locked, a) {
      case None =>
      case Some(t1) =>
        assert Exec(t, locked, [a, b]) == Exec(t1, locked, [b]);
        assert [b][0] == b && [b][1..] == [];
        match Step(t1, locked, b) {
          case None =>
          case Some(t2) =>
            assert Exec(t1, locked, [b]) == Exec(t2, locked, []);
        }
    }
  }

  /** When the members before `k` fail, the whole archive fails there. */
  lemma StopsAt(t: Tree, locked: set<Path>, ms: seq<Member>, k: nat, f: Member -> seq<Op>)
    requires k <= |ms|
    requires !Exec(t, locked, OpsOf(ms[..k], f)).ok
    ensures Exec(t, locked, OpsOf(ms, f)) == Exec(t, locked, OpsOf(ms[..k], f))
  {
    assert ms == ms[..k] + ms[k..];
    OpsOfAppend(ms[..k], ms[k..], f);
    ExecAppend(t, locked, OpsOf(ms[..k], f), OpsOf(ms[k..], f));
  }

  /** Parts without any separator the operating system reads are single components. */
  lemma {:induction false} JoinedPlain(parts: seq<string>, windows: bool)
    requires forall i :: 0 <= i < |parts| ==> '/' !in parts[i] && (windows ==> '\\' !in parts[i])
    ensures JoinedPieces(parts, windows) == parts
    decreases |parts|
  {
    if |parts| > 0 {
      SplitNoSep(parts[0], '/');
      if windows {
        SplitNoSep(parts[0], '\\');
        assert SplitEach([parts[0]], '\\') == [parts[0]] + SplitEach([], '\\');
      }
      JoinedPlain(parts[1..], windows);
    }
  }

  /** Splitting at '/', a member under a top-level "resources" folder (in any letter case)
      lands where the same member without that folder does; only that one level goes. */
  lemma InstallerStripsResources(top: string, rest: string)
    requires Lower(top) == Lower(ResourcesFolderName) && '/' !in top
    ensures InstallerParts(top + "/" + rest, '/') == Split(rest, '/')
  {
    SplitConcat(top, rest, '/');
    SplitNoSep(top, '/');
    assert top + "/" + rest == top + ['/'] + rest;
  }

  /** A member whose first component is not "resources" keeps all its components. */
  lemma InstallerKeepsOtherTop(name: string)
    requires Lower(Split(name, '/')[0]) != Lower(ResourcesFolderName)
    ensures InstallerParts(name, '/') == Split(name, '/')
  {
  }

  /** With '/' as the separator, "resources/" + rest and rest itself land at the same
      place in the destination, on either operating system, when rest is made of plain
      names and does not itself start with "resources". */
  lemma InstallerTargetBySlash(rest: string, dest: Path, windows: bool)
    requires forall i :: 0 <= i < |Split(rest, '/')| ==> IsName(Split(rest, '/')[i])
    requires '\\' !in rest
    requires Lower(Split(rest, '/')[0]) != Lower(ResourcesFolderName)
    ensures InstallerTarget(ResourcesFolderName + "/" + rest, dest, '/', windows) == dest + Split(rest, '/')
    ensures InstallerTarget(rest, dest, '/', windows) == dest + Split(rest, '/')
  {
    var parts := Split(rest, '/');
    ResourcesLower();
    InstallerStripsResources(ResourcesFolderName, rest);
    SplitAbsent(rest, '/', '\\');
    JoinedPlain(parts, windows);
    ResolveNames(dest, parts);
  }

  lemma ResourcesLower()
    ensures Lower(ResourcesFolderName) == ResourcesFolderName
    ensures '/' !in ResourcesFolderName && '\\' !in ResourcesFolderName
  {
  }

  /** A name without `sep` that is not "resources" stays one part. */
  lemma InstallerOnePart(name: string, sep: char)
    requires sep !in name && |name| != |ResourcesFolderName|
    ensures InstallerParts(name, sep) == [name]
  {
    SplitNoSep(name, sep);
  }

  /** Without '\\' in it, a part on Windows is read as its '/'-separated pieces. */
  lemma JoinedOneOnWindows(name: string)
    requires '\\' !in name
    ensures JoinedPieces([name], true) == Split(name, '/')
  {
    SplitAbsent(name, '/', '\\');
    SplitEachPlain(Split(name, '/'), '\\');
    assert [name][1..] == [];
  }

  /** Splitting at '\\', Windows' `os.sep`, as the installer does there: zip names use
      '/', so a member under "resources/" is one part that never equals "resources", and
      the folder is recreated inside the destination. */
  lemma InstallerKeepsWrapperOnWindows(rest: string, dest: Path)
    requires '\\' !in rest
    ensures InstallerTarget(ResourcesFolderName + "/" + rest, dest, '\\', true) == Resolve(dest + ["resources"], Split(rest, '/'))
  {
    ResourcesLower();
    var name := ResourcesFolderName + "/" + rest;
    assert '\\' !in name;
    InstallerOneWindowsPart(name, dest);
    SplitUnderResources(rest);
    var pieces := Split(name, '/');
    assert pieces[0] == "resources" && pieces[1..] == Split(rest, '/');
  }

  /** On Windows, a name without '\\' that is not "resources" is followed along its
      '/'-separated pieces. */
  lemma InstallerOneWindowsPart(name: string, dest: Path)
    requires '\\' !in name && |name| != |ResourcesFolderName|
    ensures InstallerTarget(name, dest, '\\', true) == Resolve(dest, Split(name, '/'))
  {
    InstallerOnePart(name, '\\');
    JoinedOneOnWindows(name);
  }

  lemma SplitUnderResources(rest: string)
    ensures Split(ResourcesFolderName + "/" + rest, '/') == [ResourcesFolderName] + Split(rest, '/')
  {
    ResourcesLower();
    assert ResourcesFolderName + "/" + rest == ResourcesFolderName + ['/'] + rest;
    SplitConcat(ResourcesFolderName, rest, '/');
    SplitNoSep(ResourcesFolderName, '/');
  }

  /** Splitting pieces that hold no separator changes nothing. */
  lemma {:induction false} SplitEachPlain(parts: seq<string>, c: char)
    requires forall i :: 0 <= i < |parts| ==> c !in parts[i]
    ensures SplitEach(parts, c) == parts
    decreases |parts|
  {
    if |parts| > 0 {
      SplitNoSep(parts[0], c);
      SplitEachPlain(parts[1..], c);
    }
  }

  /** A file name at the top of the archive's "resources" folder. */
  const ExampleAsset: string := "a.png"

  /** The discrepancy on the asset's own layout: on Windows "resources/a.png" lands at
      `<dest>/resources/a.png` when split at '\\', at `<dest>/a.png` when split at '/'. */
  lemma InstallerWindowsExample(dest: Path)
    ensures InstallerTarget(ResourcesFolderName + "/" + ExampleAsset, dest, '\\', true) == dest + [ResourcesFolderName, ExampleAsset]
    ensures InstallerTarget(ResourcesFolderName + "/" + ExampleAsset, dest, '/', true) == dest + [ExampleAsset]
  {
    var rest := ExampleAsset;
    assert '\\' !in rest && '/' !in rest && IsName(rest) && Lower(rest)[0] == 'a';
    WindowsExampleBackslash(rest, dest);
    WindowsExampleSlash(rest, dest);
  }

  /** Split at '\\', a plain file name under "resources/" keeps the wrapper folder. */
  lemma WindowsExampleBackslash(rest: string, dest: Path)
    requires '\\' !in rest && '/' !in rest && IsName(rest)
    ensures InstallerTarget(ResourcesFolderName + "/" + rest, dest, '\\', true) == dest + [ResourcesFolderName, rest]
  {
    InstallerKeepsWrapperOnWindows(rest, dest);
    SplitNoSep(rest, '/');
    ResolveNames(dest + [ResourcesFolderName], [rest]);
  }

  /** Split at '/', a plain file name under "resources/" lands directly in `dest`. */
  lemma WindowsExampleSlash(rest: string, dest: Path)
    requires '\\' !in rest && '/' !in rest && IsName(rest) && |rest| > 0 && Lower(rest)[0] == 'a'
    ensures InstallerTarget(ResourcesFolderName + "/" + rest, dest, '/', true) == dest + [rest]
  {
    SplitNoSep(rest, '/');
    InstallerTargetBySlash(rest, dest, true);
  }

  /** The last file member aimed at a path decides its bytes: earlier duplicates are
      overwritten. */
  lemma InstallerLastWins(t: Tree, locked: set<Path>, members: seq<Member>, dest: Path, sep: char, windows: bool, i: nat)
    requires Exec(t, locked, InstallerOps(members, dest, sep, windows)).ok
    requires i < |members| && !IsDirMember(members[i])
    requires forall m :: m in members[i + 1..] && !IsDirMember(m) ==>
               InstallerTarget(m.name, dest, sep, windows) != InstallerTarget(members[i].name, dest, sep, windows)
    ensures InstallerTarget(members[i].name, dest, sep, windows) in Exec(t, locked, InstallerOps(members, dest, sep, windows)).tree
    ensures Exec(t, locked, InstallerOps(members, dest, sep, windows)).tree[InstallerTarget(members[i].name, dest, sep, windows)]
            == File(members[i].data)
  {
    var f := InstallerF(dest, sep, windows);
    var x := InstallerTarget(members[i].name, dest, sep, windows);
    forall m, op | m in members[i + 1..] && op in f(m)
      ensures !MayWrite(op, x)
    {
      InstallerWrites(m, dest, sep, windows, op);
    }
    LastWriteWins(t, locked, members, f, i, x, members[i].data);
  }

  /** A member's steps only write its own target, and only when it is a file member. */
  lemma InstallerWrites(m: Member, dest: Path, sep: char, windows: bool, op: Op)
    requires op in InstallerMemberOps(m, dest, sep, windows)
    ensures op.Write? ==> !IsDirMember(m) && op == Write(InstallerTarget(m.name, dest, sep, windows), m.data)
    ensures !op.CopyInto?
  {
  }

  /** Entries no file member is aimed at keep their content: files not in the archive are
      untouched, and existing directories stay. */
  lemma InstallerLeavesOthers(t: Tree, locked: set<Path>, members: seq<Member>, dest: Path, sep: char, windows: bool, q: Path)
    requires Exec(t, locked, InstallerOps(members, dest, sep, windows)).ok
    requires q in t
    requires forall m :: m in members && !IsDirMember(m) ==> InstallerTarget(m.name, dest, sep, windows) != q
    ensures q in Exec(t, locked, InstallerOps(members, dest, sep, windows)).tree
    ensures Exec(t, locked, InstallerOps(members, dest, sep, windows)).tree[q] == t[q]
  {
    var f := InstallerF(dest, sep, windows);
    forall op | op in OpsOf(members, f)
      ensures !MayWrite(op, q)
    {
      OpsOfFrom(members, f, op);
      var m :| m in members && op in f(m);
      InstallerWrites(m, dest, sep, windows, op);
    }
    ExecKeeps(t, locked, OpsOf(members, f), q);
  }

  /** Merging the same archive again over the result changes nothing. */
  lemma InstallerIdempotent(t: Tree, locked: set<Path>, members: seq<Member>, dest: Path, sep: char, windows: bool)
    requires Exec(t, locked, InstallerOps(members, dest, sep, windows)).ok
    ensures Exec(Exec(t, locked, InstallerOps(members, dest, sep, windows)).tree, locked, InstallerOps(members, dest, sep, windows))
            == Exec(t, locked, InstallerOps(members, dest, sep, windows))
  {
    ExecIdempotent(t, locked, InstallerOps(members, dest, sep, windows));
  }

  // ---------------------------------------------------------------- extraction (zipfile)

  /** The components kept from a list: empty, "." and ".." ones are dropped. */
  function Names(ps: seq<string>): (r: seq<string>)
    ensures forall i :: 0 <= i < |r| ==> IsName(r[i])
    ensures forall x :: x in r <==> x in ps && IsName(x)
    decreases |ps|
  {
    if |ps| == 0 then [] else (if IsName(ps[0]) then [ps[0]] else []) + Names(ps[1..])
  }

  /** The components `ZipFile.extract` keeps of a member name: it separates at every
      separator the operating system reads and drops empty, "." and ".." components, so
      no member can climb out of the folder it is extracted to. */
  function Pieces(m: Member, windows: bool): (r: seq<string>)
    ensures forall i :: 0 <= i < |r| ==> IsName(r[i])
    ensures forall x :: x in r ==> x in OsPieces(m.name, windows)
  {
    Names(OsPieces(m.name, windows))
  }

  /** Extracting a member below `root`: a directory member creates its directory; a file
      member creates the directories above it and writes its bytes. */
  function ExtractMemberOps(m: Member, root: Path, windows: bool): seq<Op>
  {
    var p := root + Pieces(m, windows);
    if IsDirMember(m) then [MakeDirs(p)]
    else if |p| > 0 then [MakeDirs(Parent(p)), Write(p, m.data)]
    else [Write(p, m.data)]
  }

  function ExtractF(root: Path, windows: bool): Member -> seq<Op>
  {
    m => ExtractMemberOps(m, root, windows)
  }

  /** `ZipFile.extractall(root)`: the members in archive order. */
  function ExtractOps(ms: seq<Member>, root: Path, windows: bool): seq<Op>
  {
    OpsOf(ms, ExtractF(root, windows))
  }

  /** Runs steps on the disk one by one, stopping at the first that fails. */
  method ApplyOps(d: Disk, ops: seq<Op>) returns (ok: bool)
    modifies d
    ensures Run(d.tree, ok) == Exec(old(d.tree), old(d.Held()), ops)
    ensures d.locks == old(d.locks)
  {
    ghost var held := d.Held();
    ok := true;
    var i := 0;
    while i < |ops|
      invariant 0 <= i <= |ops|
      invariant d.locks == old(d.locks) && d.Held() == held
      invariant Exec(old(d.tree), held, ops) == Exec(d.tree, held, ops[i..])
    {
      assert ops[i..][0] == ops[i] && ops[i..][1..] == ops[i + 1..];
      ok := d.Perform(ops[i]);
      if !ok {
        return;
      }
      i := i + 1;
    }
    assert ops[i..] == [];
  }

  /** After a successful run, a path that member `i`'s steps end by writing is a file. */
  lemma WrittenStaysFile(t: Tree, locked: set<Path>, ms: seq<Member>, f: Member -> seq<Op>,
                         i: nat, x: Path, d: Bytes)
    requires Exec(t, locked, OpsOf(ms, f)).ok
    requires i < |ms| && |f(ms[i])| > 0 && f(ms[i])[|f(ms[i])| - 1] == Write(x, d)
    ensures IsFileIn(Exec(t, locked, OpsOf(ms, f)).tree, x)
  {
    var a, b := OpsOf(ms[..i + 1], f), OpsOf(ms[i + 1..], f);
    assert ms == ms[..i + 1] + ms[i + 1..];
    OpsOfAppend(ms[..i + 1], ms[i + 1..], f);
    ExecAppend(t, locked, a, b);
    OpsOfSnoc(ms, f, i);
    AfterLastWrite(t, locked, OpsOf(ms[..i], f), f(ms[i]), x, d);
    ExecKeepsKinds(Exec(t, locked, a).tree, locked, b);
  }

  /** Every file member of a successful extraction ends up as a file. */
  lemma ExtractedIsFile(t: Tree, locked: set<Path>, ms: seq<Member>, root: Path, windows: bool, i: nat)
    requires Exec(t, locked, ExtractOps(ms, root, windows)).ok
    requires i < |ms| && !IsDirMember(ms[i])
    ensures IsFileIn(Exec(t, locked, ExtractOps(ms, root, windows)).tree, root + Pieces(ms[i], windows))
  {
    var f := ExtractF(root, windows);
    var ops := f(ms[i]);
    WrittenStaysFile(t, locked, ms, f, i, root + Pieces(ms[i], windows), ms[i].data);
  }

  /** The last file member with given components decides the bytes extracted there. */
  lemma ExtractLastWins(t: Tree, locked: set<Path>, ms: seq<Member>, root: Path, windows: bool, i: nat)
    requires Exec(t, locked, ExtractOps(ms, root, windows)).ok
    requires i < |ms| && !IsDirMember(ms[i])
    requires forall m :: m in ms[i + 1..] && !IsDirMember(m) ==> Pieces(m, windows) != Pieces(ms[i], windows)
    ensures root + Pieces(ms[i], windows) in Exec(t, locked, ExtractOps(ms, root, windows)).tree
    ensures Exec(t, locked, ExtractOps(ms, root, windows)).tree[root + Pieces(ms[i], windows)] == File(ms[i].data)
  {
    var f := ExtractF(root, windows);
    var x := root + Pieces(ms[i], windows);
    forall m, op | m in ms[i + 1..] && op in f(m)
      ensures !MayWrite(op, x)
    {
      ExtractWrites(m, root, windows, op);
      if op.Write? {
        assert (root + Pieces(m, windows))[|root|..] == Pieces(m, windows);
        assert x[|root|..] == Pieces(ms[i], windows);
      }
    }
    LastWriteWins(t, locked, ms, f, i, x, ms[i].data);
  }

  /** A member's extraction steps only write its own path, and only for a file member. */
  lemma ExtractWrites(m: Member, root: Path, windows: bool, op: Op)
    requires op in ExtractMemberOps(m, root, windows)
    ensures op.Write? ==> !IsDirMember(m) && op == Write(root + Pieces(m, windows), m.data)
    ensures !op.CopyInto?
  {
  }

  // ---------------------------------------------------------------- updater 1.1: unzip_to

  /** The folder `tempfile.mkdtemp()` creates, in a tree of its own. */
  const StageRoot: Path := ["tmp"]

  /** `z.extractall(tempdir)` into a fresh, empty staging folder no process holds. */
  function Staging(ms: seq<Member>, windows: bool): Run
  {
    Exec(map[StageRoot := Dir], {}, ExtractOps(ms, StageRoot, windows))
  }

  /** The copy loop's work for one member's path: its directory is created below `dest`,
      and a staged file is copied there with `shutil.copy2` after its folder is created. */
  function WalkMemberOps(m: Member, dest: Path, staged: Tree, windows: bool): seq<Op>
  {
    var p := Pieces(m, windows);
    if IsDirMember(m) then [MakeDirs(dest + p)]
    else if |p| > 0 && IsFileIn(staged, StageRoot + p) then
      [MakeDirs(dest + Parent(p)), CopyInto(dest + p, staged[StageRoot + p].data)]
    else []
  }

  function WalkF(dest: Path, staged: Tree, windows: bool): Member -> seq<Op>
  {
    m => WalkMemberOps(m, dest, staged, windows)
  }

  /** The `os.walk` loop over the staging folder: `dest` itself first, then every staged
      directory and file. */
  function WalkOps(ms: seq<Member>, dest: Path, staged: Tree, windows: bool): seq<Op>
  {
    [MakeDirs(dest)] + OpsOf(ms, WalkF(dest, staged, windows))
  }

  /** `unzip_to(zip_path, dest_folder, overwrite)` of updater 1.1. Without `overwrite` the
      archive is extracted straight into `dest`. With it, a failed extraction into the
      staging folder leaves the disk alone; otherwise the staged tree is copied over `dest`,
      stopping at the first failure. The staging folder is removed either way. */
  method UnzipTo11(d: Disk, members: seq<Member>, dest: Path, overwrite: bool) returns (ok: bool)
    modifies d
    ensures !overwrite ==> Run(d.tree, ok) == Exec(old(d.tree), old(d.Held()), ExtractOps(members, dest, d.windows))
    ensures overwrite && !Staging(members, d.windows).ok ==> !ok && d.tree == old(d.tree)
    ensures overwrite && Staging(members, d.windows).ok ==>
              Run(d.tree, ok) == Exec(old(d.tree), old(d.Held()), WalkOps(members, dest, Staging(members, d.windows).tree, d.windows))
    ensures d.locks == old(d.locks)
  {
    if !overwrite {
      ok := ApplyOps(d, ExtractOps(members, dest, d.windows));
      return;
    }
    var st := Staging(members, d.windows);
    if !st.ok {
      return false;
    }
    ghost var t0, held := d.tree, d.Held();
    var rest := OpsOf(members, WalkF(dest, st.tree, d.windows));
    ExecAppend(t0, held, [MakeDirs(dest)], rest);
    ok := d.MakeDirs(dest);
    if !ok {
      return;
    }
    ok := CopyStaged(d, members, dest, st.tree);
  }

  /** The copy loop over the staged members. */
  method CopyStaged(d: Disk, members: seq<Member>, dest: Path, staged: Tree) returns (ok: bool)
    modifies d
    ensures Run(d.tree, ok) == Exec(old(d.tree), old(d.Held()), OpsOf(members, WalkF(dest, staged, d.windows)))
    ensures d.locks == old(d.locks)
  {
    ghost var t0, held := d.tree, d.Held();
    var i := 0;
    while i < |members|
      invariant 0 <= i <= |members|
      invariant d.locks == old(d.locks) && d.Held() == held
      invariant Exec(t0, held, OpsOf(members[..i], WalkF(dest, staged, d.windows))) == Run(d.tree, true)
    {
      ghost var before := d.tree;
      ok := CopyMember(d, members[i], dest, staged);
      MemberStep(t0, held, members, WalkF(dest, staged, d.windows), i, before, Run(d.tree, ok));
      if !ok {
        return;
      }
      i := i + 1;
    }
    assert members[..|members|] == members;
    ok := true;
  }

  /** One member's part of the copy loop. */
  method CopyMember(d: Disk, m: Member, dest: Path, staged: Tree) returns (ok: bool)
    modifies d
    ensures Run(d.tree, ok) == Exec(old(d.tree), old(d.Held()), WalkMemberOps(m, dest, staged, d.windows))
    ensures d.locks == old(d.locks)
  {
    var p := Pieces(m, d.windows);
    if IsDirMember(m) {
      ok := d.MakeDirs(dest + p);
    } else if |p| > 0 && IsFileIn(staged, StageRoot + p) {
      var dir, copy := MakeDirs(dest + Parent(p)), CopyInto(dest + p, staged[StageRoot + p].data);
      ok := d.Perform(dir);
      if ok {
        ok := d.Perform(copy);
      }
      TwoSteps(old(d.tree), old(d.Held()), dir, copy);
    } else {
      ok := true;
    }
  }

  /** A copy into `y` followed by steps that never write where that copy went, or write
      the same bytes there: at the end, the place `shutil.copy2` picks for `y` holds them. */
  lemma LastCopyWins(t: Tree, locked: set<Path>, a: seq<Op>, y: Path, d: Bytes, b: seq<Op>)
    requires Exec(t, locked, a + ([CopyInto(y, d)] + b)).ok
    requires |y| > 0
    requires forall op :: op in b && (MayWrite(op, y) || MayWrite(op, y + [y[|y| - 1]])) ==> op.data == d
    ensures CopyTarget(Exec(t, locked, a + ([CopyInto(y, d)] + b)).tree, y) in Exec(t, locked, a + ([CopyInto(y, d)] + b)).tree
    ensures Exec(t, locked, a + ([CopyInto(y, d)] + b)).tree[CopyTarget(Exec(t, locked, a + ([CopyInto(y, d)] + b)).tree, y)] == File(d)
  {
    var c := CopyInto(y, d);
    ExecAppend(t, locked, a, [c] + b);
    var s := Exec(t, locked, a).tree;
    assert ([c] + b)[0] == c && ([c] + b)[1..] == b;
    var x := CopyTarget(s, y);
    var s1 := Step(s, locked, c).value;
    assert s1 == s[x := File(d)];
    forall op | op in b && MayWrite(op, x)
      ensures s1[x] == File(op.data)
    {
    }
    ExecKeeps(s1, locked, b, x);
    ExecKeepsKinds(s1, locked, b);
    if y in s && s[y].Dir? {
      assert y in s1 && s1[y].Dir?;
    } else {
      assert x == y;
    }
  }

  /** A member's copy-loop steps write nothing directly and copy only its own staged file. */
  lemma WalkWrites(m: Member, dest: Path, staged: Tree, windows: bool, op: Op)
    requires op in WalkMemberOps(m, dest, staged, windows)
    ensures !op.Write?
    ensures op.CopyInto? ==> (!IsDirMember(m) && |Pieces(m, windows)| > 0 && IsFileIn(staged, StageRoot + Pieces(m, windows)) &&
                              op == CopyInto(dest + Pieces(m, windows), staged[StageRoot + Pieces(m, windows)].data))
  {
  }

  /** Two staged files never copy onto each other's place: one would have to sit inside the
      other, which a file cannot hold. */
  lemma CopiesApart(staged: Tree, dest: Path, p: seq<string>, p': seq<string>, e: Bytes)
    requires WellFormed(staged)
    requires |p| > 0 && |p'| > 0 && IsFileIn(staged, StageRoot + p) && IsFileIn(staged, StageRoot + p')
    requires MayWrite(CopyInto(dest + p', e), dest + p) || MayWrite(CopyInto(dest + p', e), dest + p + [p[|p| - 1]])
    ensures p' == p
  {
    var q, q' := StageRoot + p, StageRoot + p';
    var z, z' := p[|p| - 1], p'[|p'| - 1];
    FileHasNoChild(staged, q, z);
    FileHasNoChild(staged, q', z');
    assert StageRoot + (p + [z]) == q + [z] && StageRoot + (p' + [z']) == q' + [z'];
    assert p != p' + [z'] && p' != p + [z];
    assert (dest + p)[|dest|..] == p && (dest + p')[|dest|..] == p';
    assert (dest + p' + [z'])[|dest|..] == p' + [z'] && (dest + p + [z])[|dest|..] == p + [z];
    if dest + p' + [p'[|p'| - 1]] == dest + p + [p[|p| - 1]] {
      assert (dest + p' + [p'[|p'| - 1]])[..|dest + p'|] == dest + p';
    }
  }

  /** A file has nothing inside it. */
  lemma FileHasNoChild(t: Tree, q: Path, z: string)
    requires WellFormed(t) && IsFileIn(t, q)
    ensures q + [z] !in t
  {
    assert Parent(q + [z]) == q;
  }

  /** What the staging folder holds after a successful extraction: the folder itself, as
      a well-formed tree, and every file member as a file. */
  lemma StagedFile(ms: seq<Member>, windows: bool, i: nat)
    requires Staging(ms, windows).ok
    requires i < |ms| && !IsDirMember(ms[i])
    ensures WellFormed(Staging(ms, windows).tree)
    ensures |Pieces(ms[i], windows)| > 0 && IsFileIn(Staging(ms, windows).tree, StageRoot + Pieces(ms[i], windows))
  {
    var t0: Tree := map[StageRoot := Dir];
    assert WellFormed(t0) by {
      assert Parent(StageRoot) == [];
    }
    ExecWellFormed(t0, {}, ExtractOps(ms, StageRoot, windows));
    ExecKeepsKinds(t0, {}, ExtractOps(ms, StageRoot, windows));
    ExtractedIsFile(t0, {}, ms, StageRoot, windows, i);
    assert StageRoot + [] == StageRoot;
  }

  /** After a successful `unzip_to` with overwrite, every file of the archive is in `dest`
      with the bytes extracted for it, at the place `shutil.copy2` picks (inside a directory
      of the same name when `dest` already had one there). */
  lemma UnzipToLands(t: Tree, locked: set<Path>, ms: seq<Member>, dest: Path, windows: bool, i: nat)
    requires Staging(ms, windows).ok
    requires Exec(t, locked, WalkOps(ms, dest, Staging(ms, windows).tree, windows)).ok
    requires i < |ms| && !IsDirMember(ms[i])
    ensures StageRoot + Pieces(ms[i], windows) in Staging(ms, windows).tree
    ensures CopyTarget(Exec(t, locked, WalkOps(ms, dest, Staging(ms, windows).tree, windows)).tree, dest + Pieces(ms[i], windows))
              in Exec(t, locked, WalkOps(ms, dest, Staging(ms, windows).tree, windows)).tree
    ensures Exec(t, locked, WalkOps(ms, dest, Staging(ms, windows).tree, windows)).tree[
              CopyTarget(Exec(t, locked, WalkOps(ms, dest, Staging(ms, windows).tree, windows)).tree, dest + Pieces(ms[i], windows))]
            == Staging(ms, windows).tree[StageRoot + Pieces(ms[i], windows)]
  {
    var st := Staging(ms, windows).tree;
    var p := Pieces(ms[i], windows);
    LaterCopiesAgree(ms, dest, windows, i);
    var f := WalkF(dest, st, windows);
    var data := st[StageRoot + p].data;
    var y := dest + p;
    assert f(ms[i]) == [MakeDirs(dest + Parent(p)), CopyInto(y, data)];
    OpsAround(ms, f, i);
    var b := OpsOf(ms[i + 1..], f);
    var a := [MakeDirs(dest)] + OpsOf(ms[..i], f) + [MakeDirs(dest + Parent(p))];
    Regroup([MakeDirs(dest)], OpsOf(ms[..i], f), f(ms[i]), b);
    assert y + [y[|y| - 1]] == dest + p + [Last(p)];
    LastCopyWins(t, locked, a, y, data, b);
  }

  /** Moving the split point between the two steps of a member. */
  lemma Regroup(h: seq<Op>, pre: seq<Op>, two: seq<Op>, post: seq<Op>)
    requires |two| == 2
    ensures h + (pre + two + post) == (h + pre + [two[0]]) + ([two[1]] + post)
  {
    assert two == [two[0]] + [two[1]];
  }

  /** The steps of an archive around member `i`. */
  lemma OpsAround(ms: seq<Member>, f: Member -> seq<Op>, i: nat)
    requires i < |ms|
    ensures OpsOf(ms, f) == OpsOf(ms[..i], f) + f(ms[i]) + OpsOf(ms[i + 1..], f)
  {
    assert ms == ms[..i + 1] + ms[i + 1..];
    OpsOfAppend(ms[..i + 1], ms[i + 1..], f);
    OpsOfSnoc(ms, f, i);
  }

  /** The copies made for members after `i` never land where member `i`'s copy went,
      unless they carry the same staged bytes. */
  lemma LaterCopiesAgree(ms: seq<Member>, dest: Path, windows: bool, i: nat)
    requires Staging(ms, windows).ok
    requires i < |ms| && !IsDirMember(ms[i])
    ensures |Pieces(ms[i], windows)| > 0 && IsFileIn(Staging(ms, windows).tree, StageRoot + Pieces(ms[i], windows))
    ensures forall op :: op in OpsOf(ms[i + 1..], WalkF(dest, Staging(ms, windows).tree, windows)) &&
                         (MayWrite(op, dest + Pieces(ms[i], windows)) ||
                          MayWrite(op, dest + Pieces(ms[i], windows) + [Last(Pieces(ms[i], windows))])) ==>
                         op.data == Staging(ms, windows).tree[StageRoot + Pieces(ms[i], windows)].data
  {
    var st := Staging(ms, windows).tree;
    var p := Pieces(ms[i], windows);
    StagedFile(ms, windows, i);
    var f := WalkF(dest, st, windows);
    forall op | op in OpsOf(ms[i + 1..], f) &&
                (MayWrite(op, dest + p) || MayWrite(op, dest + p + [Last(p)]))
      ensures op.data == st[StageRoot + p].data
    {
      OpsOfFrom(ms[i + 1..], f, op);
      var m :| m in ms[i + 1..] && op in f(m);
      WalkWrites(m, dest, st, windows, op);
      CopiesApart(st, dest, p, Pieces(m, windows), op.data);
    }
  }

  /** Entries of the disk that no archive file is copied onto are left as they were: files
      of `dest` the archive does not hold survive the merge. */
  lemma UnzipToLeavesOthers(t: Tree, locked: set<Path>, ms: seq<Member>, dest: Path, windows: bool, q: Path)
    requires Staging(ms, windows).ok
    requires Exec(t, locked, WalkOps(ms, dest, Staging(ms, windows).tree, windows)).ok
    requires q in t
    requires forall m :: m in ms && !IsDirMember(m) ==>
               q != dest + Pieces(m, windows) &&
               (|Pieces(m, windows)| == 0 || q != dest + Pieces(m, windows) + [Last(Pieces(m, windows))])
    ensures q in Exec(t, locked, WalkOps(ms, dest, Staging(ms, windows).tree, windows)).tree
    ensures Exec(t, locked, WalkOps(ms, dest, Staging(ms, windows).tree, windows)).tree[q] == t[q]
  {
    var st := Staging(ms, windows).tree;
    var f := WalkF(dest, st, windows);
    forall op | op in WalkOps(ms, dest, st, windows)
      ensures !MayWrite(op, q)
    {
      if op != MakeDirs(dest) {
        OpsOfFrom(ms, f, op);
        var m :| m in ms && op in f(m);
        WalkWrites(m, dest, st, windows, op);
      }
    }
    ExecKeeps(t, locked, WalkOps(ms, dest, st, windows), q);
  }

  /** Unzipping the same archive over its own result changes nothing more. */
  lemma UnzipToIdempotent(t: Tree, locked: set<Path>, ms: seq<Member>, dest: Path, windows: bool)
    requires Staging(ms, windows).ok
    requires Exec(t, locked, WalkOps(ms, dest, Staging(ms, windows).tree, windows)).ok
    ensures Exec(Exec(t, locked, WalkOps(ms, dest, Staging(ms, windows).tree, windows)).tree, locked,
                 WalkOps(ms, dest, Staging(ms, windows).tree, windows))
            == Exec(t, locked, WalkOps(ms, dest, Staging(ms, windows).tree, windows))
  {
    ExecIdempotent(t, locked, WalkOps(ms, dest, Staging(ms, windows).tree, windows));
  }

  // ---------------------------------------------------------------- updater 1.2: unzip_and_merge

  /** The names `os.listdir(p)` returns. */
  function Children(t: Tree, p: Path): set<string>
  {
    set q | q in t && |q| == |p| + 1 && q[..|p|] == p :: q[|p|]
  }

  /** Deleting an existing item the way the merge loop does: `shutil.rmtree` for a
      directory, `os.remove` otherwise. */
  function DropItem(t: Tree, locked: set<Path>, p: Path): Option<Tree>
  {
    if IsDirIn(t, p) then RemoveTreeF(t, locked, p) else RemoveF(t, locked, p)
  }

  /** How `os.listdir` orders a folder: `pick` names the item it lists first among the
      names there. The order is the file system's, so the model takes it as given. */
  ghost predicate Picks(pick: set<string> -> string)
  {
    forall s: set<string> :: s != {} ==> pick(s) in s
  }

  /** `unzip_and_merge(zip_path, extract_to)` of updater 1.2 as written. The archive is
      extracted into `extract_to`; then the folder the loop lists and the folder it moves
      into are the same path, `extract_to/resources`, so every listed item is its own
      target. The target exists, so it is deleted, and moving the deleted source then
      raises (`DroppedItemCannotMove`): the loop never gets past its first item, and the
      final `os.rmdir` is never reached. `os.listdir` of a file raises. */
  function UnzipAndMerge12F(t: Tree, locked: set<Path>, windows: bool, members: seq<Member>, extractTo: Path,
                            pick: set<string> -> string): Run
    requires Picks(pick)
  {
    var ex := Exec(t, locked, ExtractOps(members, extractTo, windows));
    var nested := extractTo + [ResourcesFolderName];
    if !ex.ok || nested !in ex.tree then ex
    else if ex.tree[nested].File? then Run(ex.tree, false)
    else
      var items := Children(ex.tree, nested);
      if items == {} then ex
      else
        match DropItem(ex.tree, locked, nested + [pick(items)])
        case None => Run(ex.tree, false)
        case Some(t1) => Run(t1, false)
  }

  /** Once an item is deleted, `shutil.move` of it onto itself raises and changes nothing. */
  lemma DroppedItemCannotMove(t: Tree, locked: set<Path>, windows: bool, p: Path)
    requires DropItem(t, locked, p).Some?
    ensures p !in DropItem(t, locked, p).value
    ensures var t1 := DropItem(t, locked, p).value;
            MoveF(t1, locked, windows, p, p) == Run(t1, false)
  {
  }

  /** The outcome of the 1.2 merge in its four cases: a failed extraction, no nested
      folder or an empty one (the merge succeeds with the extracted tree), a file in its
      place, and a folder with items, where the first listed item is deleted (when it
      can be) and the merge raises. */
  lemma UnzipAndMerge12Cases(t: Tree, locked: set<Path>, windows: bool, members: seq<Member>, extractTo: Path,
                             pick: set<string> -> string)
    requires Picks(pick)
    ensures var ex := Exec(t, locked, ExtractOps(members, extractTo, windows));
            var r := UnzipAndMerge12F(t, locked, windows, members, extractTo, pick);
            var nested := extractTo + [ResourcesFolderName];
            (!ex.ok ==> r == ex) &&
            (ex.ok && (nested !in ex.tree || (ex.tree[nested].Dir? && Children(ex.tree, nested) == {})) ==> r == ex) &&
            (ex.ok && IsFileIn(ex.tree, nested) ==> r == Run(ex.tree, false)) &&
            (ex.ok && IsDirIn(ex.tree, nested) && Children(ex.tree, nested) != {} ==>
               !r.ok && pick(Children(ex.tree, nested)) in Children(ex.tree, nested) &&
               (r.tree == ex.tree || r.tree == DropItem(ex.tree, locked, nested + [pick(Children(ex.tree, nested))]).value) &&
               (nested + [pick(Children(ex.tree, nested))] !in r.tree <==>
                 DropItem(ex.tree, locked, nested + [pick(Children(ex.tree, nested))]).Some?))
  {
    var ex := Exec(t, locked, ExtractOps(members, extractTo, windows));
    var nested := extractTo + [ResourcesFolderName];
    if ex.ok && IsDirIn(ex.tree, nested) && Children(ex.tree, nested) != {} {
      var c := pick(Children(ex.tree, nested));
      assert c in Children(ex.tree, nested);
      assert nested + [c] in ex.tree by {
        var w :| w in ex.tree && |w| == |nested| + 1 && w[..|nested|] == nested && w[|nested|] == c;
        assert w == nested + [c];
      }
      if DropItem(ex.tree, locked, nested + [c]).Some? {
        DroppedItemCannotMove(ex.tree, locked, windows, nested + [c]);
      }
    }
  }

  method UnzipAndMerge12(d: Disk, members: seq<Member>, extractTo: Path, pick: set<string> -> string) returns (ok: bool)
    requires Picks(pick)
    modifies d
    ensures Run(d.tree, ok) == UnzipAndMerge12F(old(d.tree), old(d.Held()), d.windows, members, extractTo, pick)
    ensures d.locks == old(d.locks)
  {
    ok := ApplyOps(d, ExtractOps(members, extractTo, d.windows));
    if !ok {
      return;
    }
    var nested := extractTo + [ResourcesFolderName];
    var final := extractTo + [ResourcesFolderName];
    if nested !in d.tree {
      return;
    }
    if d.tree[nested].File? {
      return false;
    }
    var items := Children(d.tree, nested);
    // `for item in os.listdir(nested_resources)`: the first item already ends the loop.
    if items != {} {
      var item := pick(items);
      var src, dst := nested + [item], final + [item];
      ghost var ex := d.tree;
      ghost var w :| w in ex && |w| == |nested| + 1 && w[..|nested|] == nested && w[|nested|] == item;
      assert w == dst;
      if IsDirIn(d.tree, dst) {
        ok := d.RemoveTree(dst);
      } else {
        ok := d.Remove(dst);
      }
      if !ok {
        return;
      }
      DroppedItemCannotMove(ex, d.Held(), d.windows, dst);
      ok := d.Move(src, dst);
      return;
    }
    ok := true;
  }

  /** Why the 1.2 merge fails on the archive it was written for: after extraction, a
      file member under "resources/" (extracted to `extract_to/resources/...`) makes the
      nested folder a directory with at least one item to list. */
  lemma NestedResourcesListed(t: Tree, locked: set<Path>, members: seq<Member>, extractTo: Path, windows: bool, i: nat)
    requires WellFormed(t)
    requires Exec(t, locked, ExtractOps(members, extractTo, windows)).ok
    requires i < |members| && !IsDirMember(members[i])
    requires |Pieces(members[i], windows)| >= 2 && Pieces(members[i], windows)[0] == ResourcesFolderName
    ensures IsDirIn(Exec(t, locked, ExtractOps(members, extractTo, windows)).tree, extractTo + [ResourcesFolderName])
    ensures Pieces(members[i], windows)[1] in Children(Exec(t, locked, ExtractOps(members, extractTo, windows)).tree, extractTo + [ResourcesFolderName])
  {
    var tn := Exec(t, locked, ExtractOps(members, extractTo, windows)).tree;
    var p := Pieces(members[i], windows);
    var x := extractTo + p;
    var nested := extractTo + [ResourcesFolderName];
    ExtractedIsFile(t, locked, members, extractTo, windows, i);
    ExecWellFormed(t, locked, ExtractOps(members, extractTo, windows));
    AncestorIn(tn, x, |extractTo| + 1);
    AncestorIn(tn, x, |extractTo| + 2);
    TwoLevelsDown(extractTo, p);
    var q := x[..|extractTo| + 2];
    assert q in tn && |q| == |nested| + 1 && q[..|nested|] == nested && q[|nested|] == p[1];
  }

  /** The first two levels below `base` on the way to `base + p`. */
  lemma TwoLevelsDown(base: Path, p: seq<string>)
    requires |p| >= 2
    ensures (base + p)[..|base| + 1] == base + [p[0]]
    ensures (base + p)[..|base| + 2] == base + [p[0]] + [p[1]]
  {
    assert (base + p)[..|base| + 1] == base + p[..1];
    assert (base + p)[..|base| + 2] == base + p[..2];
  }

  /** The evidently intended 1.2 merge: the contents of the archive's "resources" folder
      end up directly in `extract_to`. It is the installer's per-member merge splitting
      names at '/'. */
  method UnzipAndMerge12Fixed(d: Disk, members: seq<Member>, extractTo: Path) returns (ok: bool)
    modifies d
    ensures Run(d.tree, ok) == Exec(old(d.tree), old(d.Held()), InstallerOps(members, extractTo, '/', d.windows))
    ensures d.locks == old(d.locks)
  {
    ok := InstallerUnzipAndMerge(d, members, extractTo, '/');
  }
}
