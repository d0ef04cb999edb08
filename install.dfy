/** The update sequences of the installer (update.py `run`) and of updater 1.2
    (`start_update`): download the updater, swap in a new modmanager.exe behind a backup,
    and merge resources.zip into the install folder. A download is given as the bytes the
    request returns, or `None` when it raises. */
module Install {

  import opened Common
  import opened Text
  import opened FileTree
  import opened Disk
  import opened Merge
  import Replace
  import Swap

  const ResourcesZipName: string := "resources.zip"
  const ExeSuffix: string := ".exe"
  const OldExeSuffix: string := "_old.exe"

  /** What the release offers: the updater, the new modmanager.exe and resources.zip as
      the three downloads return them, and the members of that archive. */
  datatype Release = Release(updater: Option<Bytes>, exe: Option<Bytes>, zip: Option<Bytes>, members: seq<Member>)

  datatype Status = NoPath | Failed | Finished

  datatype InstallRun = InstallRun(tree: Tree, status: Status)

  /** `download_file(url, dest)`: a request that raises leaves no file behind; otherwise
      the body is written to `dest`, which fails like any other write. */
  function FetchF(t: Tree, locked: set<Path>, dest: Path, body: Option<Bytes>): Option<Tree>
  {
    if body.None? then None else WriteFile(t, locked, dest, body.value)
  }

  method Fetch(d: Disk, dest: Path, body: Option<Bytes>) returns (ok: bool)
    modifies d
    ensures ok == FetchF(old(d.tree), old(d.Held()), dest, body).Some?
    ensures d.tree == if ok then FetchF(old(d.tree), old(d.Held()), dest, body).value else old(d.tree)
    ensures d.locks == old(d.locks)
  {
    if body.None? {
      return false;
    }
    ok := d.WriteBytes(dest, body.value);
  }

  // ------------------------------------------------------------- the backup name

  /** The installer's backup name as written: `modmanager_path.replace(".exe", "_old.exe")`
      rewrites the whole path string. Neither string holds a separator, so no occurrence
      spans two components, and the rewrite is the same on every component. */
  function BackupAsWritten(p: Path): (r: Path)
    ensures |r| == |p|
  {
    seq(|p|, i requires 0 <= i < |p| => ReplaceAll(p[i], ExeSuffix, OldExeSuffix))
  }

  /** The evidently intended backup name: ".exe" becomes "_old.exe" in the file name only,
      so the backup stays in the folder of the program. */
  function BackupOf(p: Path): (r: Path)
    requires |p| > 0
    ensures |r| == |p| && Parent(r) == Parent(p)
  {
    p[..|p| - 1] + [ReplaceAll(p[|p| - 1], ExeSuffix, OldExeSuffix)]
  }

  lemma ExeNameHasSuffix()
    ensures Contains(Replace.ModManagerExe, ExeSuffix)
  {
    assert Replace.ModManagerExe[10..14] == ExeSuffix;
    assert OccursAt(Replace.ModManagerExe, ExeSuffix, 10);
    ContainsIff(Replace.ModManagerExe, ExeSuffix);
  }

  /** The corrected backup of `dir/modmanager.exe` sits beside it under another name that
      is not update_new.exe either. */
  lemma BackupBeside(dir: Path)
    ensures var exe := dir + [Replace.ModManagerExe];
            Parent(BackupOf(exe)) == dir && BackupOf(exe) != exe &&
            BackupOf(exe) != dir + [Swap.UpdateNewExe] && BackupOf(exe) != dir + [ResourcesZipName]
  {
    var exe := dir + [Replace.ModManagerExe];
    ExeNameHasSuffix();
    ReplaceAllLonger(Replace.ModManagerExe, ExeSuffix, OldExeSuffix);
    assert BackupOf(exe)[|dir|] == ReplaceAll(Replace.ModManagerExe, ExeSuffix, OldExeSuffix);
    assert exe[|dir|] == Replace.ModManagerExe;
    assert (dir + [Swap.UpdateNewExe])[|dir|] == Swap.UpdateNewExe;
    assert (dir + [ResourcesZipName])[|dir|] == ResourcesZipName;
  }

  /** As written, a folder on the way whose name contains ".exe" is renamed as well: the
      backup lands in another folder, and when that folder does not exist the rename of
      modmanager.exe raises and the update stops with the old program still in place. */
  lemma BackupAsWrittenMisplaced(t: Tree, locked: set<Path>, windows: bool, dir: Path, k: nat, body: Option<Bytes>)
    requires k < |dir| && Contains(dir[k], ExeSuffix)
    requires dir + [Replace.ModManagerExe] in t
    requires !IsDirIn(t, Parent(BackupAsWritten(dir + [Replace.ModManagerExe])))
    ensures Parent(BackupAsWritten(dir + [Replace.ModManagerExe])) != dir
    ensures ReplaceExeF(t, locked, windows, dir + [Replace.ModManagerExe],
                        BackupAsWritten(dir + [Replace.ModManagerExe]), body, false) == Run(t, false)
  {
    var exe := dir + [Replace.ModManagerExe];
    var b := BackupAsWritten(exe);
    ReplaceAllLonger(dir[k], ExeSuffix, OldExeSuffix);
    assert exe[k] == dir[k];
    assert Parent(b)[k] == b[k] != dir[k];
  }

  // ------------------------------------------------------------- swapping modmanager.exe

  /** The new modmanager.exe behind a backup: when a program is installed it is renamed to
      `backup` (updater 1.2 first removes a backup left from before, the installer does
      not); then the new program is downloaded to its place and a backup that exists
      afterwards is removed. Every failure stops the sequence. */
  function ReplaceExeF(t: Tree, locked: set<Path>, windows: bool, exe: Path, backup: Path,
                       body: Option<Bytes>, clearFirst: bool): Run
  {
    var cleared :=
      if exe in t && clearFirst && backup in t then RemoveF(t, locked, backup) else Some(t);
    match cleared
    case None => Run(t, false)
    case Some(t1) =>
      match (if exe in t1 then RenameF(t1, locked, windows, exe, backup) else Some(t1))
      case None => Run(t1, false)
      case Some(t2) =>
        match FetchF(t2, locked, exe, body)
        case None => Run(t2, false)
        case Some(t3) =>
          if backup !in t3 then Run(t3, true)
          else
            match RemoveF(t3, locked, backup)
            case None => Run(t3, false)
            case Some(t4) => Run(t4, true)
  }

  method ReplaceExe(d: Disk, exe: Path, backup: Path, body: Option<Bytes>, clearFirst: bool) returns (ok: bool)
    modifies d
    ensures Run(d.tree, ok) == ReplaceExeF(old(d.tree), old(d.Held()), d.windows, exe, backup, body, clearFirst)
    ensures d.locks == old(d.locks)
  {
    if exe in d.tree && clearFirst && backup in d.tree {
      ok := d.Remove(backup);
      if !ok {
        return;
      }
    }
    if exe in d.tree {
      ok := d.Rename(exe, backup);
      if !ok {
        return;
      }
    }
    ok := Fetch(d, exe, body);
    if !ok {
      return;
    }
    if backup in d.tree {
      ok := d.Remove(backup);
    }
  }

  /** A successful swap leaves the new program at `exe`, no backup, and everything else as
      it was. */
  lemma ReplaceExeInstalls(t: Tree, locked: set<Path>, windows: bool, exe: Path, backup: Path,
                           body: Option<Bytes>, clearFirst: bool)
    requires exe != backup
    requires ReplaceExeF(t, locked, windows, exe, backup, body, clearFirst).ok
    ensures body.Some?
    ensures ReplaceExeF(t, locked, windows, exe, backup, body, clearFirst).tree == (t - {backup})[exe := File(body.value)]
  {
  }

  /** The swap goes through when the downloads succeed, the program's folder exists and
      holds the backup too, nothing involved is held or a directory, and a backup left
      from before is out of the way: removed first, replaced by the rename outside
      Windows, or absent. */
  lemma ReplaceExeSucceeds(t: Tree, locked: set<Path>, windows: bool, exe: Path, backup: Path,
                           body: Bytes, clearFirst: bool)
    requires |exe| > 0 && |backup| > 0 && exe != backup && Parent(backup) == Parent(exe) && IsDirIn(t, Parent(exe))
    requires !IsDirIn(t, exe) && !IsDirIn(t, backup) && exe !in locked && backup !in locked
    requires clearFirst || !windows || backup !in t
    ensures ReplaceExeF(t, locked, windows, exe, backup, Some(body), clearFirst).ok
  {
    assert |backup| > 0;
  }

  // ------------------------------------------------------------- the installer: run()

  /** Downloading the updater unless update_new.exe is already there, then swapping in the
      new modmanager.exe. */
  function PrepareF(t: Tree, locked: set<Path>, windows: bool, dir: Path, backup: Path, rel: Release): Run
  {
    var updateNew := dir + [Swap.UpdateNewExe];
    match (if updateNew in t then Some(t) else FetchF(t, locked, updateNew, rel.updater))
    case None => Run(t, false)
    case Some(t1) => ReplaceExeF(t1, locked, windows, dir + [Replace.ModManagerExe], backup, rel.exe, false)
  }

  /** Downloading resources.zip, creating the resources folder, merging the archive into
      it (splitting member names at `sep`) and removing the archive. */
  function ResourcesF(t: Tree, locked: set<Path>, windows: bool, dir: Path, sep: char, rel: Release): Run
  {
    var zip := dir + [ResourcesZipName];
    match FetchF(t, locked, zip, rel.zip)
    case None => Run(t, false)
    case Some(t1) =>
      match MkDirs(t1, dir + [ResourcesFolderName])
      case None => Run(t1, false)
      case Some(t2) =>
        var m := Exec(t2, locked, InstallerOps(rel.members, dir + [ResourcesFolderName], sep, windows));
        if !m.ok then m
        else
          match RemoveF(m.tree, locked, zip)
          case None => Run(m.tree, false)
          case Some(t3) => Run(t3, true)
  }

  /** `run()` with the chosen folder (`None` when none is chosen), the separator its merge
      splits at and the backup name it uses: no folder stops before any change; otherwise
      the folder is created, the updater and the program are downloaded, the resources
      merged, and the new program launched. An exception ends the run where it occurred. */
  function InstallerSteps(t: Tree, locked: set<Path>, windows: bool, dir: Option<Path>, sep: char, backup: Path,
                          rel: Release): InstallRun
  {
    if dir.None? then InstallRun(t, NoPath)
    else
      match MkDirs(t, dir.value)
      case None => InstallRun(t, Failed)
      case Some(t1) =>
        var r := PrepareF(t1, locked, windows, dir.value, backup, rel);
        if !r.ok then InstallRun(r.tree, Failed)
        else
          var s := ResourcesF(r.tree, locked, windows, dir.value, sep, rel);
          InstallRun(s.tree, if s.ok && IsFileIn(s.tree, dir.value + [Replace.ModManagerExe]) then Finished else Failed)
  }

  /** The installer's `run()` as written: the merge splits member names at `os.sep`, and
      the backup name rewrites ".exe" across the whole path. */
  function InstallerRunF(t: Tree, locked: set<Path>, windows: bool, dir: Option<Path>, rel: Release): InstallRun
  {
    InstallerSteps(t, locked, windows, dir, OsSep(windows),
                   if dir.Some? then BackupAsWritten(dir.value + [Replace.ModManagerExe]) else [], rel)
  }

  /** The corrected `run()`: member names split at '/', the backup kept beside
      modmanager.exe. */
  function InstallerRunFixedF(t: Tree, locked: set<Path>, windows: bool, dir: Option<Path>, rel: Release): InstallRun
  {
    InstallerSteps(t, locked, windows, dir, '/',
                   if dir.Some? then BackupOf(dir.value + [Replace.ModManagerExe]) else [], rel)
  }

  method InstallerRun(d: Disk, dir: Option<Path>, rel: Release) returns (status: Status)
    modifies d
    ensures InstallRun(d.tree, status) == InstallerRunF(old(d.tree), old(d.Held()), d.windows, dir, rel)
    ensures d.locks == old(d.locks)
  {
    if dir.None? {
      return NoPath;
    }
    var p := dir.value;
    var ok := d.MakeDirs(p);
    if !ok {
      return Failed;
    }
    var updateNew := p + [Swap.UpdateNewExe];
    if updateNew !in d.tree {
      ok := Fetch(d, updateNew, rel.updater);
      if !ok {
        return Failed;
      }
    }
    ok := ReplaceExe(d, p + [Replace.ModManagerExe], BackupAsWritten(p + [Replace.ModManagerExe]), rel.exe, false);
    if !ok {
      return Failed;
    }
    ok := InstallResources(d, p, rel);
    status := if ok && IsFileIn(d.tree, p + [Replace.ModManagerExe]) then Finished else Failed;
  }

  method InstallResources(d: Disk, dir: Path, rel: Release) returns (ok: bool)
    modifies d
    ensures Run(d.tree, ok) == ResourcesF(old(d.tree), old(d.Held()), d.windows, dir, OsSep(d.windows), rel)
    ensures d.locks == old(d.locks)
  {
    var zip := dir + [ResourcesZipName];
    ok := Fetch(d, zip, rel.zip);
    if !ok {
      return;
    }
    ok := d.MakeDirs(dir + [ResourcesFolderName]);
    if !ok {
      return;
    }
    ok := InstallerUnzipAndMerge(d, rel.members, dir + [ResourcesFolderName], OsSep(d.windows));
    if !ok {
      return;
    }
    ok := d.Remove(zip);
  }

  /** Without a chosen folder nothing is touched. */
  lemma InstallerNoPath(t: Tree, locked: set<Path>, windows: bool, rel: Release)
    ensures InstallerRunF(t, locked, windows, None, rel) == InstallRun(t, NoPath)
  {
  }

  /** The as-written backup of `dir/modmanager.exe` is neither the program, nor
      update_new.exe, nor resources.zip: its last component is longer than each of them. */
  lemma BackupAsWrittenApart(dir: Path)
    ensures var exe := dir + [Replace.ModManagerExe];
            BackupAsWritten(exe) != exe && BackupAsWritten(exe) != dir + [Swap.UpdateNewExe] &&
            BackupAsWritten(exe) != dir + [ResourcesZipName]
  {
    var exe := dir + [Replace.ModManagerExe];
    ExeNameHasSuffix();
    ReplaceAllLonger(Replace.ModManagerExe, ExeSuffix, OldExeSuffix);
    assert BackupAsWritten(exe)[|dir|] == ReplaceAll(Replace.ModManagerExe, ExeSuffix, OldExeSuffix);
    assert exe[|dir|] == Replace.ModManagerExe;
    assert (dir + [Swap.UpdateNewExe])[|dir|] == Swap.UpdateNewExe;
    assert (dir + [ResourcesZipName])[|dir|] == ResourcesZipName;
  }

  /** When no folder on the way has ".exe" in its name and the system is not Windows,
      the run as written and the corrected run are the same. */
  lemma InstallerRunAgreesOffWindows(t: Tree, locked: set<Path>, dir: Path, rel: Release)
    requires forall k :: 0 <= k < |dir| ==> !Contains(dir[k], ExeSuffix)
    ensures InstallerRunF(t, locked, false, Some(dir), rel) == InstallerRunFixedF(t, locked, false, Some(dir), rel)
  {
    var exe := dir + [Replace.ModManagerExe];
    forall k | 0 <= k < |dir|
      ensures BackupAsWritten(exe)[k] == exe[k]
    {
      ReplaceAllAbsent(dir[k], ExeSuffix, OldExeSuffix);
    }
    assert BackupAsWritten(exe) == BackupOf(exe);
  }

  /** Before the resources, a successful run has the new program at modmanager.exe, no
      backup under the name the run uses, an update_new.exe that is the one found there or
      else the downloaded updater, and nothing else changed. */
  lemma PrepareInstalls(t: Tree, locked: set<Path>, windows: bool, dir: Path, rel: Release)
    requires PrepareF(t, locked, windows, dir, BackupAsWritten(dir + [Replace.ModManagerExe]), rel).ok
    ensures var exe, updateNew := dir + [Replace.ModManagerExe], dir + [Swap.UpdateNewExe];
            var tn := PrepareF(t, locked, windows, dir, BackupAsWritten(exe), rel).tree;
            rel.exe.Some? && exe in tn && tn[exe] == File(rel.exe.value) &&
            BackupAsWritten(exe) !in tn && updateNew in tn &&
            (updateNew in t ==> tn[updateNew] == t[updateNew]) &&
            (updateNew !in t ==> rel.updater.Some? && tn[updateNew] == File(rel.updater.value)) &&
            forall q :: q != exe && q != BackupAsWritten(exe) && q != updateNew ==> Keeps(t, tn, q)
  {
    var exe, updateNew := dir + [Replace.ModManagerExe], dir + [Swap.UpdateNewExe];
    BackupAsWrittenApart(dir);
    ProgramsApart(dir);
    PrepareInstallsAt(t, locked, windows, exe, updateNew, dir, BackupAsWritten(exe), rel);
  }

  /** modmanager.exe, update_new.exe and resources.zip are three different paths. */
  lemma ProgramsApart(dir: Path)
    ensures var exe := dir + [Replace.ModManagerExe];
            exe != dir + [Swap.UpdateNewExe] && exe != dir + [ResourcesZipName] &&
            dir + [Swap.UpdateNewExe] != dir + [ResourcesZipName]
  {
    var exe := dir + [Replace.ModManagerExe];
    assert exe[|dir|] == Replace.ModManagerExe && (dir + [Swap.UpdateNewExe])[|dir|] == Swap.UpdateNewExe;
    assert (dir + [ResourcesZipName])[|dir|] == ResourcesZipName;
    assert Replace.ModManagerExe[0] == 'm' && Swap.UpdateNewExe[0] == 'u' && ResourcesZipName[0] == 'r';
  }

  /** `PrepareInstalls` for any backup name apart from the two programs. */
  lemma PrepareInstallsAt(t: Tree, locked: set<Path>, windows: bool, exe: Path, updateNew: Path, dir: Path,
                          backup: Path, rel: Release)
    requires exe == dir + [Replace.ModManagerExe] && updateNew == dir + [Swap.UpdateNewExe]
    requires exe != updateNew && backup != exe && backup != updateNew
    requires PrepareF(t, locked, windows, dir, backup, rel).ok
    ensures var tn := PrepareF(t, locked, windows, dir, backup, rel).tree;
            rel.exe.Some? && exe in tn && tn[exe] == File(rel.exe.value) &&
            backup !in tn && updateNew in tn &&
            (updateNew in t ==> tn[updateNew] == t[updateNew]) &&
            (updateNew !in t ==> rel.updater.Some? && tn[updateNew] == File(rel.updater.value)) &&
            forall q :: q != exe && q != backup && q != updateNew ==> Keeps(t, tn, q)
  {
    var t1 := if updateNew in t then t else FetchF(t, locked, updateNew, rel.updater).value;
    ReplaceExeInstalls(t1, locked, windows, exe, backup, rel.exe, false);
  }

  /** The merge and the removal of the archive, whatever separator the merge splits at:
      resources.zip is gone, and an entry no file member of the archive is aimed at keeps
      its content. */
  lemma ResourcesLeaveOthers(t: Tree, locked: set<Path>, windows: bool, dir: Path, sep: char, rel: Release, q: Path)
    requires ResourcesF(t, locked, windows, dir, sep, rel).ok
    requires q in t && q != dir + [ResourcesZipName]
    requires forall m :: m in rel.members && !IsDirMember(m) ==> InstallerTarget(m.name, dir + [ResourcesFolderName], sep, windows) != q
    ensures dir + [ResourcesZipName] !in ResourcesF(t, locked, windows, dir, sep, rel).tree
    ensures q in ResourcesF(t, locked, windows, dir, sep, rel).tree && ResourcesF(t, locked, windows, dir, sep, rel).tree[q] == t[q]
  {
    var zip, res := dir + [ResourcesZipName], dir + [ResourcesFolderName];
    var t1 := FetchF(t, locked, zip, rel.zip).value;
    var t2 := MkDirs(t1, res).value;
    assert q in t2 && t2[q] == t[q] by {
      assert q in t1 && t1[q] == t[q];
      if q in Prefixes(res) {
        assert !IsFileIn(t1, q);
      }
    }
    InstallerLeavesOthers(t2, locked, rel.members, res, sep, windows, q);
  }

  /** A finished run, with any separator and any backup name apart from the programs,
      leaves the downloaded program at modmanager.exe and no resources.zip, unless a
      member of the archive is itself aimed at modmanager.exe. */
  lemma InstallerFinishesWith(t: Tree, locked: set<Path>, windows: bool, dir: Path, sep: char, backup: Path, rel: Release)
    requires backup != dir + [Replace.ModManagerExe] && backup != dir + [Swap.UpdateNewExe]
    requires InstallerSteps(t, locked, windows, Some(dir), sep, backup, rel).status == Finished
    requires forall m :: m in rel.members && !IsDirMember(m) ==>
               InstallerTarget(m.name, dir + [ResourcesFolderName], sep, windows) != dir + [Replace.ModManagerExe]
    ensures var tn := InstallerSteps(t, locked, windows, Some(dir), sep, backup, rel).tree;
            rel.exe.Some? && dir + [Replace.ModManagerExe] in tn && tn[dir + [Replace.ModManagerExe]] == File(rel.exe.value) &&
            dir + [ResourcesZipName] !in tn
  {
    var exe := dir + [Replace.ModManagerExe];
    var t1 := MkDirs(t, dir).value;
    var r := PrepareF(t1, locked, windows, dir, backup, rel);
    ProgramsApart(dir);
    PrepareInstallsAt(t1, locked, windows, exe, dir + [Swap.UpdateNewExe], dir, backup, rel);
    ResourcesLeaveOthers(r.tree, locked, windows, dir, sep, rel, exe);
  }

  /** A finished run as written leaves the downloaded program at modmanager.exe and no
      resources.zip, unless a member of the archive, split at `os.sep`, is itself aimed at
      modmanager.exe. */
  lemma InstallerFinishes(t: Tree, locked: set<Path>, windows: bool, dir: Path, rel: Release)
    requires InstallerRunF(t, locked, windows, Some(dir), rel).status == Finished
    requires forall m :: m in rel.members && !IsDirMember(m) ==>
               InstallerTarget(m.name, dir + [ResourcesFolderName], OsSep(windows), windows) != dir + [Replace.ModManagerExe]
    ensures var tn := InstallerRunF(t, locked, windows, Some(dir), rel).tree;
            rel.exe.Some? && dir + [Replace.ModManagerExe] in tn && tn[dir + [Replace.ModManagerExe]] == File(rel.exe.value) &&
            dir + [ResourcesZipName] !in tn
  {
    BackupAsWrittenApart(dir);
    InstallerFinishesWith(t, locked, windows, dir, OsSep(windows), BackupAsWritten(dir + [Replace.ModManagerExe]), rel);
  }

  /** The same for the corrected run. */
  lemma InstallerFinishesFixed(t: Tree, locked: set<Path>, windows: bool, dir: Path, rel: Release)
    requires InstallerRunFixedF(t, locked, windows, Some(dir), rel).status == Finished
    requires forall m :: m in rel.members && !IsDirMember(m) ==>
               InstallerTarget(m.name, dir + [ResourcesFolderName], '/', windows) != dir + [Replace.ModManagerExe]
    ensures var tn := InstallerRunFixedF(t, locked, windows, Some(dir), rel).tree;
            rel.exe.Some? && dir + [Replace.ModManagerExe] in tn && tn[dir + [Replace.ModManagerExe]] == File(rel.exe.value) &&
            dir + [ResourcesZipName] !in tn
  {
    BackupBeside(dir);
    InstallerFinishesWith(t, locked, windows, dir, '/', BackupOf(dir + [Replace.ModManagerExe]), rel);
  }

  /** The intended property of the corrected backup name: whatever the folder is called,
      the swap of modmanager.exe goes through once the program is no longer held. */
  lemma BackupOfSwapSucceeds(t: Tree, locked: set<Path>, windows: bool, dir: Path, body: Bytes)
    requires IsDirIn(t, dir)
    requires var exe := dir + [Replace.ModManagerExe];
             !IsDirIn(t, exe) && !IsDirIn(t, BackupOf(exe)) && exe !in locked && BackupOf(exe) !in locked &&
             (!windows || BackupOf(exe) !in t)
    ensures ReplaceExeF(t, locked, windows, dir + [Replace.ModManagerExe],
                        BackupOf(dir + [Replace.ModManagerExe]), Some(body), false).ok
  {
    var exe := dir + [Replace.ModManagerExe];
    BackupBeside(dir);
    ReplaceExeSucceeds(t, locked, windows, exe, BackupOf(exe), body, false);
  }

  // ------------------------------------------------------------- updater 1.2: start_update()

  const OldExeName: string := "modmanager_old.exe"

  /** The resources step of updater 1.2 as written: download resources.zip, run the 1.2
      merge with `extract_to` the resources folder, and remove the archive. */
  function Resources12F(t: Tree, locked: set<Path>, windows: bool, dir: Path, rel: Release,
                        pick: set<string> -> string): Run
    requires Picks(pick)
  {
    var zip := dir + [ResourcesZipName];
    match FetchF(t, locked, zip, rel.zip)
    case None => Run(t, false)
    case Some(t1) =>
      var m := UnzipAndMerge12F(t1, locked, windows, rel.members, dir + [ResourcesFolderName], pick);
      if !m.ok then m
      else
        match RemoveF(m.tree, locked, zip)
        case None => Run(m.tree, false)
        case Some(t2) => Run(t2, true)
  }

  /** The corrected resources step: the merge strips the archive's "resources" folder. */
  function Resources12FixedF(t: Tree, locked: set<Path>, windows: bool, dir: Path, rel: Release): Run
  {
    var zip := dir + [ResourcesZipName];
    match FetchF(t, locked, zip, rel.zip)
    case None => Run(t, false)
    case Some(t1) =>
      var m := Exec(t1, locked, InstallerOps(rel.members, dir + [ResourcesFolderName], '/', windows));
      if !m.ok then m
      else
        match RemoveF(m.tree, locked, zip)
        case None => Run(m.tree, false)
        case Some(t2) => Run(t2, true)
  }

  /** What `start_update()` does after the resources step `m`: unless that raised, the new
      modmanager.exe behind modmanager_old.exe, removing an old backup first; then the
      updater unless update_new.exe is there; then the program is launched. */
  function AfterResources12F(m: Run, locked: set<Path>, windows: bool, p: Path, rel: Release): InstallRun
  {
    var exe, updateNew := p + [Replace.ModManagerExe], p + [Swap.UpdateNewExe];
    if !m.ok then InstallRun(m.tree, Failed)
    else
      var r := ReplaceExeF(m.tree, locked, windows, exe, p + [OldExeName], rel.exe, true);
      if !r.ok then InstallRun(r.tree, Failed)
      else
        match (if updateNew in r.tree then Some(r.tree) else FetchF(r.tree, locked, updateNew, rel.updater))
        case None => InstallRun(r.tree, Failed)
        case Some(t2) => InstallRun(t2, if IsFileIn(t2, exe) then Finished else Failed)
  }

  /** `start_update()` of updater 1.2 as written: the resources first, with the 1.2 merge;
      then the program and the updater. */
  function StartUpdate12F(t: Tree, locked: set<Path>, windows: bool, dir: Option<Path>, rel: Release,
                          pick: set<string> -> string): InstallRun
    requires Picks(pick)
  {
    if dir.None? then InstallRun(t, NoPath)
    else
      match MkDirs(t, dir.value)
      case None => InstallRun(t, Failed)
      case Some(t1) => AfterResources12F(Resources12F(t1, locked, windows, dir.value, rel, pick), locked, windows, dir.value, rel)
  }

  /** `start_update()` with the corrected merge. */
  function StartUpdate12FixedF(t: Tree, locked: set<Path>, windows: bool, dir: Option<Path>, rel: Release): InstallRun
  {
    if dir.None? then InstallRun(t, NoPath)
    else
      match MkDirs(t, dir.value)
      case None => InstallRun(t, Failed)
      case Some(t1) => AfterResources12F(Resources12FixedF(t1, locked, windows, dir.value, rel), locked, windows, dir.value, rel)
  }

  method InstallResources12(d: Disk, dir: Path, rel: Release, pick: set<string> -> string) returns (ok: bool)
    requires Picks(pick)
    modifies d
    ensures Run(d.tree, ok) == Resources12F(old(d.tree), old(d.Held()), d.windows, dir, rel, pick)
    ensures d.locks == old(d.locks)
  {
    var zip := dir + [ResourcesZipName];
    ok := Fetch(d, zip, rel.zip);
    if !ok {
      return;
    }
    ok := UnzipAndMerge12(d, rel.members, dir + [ResourcesFolderName], pick);
    if !ok {
      return;
    }
    ok := d.Remove(zip);
  }

  method StartUpdate12(d: Disk, dir: Option<Path>, rel: Release, pick: set<string> -> string) returns (status: Status)
    requires Picks(pick)
    modifies d
    ensures InstallRun(d.tree, status) == StartUpdate12F(old(d.tree), old(d.Held()), d.windows, dir, rel, pick)
    ensures d.locks == old(d.locks)
  {
    if dir.None? {
      return NoPath;
    }
    var p := dir.value;
    var ok := d.MakeDirs(p);
    if !ok {
      return Failed;
    }
    ok := InstallResources12(d, p, rel, pick);
    if !ok {
      return Failed;
    }
    ok := ReplaceExe(d, p + [Replace.ModManagerExe], p + [OldExeName], rel.exe, true);
    if !ok {
      return Failed;
    }
    var updateNew := p + [Swap.UpdateNewExe];
    if updateNew !in d.tree {
      ok := Fetch(d, updateNew, rel.updater);
      if !ok {
        return Failed;
      }
    }
    status := if IsFileIn(d.tree, p + [Replace.ModManagerExe]) then Finished else Failed;
  }

  lemma Names12Differ(p: Path)
    ensures var exe, bak, updateNew, zip := p + [Replace.ModManagerExe], p + [OldExeName], p + [Swap.UpdateNewExe], p + [ResourcesZipName];
            exe != bak && exe != updateNew && exe != zip && bak != updateNew && bak != zip && updateNew != zip
  {
    var n := |p|;
    assert (p + [Replace.ModManagerExe])[n] == Replace.ModManagerExe && (p + [OldExeName])[n] == OldExeName;
    assert (p + [Swap.UpdateNewExe])[n] == Swap.UpdateNewExe && (p + [ResourcesZipName])[n] == ResourcesZipName;
    assert Replace.ModManagerExe[0] == 'm' && OldExeName[0] == 'm' && Swap.UpdateNewExe[0] == 'u' && ResourcesZipName[0] == 'r';
    assert |Replace.ModManagerExe| == 14 && |OldExeName| == 18;
  }

  /** After a resources step that got through and left no resources.zip, a finished
      update leaves the downloaded program at modmanager.exe, neither modmanager_old.exe
      nor resources.zip, and an update_new.exe. */
  lemma AfterResources12Installs(m: Run, locked: set<Path>, windows: bool, dir: Path, rel: Release)
    requires m.ok && dir + [ResourcesZipName] !in m.tree
    requires AfterResources12F(m, locked, windows, dir, rel).status == Finished
    ensures var tn := AfterResources12F(m, locked, windows, dir, rel).tree;
            var exe := dir + [Replace.ModManagerExe];
            rel.exe.Some? && exe in tn && tn[exe] == File(rel.exe.value) &&
            dir + [OldExeName] !in tn && dir + [ResourcesZipName] !in tn && dir + [Swap.UpdateNewExe] in tn
  {
    var exe, bak, updateNew, zip := dir + [Replace.ModManagerExe], dir + [OldExeName], dir + [Swap.UpdateNewExe], dir + [ResourcesZipName];
    Names12Differ(dir);
    assert ReplaceExeF(m.tree, locked, windows, exe, bak, rel.exe, true).ok;
    ReplaceExeInstalls(m.tree, locked, windows, exe, bak, rel.exe, true);
    var u := (m.tree - {bak})[exe := File(rel.exe.value)];
    assert zip !in u && bak !in u && exe in u && u[exe] == File(rel.exe.value);
    var t2 := if updateNew in u then u else FetchF(u, locked, updateNew, rel.updater).value;
    assert AfterResources12F(m, locked, windows, dir, rel).tree == t2;
  }

  /** A finished 1.2 update as written leaves the downloaded program at modmanager.exe,
      neither modmanager_old.exe nor resources.zip, and an update_new.exe. */
  lemma StartUpdate12Installs(t: Tree, locked: set<Path>, windows: bool, dir: Path, rel: Release,
                              pick: set<string> -> string)
    requires Picks(pick)
    requires StartUpdate12F(t, locked, windows, Some(dir), rel, pick).status == Finished
    ensures var tn := StartUpdate12F(t, locked, windows, Some(dir), rel, pick).tree;
            var exe := dir + [Replace.ModManagerExe];
            rel.exe.Some? && exe in tn && tn[exe] == File(rel.exe.value) &&
            dir + [OldExeName] !in tn && dir + [ResourcesZipName] !in tn && dir + [Swap.UpdateNewExe] in tn
  {
    var t1 := MkDirs(t, dir).value;
    AfterResources12Installs(Resources12F(t1, locked, windows, dir, rel, pick), locked, windows, dir, rel);
  }

  /** The same for the corrected update. */
  lemma StartUpdate12FixedInstalls(t: Tree, locked: set<Path>, windows: bool, dir: Path, rel: Release)
    requires StartUpdate12FixedF(t, locked, windows, Some(dir), rel).status == Finished
    ensures var tn := StartUpdate12FixedF(t, locked, windows, Some(dir), rel).tree;
            var exe := dir + [Replace.ModManagerExe];
            rel.exe.Some? && exe in tn && tn[exe] == File(rel.exe.value) &&
            dir + [OldExeName] !in tn && dir + [ResourcesZipName] !in tn && dir + [Swap.UpdateNewExe] in tn
  {
    var t1 := MkDirs(t, dir).value;
    AfterResources12Installs(Resources12FixedF(t1, locked, windows, dir, rel), locked, windows, dir, rel);
  }

  /** As written, updater 1.2 never finishes on an archive with a file under "resources/":
      the merge raises, so modmanager.exe is never swapped. */
  lemma StartUpdate12NeverFinishes(t: Tree, locked: set<Path>, windows: bool, dir: Path, rel: Release,
                                   pick: set<string> -> string, i: nat)
    requires Picks(pick) && WellFormed(t)
    requires i < |rel.members| && !IsDirMember(rel.members[i])
    requires |Pieces(rel.members[i], windows)| >= 2 && Pieces(rel.members[i], windows)[0] == ResourcesFolderName
    ensures StartUpdate12F(t, locked, windows, Some(dir), rel, pick).status == Failed
  {
    var zip, res := dir + [ResourcesZipName], dir + [ResourcesFolderName];
    if MkDirs(t, dir).Some? {
      var t1 := MkDirs(t, dir).value;
      assert Exec(t, locked, [MakeDirs(dir)]).tree == t1;
      ExecWellFormed(t, locked, [MakeDirs(dir)]);
      if FetchF(t1, locked, zip, rel.zip).Some? {
        var t2 := FetchF(t1, locked, zip, rel.zip).value;
        assert Exec(t1, locked, [Write(zip, rel.zip.value)]).tree == t2;
        ExecWellFormed(t1, locked, [Write(zip, rel.zip.value)]);
        var ex := Exec(t2, locked, ExtractOps(rel.members, res, windows));
        if ex.ok {
          NestedResourcesListed(t2, locked, rel.members, res, windows, i);
          UnzipAndMerge12Cases(t2, locked, windows, rel.members, res, pick);
        }
      }
    }
  }

  /** Unlike the 1.0.2 mod manager, updater 1.2 is not blocked by a backup left from
      before: it removes modmanager_old.exe before renaming onto it. */
  lemma StartUpdate12ClearsOldBackup(t: Tree, locked: set<Path>, dir: Path, body: Bytes)
    requires IsDirIn(t, dir)
    requires var exe, bak := dir + [Replace.ModManagerExe], dir + [OldExeName];
             IsFileIn(t, exe) && IsFileIn(t, bak) && exe !in locked && bak !in locked
    ensures ReplaceExeF(t, locked, true, dir + [Replace.ModManagerExe], dir + [OldExeName], Some(body), true).ok
  {
    Names12Differ(dir);
    ReplaceExeSucceeds(t, locked, true, dir + [Replace.ModManagerExe], dir + [OldExeName], body, true);
  }
}
