/** Swapping in a new executable by renames: the `do_swap` of the 1.0.9 mod manager for
    its updater, the standalone wait-then-swap updater 1.0, and `update_exe` of the 1.0.2
    mod manager. A running program is a file some process holds: it can be neither
    removed, renamed nor overwritten until that process lets go. */
module Swap {

  import opened Common
  import opened FileTree
  import opened Disk
  import opened Replace

  // ------------------------------------------------------------- do_swap (1.0.9)

  const UpdateExe: string := "update.exe"
  const UpdateNewExe: string := "update_new.exe"
  const UpdateOldExe: string := "update_old.exe"

  datatype SwapStatus = Installed | NothingToInstall | SwapFailed

  datatype SwapRun = SwapRun(tree: Tree, status: SwapStatus)

  /** `do_swap()` in the folder `base`: an existing update.exe is removed, or else renamed
      to update_old.exe, and a failure of both is only reported; then update_new.exe, when
      there is one, is renamed to update.exe, and a failure of that is reported too. */
  function DoSwapF(t: Tree, locked: set<Path>, windows: bool, base: Path): SwapRun
  {
    var update := base + [UpdateExe];
    var updateNew := base + [UpdateNewExe];
    var t1 :=
      if update !in t then t
      else
        match RemoveF(t, locked, update)
        case Some(u) => u
        case None =>
          match RenameF(t, locked, windows, update, base + [UpdateOldExe])
          case Some(u) => u
          case None => t;
    if updateNew !in t1 then SwapRun(t1, NothingToInstall)
    else
      match RenameF(t1, locked, windows, updateNew, update)
      case Some(t2) => SwapRun(t2, Installed)
      case None => SwapRun(t1, SwapFailed)
  }

  method DoSwap(d: Disk, base: Path) returns (status: SwapStatus)
    modifies d
    ensures SwapRun(d.tree, status) == DoSwapF(old(d.tree), old(d.Held()), d.windows, base)
    ensures d.locks == old(d.locks)
  {
    var update := base + [UpdateExe];
    var updateNew := base + [UpdateNewExe];
    var present := d.Exists(update);
    if present {
      var removed := d.Remove(update);
      if !removed {
        var _ := d.Rename(update, base + [UpdateOldExe]);
      }
    }
    present := d.Exists(updateNew);
    if !present {
      return NothingToInstall;
    }
    var renamed := d.Rename(updateNew, update);
    status := if renamed then Installed else SwapFailed;
  }

  lemma SwapNamesDiffer()
    ensures UpdateExe != UpdateNewExe && UpdateExe != UpdateOldExe && UpdateNewExe != UpdateOldExe
  {
    assert UpdateExe[6] == '.' && UpdateNewExe[6] == '_' && UpdateOldExe[6] == '_';
    assert UpdateNewExe[7] == 'n' && UpdateOldExe[7] == 'o';
  }

  /** After a successful swap update.exe holds what update_new.exe held, update_new.exe
      is gone, and apart from update_old.exe nothing else changed. */
  lemma DoSwapInstalls(t: Tree, locked: set<Path>, windows: bool, base: Path)
    requires DoSwapF(t, locked, windows, base).status == Installed
    ensures var tn := DoSwapF(t, locked, windows, base).tree;
            IsFileIn(t, base + [UpdateNewExe]) &&
            base + [UpdateExe] in tn && tn[base + [UpdateExe]] == t[base + [UpdateNewExe]] &&
            base + [UpdateNewExe] !in tn &&
            forall q :: q != base + [UpdateExe] && q != base + [UpdateNewExe] && q != base + [UpdateOldExe] ==> Keeps(t, tn, q)
  {
    SwapNamesDiffer();
    assert base + [UpdateExe] != base + [UpdateNewExe] && base + [UpdateNewExe] != base + [UpdateOldExe] by {
      var n := |base|;
      assert (base + [UpdateExe])[n] == UpdateExe && (base + [UpdateNewExe])[n] == UpdateNewExe;
      assert (base + [UpdateOldExe])[n] == UpdateOldExe;
    }
  }

  /** Without update_new.exe the swap installs nothing, yet update.exe is already gone
      afterwards exactly when it was a file no process held. */
  lemma DoSwapWithoutNew(t: Tree, locked: set<Path>, windows: bool, base: Path)
    requires base + [UpdateNewExe] !in t
    ensures DoSwapF(t, locked, windows, base).status == NothingToInstall
    ensures var update := base + [UpdateExe];
            update !in DoSwapF(t, locked, windows, base).tree <==>
            update !in t || (IsFileIn(t, update) && update !in locked)
  {
    SwapNamesDiffer();
    var update := base + [UpdateExe];
    var updateNew := base + [UpdateNewExe];
    var updateOld := base + [UpdateOldExe];
    var n := |base|;
    assert update[n] == UpdateExe && updateNew[n] == UpdateNewExe && updateOld[n] == UpdateOldExe;
  }

  // ------------------------------------------------- the standalone updater 1.0 (main)

  const ModManagerNewExe: string := "modmanager_new.exe"

  /** How updater 1.0 ends: its exit status, 0 after launching Mod-Manager. */
  datatype Exit = Exit(tree: Tree, code: int)

  /** `is_file_locked(p)`, by renaming `p` onto itself. */
  method ProbeLocked(d: Disk, p: Path) returns (locked: bool)
    requires p != []
    modifies d
    ensures locked == IsFileLocked(old(d.tree), old(d.Held()), d.windows, p)
    ensures d.tree == old(d.tree) && d.locks == old(d.locks)
  {
    var present := d.Exists(p);
    if !present {
      return false;
    }
    var renamed := d.Rename(p, p);
    locked := !renamed;
  }

  /** `while os.path.exists(p) and is_file_locked(p): time.sleep(0.5)`: the loop ends
      because the process holding `p` lets go as time passes. */
  method WaitWhileLocked(d: Disk, p: Path) returns (sleeps: nat)
    requires p != []
    modifies d
    ensures d.tree == old(d.tree) && d.locks == Ticks(old(d.locks), sleeps)
    ensures p in d.tree ==> p !in d.Held()
  {
    sleeps := 0;
    var present := d.Exists(p);
    var locked := false;
    if present {
      locked := ProbeLocked(d, p);
    }
    while present && locked
      invariant d.tree == old(d.tree) && d.locks == Ticks(old(d.locks), sleeps)
      invariant present <==> p in d.tree
      invariant locked <==> IsFileLocked(d.tree, d.Held(), d.windows, p)
      decreases HoldOf(d.locks, p)
    {
      IsFileLockedIff(d.tree, d.Held(), d.windows, p);
      d.Sleep();
      sleeps := sleeps + 1;
      present := d.Exists(p);
      locked := false;
      if present {
        locked := ProbeLocked(d, p);
      }
    }
    IsFileLockedIff(d.tree, d.Held(), d.windows, p);
  }

  /** `subprocess.Popen([exe])` followed by `sys.exit(0)`; starting a missing program
      raises, and the uncaught exception ends the process with status 1. */
  function LaunchExit(t: Tree, exe: Path): Exit
  {
    Exit(t, if IsFileIn(t, exe) then 0 else 1)
  }

  /** The swap of updater 1.0 in the folder `base`, once the wait is over: remove
      modmanager.exe if present, move modmanager_new.exe onto it if present, and exit
      with status 1 on an error; otherwise launch modmanager.exe. */
  function Swap10F(t: Tree, locked: set<Path>, windows: bool, base: Path): Exit
  {
    var oldExe := base + [ModManagerExe];
    var newExe := base + [ModManagerNewExe];
    match (if oldExe in t then RemoveF(t, locked, oldExe) else Some(t))
    case None => Exit(t, 1)
    case Some(t1) =>
      if newExe !in t1 then LaunchExit(t1, oldExe)
      else
        var m := MoveF(t1, locked, windows, newExe, oldExe);
        if m.ok then LaunchExit(m.tree, oldExe) else Exit(m.tree, 1)
  }

  /** `main()` of updater 1.0, run from the folder `base`. */
  method Updater10Main(d: Disk, base: Path) returns (code: int)
    modifies d
    ensures base + [ModManagerExe] in old(d.tree) ==> base + [ModManagerExe] !in d.Held()
    ensures Exit(d.tree, code) == Swap10F(old(d.tree), d.Held(), d.windows, base)
  {
    var oldExe := base + [ModManagerExe];
    var newExe := base + [ModManagerNewExe];
    var _ := WaitWhileLocked(d, oldExe);
    var present := d.Exists(oldExe);
    if present {
      var removed := d.Remove(oldExe);
      if !removed {
        return 1;
      }
    }
    present := d.Exists(newExe);
    if present {
      var moved := d.Move(newExe, oldExe);
      if !moved {
        return 1;
      }
    }
    code := if IsFileIn(d.tree, oldExe) then 0 else 1;
  }

  lemma ExeNames10Differ()
    ensures ModManagerExe != ModManagerNewExe
  {
    assert ModManagerExe[10] == '.' && ModManagerNewExe[10] == '_';
  }

  /** A successful run leaves modmanager_new.exe's bytes at modmanager.exe, no
      modmanager_new.exe, and everything else as it was. */
  lemma Swap10Replaces(t: Tree, locked: set<Path>, windows: bool, base: Path)
    requires IsFileIn(t, base + [ModManagerNewExe])
    requires Swap10F(t, locked, windows, base).code == 0
    ensures Swap10F(t, locked, windows, base).tree ==
            (t - {base + [ModManagerNewExe]})[base + [ModManagerExe] := t[base + [ModManagerNewExe]]]
  {
    var oldExe := base + [ModManagerExe];
    var newExe := base + [ModManagerNewExe];
    ExeNames10Differ();
    assert oldExe[|base|] != newExe[|base|];
    var t1 := if oldExe in t then t - {oldExe} else t;
    MoveSucceeds(t1, locked, windows, newExe, oldExe);
    assert (t1 - {newExe})[oldExe := t1[newExe]] == (t - {newExe})[oldExe := t[newExe]];
  }

  /** Once modmanager.exe is no longer held, the run succeeds whenever modmanager_new.exe
      is a file no process holds and modmanager.exe is not a directory. */
  lemma Swap10Succeeds(t: Tree, locked: set<Path>, windows: bool, base: Path)
    requires IsDirIn(t, base)
    requires IsFileIn(t, base + [ModManagerNewExe]) && base + [ModManagerNewExe] !in locked
    requires !IsDirIn(t, base + [ModManagerExe]) && base + [ModManagerExe] !in locked
    ensures Swap10F(t, locked, windows, base).code == 0
  {
    var oldExe := base + [ModManagerExe];
    var newExe := base + [ModManagerNewExe];
    ExeNames10Differ();
    assert oldExe[|base|] != newExe[|base|];
    assert Parent(oldExe) == base;
    var t1 := if oldExe in t then t - {oldExe} else t;
    assert RenameF(t1, locked, windows, newExe, oldExe).Some?;
  }

  /** Without modmanager_new.exe the run still deletes modmanager.exe when it can, and
      then fails to launch it: exit status 1 either way. */
  lemma Swap10WithoutNew(t: Tree, locked: set<Path>, windows: bool, base: Path)
    requires base + [ModManagerNewExe] !in t
    ensures var oldExe := base + [ModManagerExe];
            oldExe !in Swap10F(t, locked, windows, base).tree <==>
            oldExe !in t || (IsFileIn(t, oldExe) && oldExe !in locked)
    ensures Swap10F(t, locked, windows, base).code == 1
  {
    ExeNames10Differ();
    assert (base + [ModManagerExe])[|base|] != (base + [ModManagerNewExe])[|base|];
  }

  /** A remove that fails ends the run with status 1 before anything changed. */
  lemma Swap10RemoveFails(t: Tree, locked: set<Path>, windows: bool, base: Path)
    requires base + [ModManagerExe] in t
    requires RemoveF(t, locked, base + [ModManagerExe]).None?
    ensures Swap10F(t, locked, windows, base) == Exit(t, 1)
  {
  }

  // --------------------------------------------------- update_exe of the 1.0.2 mod manager

  /** The backup name `exe + ".bak"`. */
  function Backup(exe: Path): Path
    requires |exe| > 0
  {
    WithSuffix(exe, ".bak")
  }

  /** `update_exe()` of the 1.0.2 mod manager, running as `base/exeName`: write the
      download (`None` when the request raises) to modmanager_new.exe, rename the running
      program to its `.bak` name, rename the download into its place, then relaunch and
      exit; any exception is only printed. */
  function UpdateExe102F(t: Tree, locked: set<Path>, windows: bool, base: Path, exeName: string,
                         download: Option<Bytes>): Run
  {
    var exe := base + [exeName];
    var newPath := base + [ModManagerNewExe];
    match (if download.Some? then WriteFile(t, locked, newPath, download.value) else None)
    case None => Run(t, false)
    case Some(t1) =>
      match RenameF(t1, locked, windows, exe, Backup(exe))
      case None => Run(t1, false)
      case Some(t2) =>
        match RenameF(t2, locked, windows, newPath, exe)
        case None => Run(t2, false)
        case Some(t3) => Run(t3, true)
  }

  /** The same sequence with a stale backup removed before the running program is
      renamed to it. */
  function UpdateExe102FixedF(t: Tree, locked: set<Path>, windows: bool, base: Path, exeName: string,
                              download: Option<Bytes>): Run
  {
    var exe := base + [exeName];
    UpdateExe102F(RemoveIgnored(t, locked, Backup(exe)), locked, windows, base, exeName, download)
  }

  method UpdateExe102(d: Disk, base: Path, exeName: string, download: Option<Bytes>) returns (restarted: bool)
    modifies d
    ensures Run(d.tree, restarted) == UpdateExe102F(old(d.tree), old(d.Held()), d.windows, base, exeName, download)
    ensures d.locks == old(d.locks)
  {
    if download.None? {
      return false;
    }
    var exe := base + [exeName];
    var newPath := base + [ModManagerNewExe];
    restarted := d.WriteBytes(newPath, download.value);
    if !restarted {
      return;
    }
    restarted := d.Rename(exe, Backup(exe));
    if !restarted {
      return;
    }
    restarted := d.Rename(newPath, exe);
  }

  method UpdateExe102Fixed(d: Disk, base: Path, exeName: string, download: Option<Bytes>) returns (restarted: bool)
    modifies d
    ensures Run(d.tree, restarted) == UpdateExe102FixedF(old(d.tree), old(d.Held()), d.windows, base, exeName, download)
    ensures d.locks == old(d.locks)
  {
    var exe := base + [exeName];
    var present := d.Exists(Backup(exe));
    if present {
      var _ := d.Remove(Backup(exe));
    }
    restarted := UpdateExe102(d, base, exeName, download);
  }

  /** The conditions under which the update goes through: the folder exists, the running
      program is a file and the backup is not a directory, no other process holds any of
      the three paths, and the program is not called modmanager_new.exe. The running
      program itself does not count as holding its own file: Windows lets a running
      executable be renamed, which is what this update relies on. */
  predicate UpdatePossible(t: Tree, locked: set<Path>, base: Path, exeName: string)
  {
    var exe := base + [exeName];
    var newPath := base + [ModManagerNewExe];
    IsDirIn(t, base) && exeName != ModManagerNewExe && exeName + ".bak" != ModManagerNewExe &&
    IsFileIn(t, exe) && !IsDirIn(t, newPath) && !IsDirIn(t, Backup(exe)) &&
    exe !in locked && newPath !in locked && Backup(exe) !in locked
  }

  /** With no backup left from before, an update goes through: the download runs as the
      program and the old program is kept as the backup. */
  lemma UpdateExe102FirstTime(t: Tree, locked: set<Path>, windows: bool, base: Path, exeName: string, download: Bytes)
    requires UpdatePossible(t, locked, base, exeName)
    requires Backup(base + [exeName]) !in t
    ensures var r := UpdateExe102F(t, locked, windows, base, exeName, Some(download));
            var exe := base + [exeName];
            r.ok && exe in r.tree && r.tree[exe] == File(download) &&
            Backup(exe) in r.tree && r.tree[Backup(exe)] == t[exe] &&
            base + [ModManagerNewExe] !in r.tree
  {
    var exe := base + [exeName];
    var newPath := base + [ModManagerNewExe];
    var bak := Backup(exe);
    WithSuffixApart(exe, ".bak");
    assert bak == base + [exeName + ".bak"];
    assert exe != newPath && bak != newPath by {
      assert exe[|base|] == exeName && newPath[|base|] == ModManagerNewExe && bak[|base|] == exeName + ".bak";
    }
    var t1 := t[newPath := File(download)];
    assert RenameF(t1, locked, windows, exe, bak).Some?;
    var t2 := (t1 - {exe})[bak := t[exe]];
    assert RenameF(t2, locked, windows, newPath, exe).Some?;
  }

  /** On Windows, where a rename never replaces an existing file, the backup left by an
      earlier update blocks every later one: the running program stays as it is, and only
      the download is left behind as modmanager_new.exe. */
  lemma UpdateExe102BlockedByBackup(t: Tree, locked: set<Path>, base: Path, exeName: string, download: Bytes)
    requires UpdatePossible(t, locked, base, exeName)
    requires Backup(base + [exeName]) in t
    ensures var r := UpdateExe102F(t, locked, true, base, exeName, Some(download));
            !r.ok && r.tree == t[base + [ModManagerNewExe] := File(download)]
  {
  }

  /** Removing the stale backup first lets every update go through on every system. */
  lemma UpdateExe102FixedGoesThrough(t: Tree, locked: set<Path>, windows: bool, base: Path, exeName: string, download: Bytes)
    requires UpdatePossible(t, locked, base, exeName)
    ensures var r := UpdateExe102FixedF(t, locked, windows, base, exeName, Some(download));
            var exe := base + [exeName];
            r.ok && exe in r.tree && r.tree[exe] == File(download) &&
            Backup(exe) in r.tree && r.tree[Backup(exe)] == t[exe] &&
            base + [ModManagerNewExe] !in r.tree
  {
    var exe := base + [exeName];
    var bak := Backup(exe);
    var t0 := RemoveIgnored(t, locked, bak);
    WithSuffixApart(exe, ".bak");
    assert t0 == t - {bak};
    assert UpdatePossible(t0, locked, base, exeName);
    UpdateExe102FirstTime(t0, locked, windows, base, exeName, download);
  }
}
