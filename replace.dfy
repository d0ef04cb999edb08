/** Replacing executables in updater 1.1: `atomic_replace`, the ".new" replacement of
    modmanager.exe inside `task_update_exe`, the bounded wait for Mod-Manager to exit, and
    the watcher script left behind to replace the updater itself. */
module Replace {

  import opened Common
  import opened FileTree
  import opened Disk
  import Assets

  /** `path + suffix`: the suffix is appended to the last component. */
  function WithSuffix(p: Path, suffix: string): Path
    requires |p| > 0
  {
    Parent(p) + [p[|p| - 1] + suffix]
  }

  // ---------------------------------------------------------------- atomic_replace (1.1)

  /** `atomic_replace(src, dst)`: remove an existing `dst` and move `src` onto it; when
      either raises, fall back to copying `src` to `dst` and removing `src`. */
  function AtomicReplaceF(t: Tree, locked: set<Path>, windows: bool, src: Path, dst: Path): Run
  {
    var cleared := if dst == [] || dst in t then RemoveF(t, locked, dst) else Some(t);
    var first := if cleared.None? then Run(t, false) else MoveF(cleared.value, locked, windows, src, dst);
    if first.ok then first
    else
      match CopyF(first.tree, locked, src, dst)
      case None => Run(first.tree, false)
      case Some(t2) =>
        match RemoveF(t2, locked, src)
        case None => Run(t2, false)
        case Some(t3) => Run(t3, true)
  }

  method AtomicReplace(d: Disk, src: Path, dst: Path) returns (ok: bool)
    modifies d
    ensures Run(d.tree, ok) == AtomicReplaceF(old(d.tree), old(d.Held()), d.windows, src, dst)
    ensures d.locks == old(d.locks)
  {
    var present := d.Exists(dst);
    ok := true;
    if present {
      ok := d.Remove(dst);
    }
    if ok {
      ok := d.Move(src, dst);
      if ok {
        return;
      }
    }
    ok := d.Copy(src, dst);
    if !ok {
      return;
    }
    ok := d.Remove(src);
  }

  /** `atomic_replace` reports success only when the source file is gone and its bytes are
      where the move or copy put them: at `dst`, or inside `dst` when that is a directory. */
  lemma AtomicReplaceSound(t: Tree, locked: set<Path>, windows: bool, src: Path, dst: Path)
    requires WellFormed(t)
    requires AtomicReplaceF(t, locked, windows, src, dst).ok
    ensures IsFileIn(t, src) && PlaceOf(t, src, dst) != src
    ensures src !in AtomicReplaceF(t, locked, windows, src, dst).tree
    ensures PlaceOf(t, src, dst) in AtomicReplaceF(t, locked, windows, src, dst).tree
    ensures AtomicReplaceF(t, locked, windows, src, dst).tree[PlaceOf(t, src, dst)] == t[src]
  {
    var cleared := if dst == [] || dst in t then RemoveF(t, locked, dst) else Some(t);
    var first := if cleared.None? then Run(t, false) else MoveF(cleared.value, locked, windows, src, dst);
    if first.ok {
      var t1 := cleared.value;
      assert dst !in t1;
      MoveSucceeds(t1, locked, windows, src, dst);
    } else {
      FallbackOnlyIntoDirectory(t, locked, windows, src, dst);
    }
  }

  /** The fallback copy only ever succeeds when `dst` could not be removed because it is
      a directory: then the file is copied into it. Whenever `dst` could be cleared, a
      copy that would succeed means the move had succeeded already. */
  lemma FallbackOnlyIntoDirectory(t: Tree, locked: set<Path>, windows: bool, src: Path, dst: Path)
    requires WellFormed(t)
    requires AtomicReplaceF(t, locked, windows, src, dst).ok
    requires var cleared := if dst == [] || dst in t then RemoveF(t, locked, dst) else Some(t);
             !(if cleared.None? then Run(t, false) else MoveF(cleared.value, locked, windows, src, dst)).ok
    ensures IsDirIn(t, dst) && dst != []
    ensures IsFileIn(t, src) && PlaceOf(t, src, dst) != src
    ensures src !in AtomicReplaceF(t, locked, windows, src, dst).tree
    ensures PlaceOf(t, src, dst) in AtomicReplaceF(t, locked, windows, src, dst).tree
    ensures AtomicReplaceF(t, locked, windows, src, dst).tree[PlaceOf(t, src, dst)] == t[src]
  {
    var cleared := if dst == [] || dst in t then RemoveF(t, locked, dst) else Some(t);
    assert cleared.None?;
    var t2 := CopyF(t, locked, src, dst).value;
    assert RemoveF(t2, locked, src).Some?;
  }

  /** A file moves onto a path that is free or holds an unheld file, inside an existing
      directory, whenever neither is held. */
  lemma AtomicReplaceSucceeds(t: Tree, locked: set<Path>, windows: bool, src: Path, dst: Path)
    requires WellFormed(t)
    requires IsFileIn(t, src) && src !in locked && dst !in locked && src != dst
    requires |dst| > 0 && IsDirIn(t, Parent(dst)) && !IsDirIn(t, dst)
    ensures AtomicReplaceF(t, locked, windows, src, dst).ok
  {
    var t1 := if dst in t then t - {dst} else t;
    assert dst !in t1 && IsFileIn(t1, src) && IsDirIn(t1, Parent(dst));
    assert RenameF(t1, locked, windows, src, dst).Some?;
  }

  // ------------------------------------------------ waiting for Mod-Manager to exit (1.1)

  /** How many half-second sleeps the polling loop takes when it may still poll `left`
      times starting with call `k`: it sleeps after each "running" answer and stops at
      the first "not running". */
  function PollSleeps(running: nat -> bool, k: nat, left: nat): (n: nat)
    ensures n <= left
    decreases left
  {
    if left == 0 || !running(k) then 0 else 1 + PollSleeps(running, k + 1, left - 1)
  }

  /** The sleeps of the whole kill-and-wait step: none when the first answer is "not
      running", otherwise those of the twelve polls that follow. */
  function WaitSleeps(running: nat -> bool): nat
  {
    if running(0) then PollSleeps(running, 1, 12) else 0
  }

  /** Read back: the polls before the last one all answered "running", and the last poll
      answered "not running" unless all `left` of them were used. */
  lemma {:induction false} PollSleepsMeaning(running: nat -> bool, k: nat, left: nat)
    ensures var n := PollSleeps(running, k, left);
      (forall j :: k <= j < k + n ==> running(j)) && (n < left ==> !running(k + n))
    decreases left
  {
    if left > 0 && running(k) {
      PollSleepsMeaning(running, k + 1, left - 1);
    }
  }

  /** One more "running" answer adds one sleep to the count of the polls so far. */
  lemma PollOnce(running: nat -> bool, k: nat, left: nat, n: nat)
    requires n < left && running(k + n)
    requires PollSleeps(running, k, left) == n + PollSleeps(running, k + n, left - n)
    ensures PollSleeps(running, k, left) == n + 1 + PollSleeps(running, k + n + 1, left - n - 1)
  {
  }

  /** A "not running" answer ends the count. */
  lemma PollStops(running: nat -> bool, k: nat, left: nat, n: nat)
    requires n < left && !running(k + n)
    requires PollSleeps(running, k, left) == n + PollSleeps(running, k + n, left - n)
    ensures PollSleeps(running, k, left) == n
  {
  }

  /** One more sleep is one more tick. */
  lemma TickOnce(locks: map<Path, nat>, n: nat)
    ensures Ticks(locks, n + 1) == Tick(Ticks(locks, n))
  {
  }

  /** The polling part of the kill-and-wait step: at most `left` calls from call `k` on,
      sleeping after each "running" answer. */
  method PollWhileRunning(d: Disk, running: nat -> bool, k: nat, left: nat) returns (calls: nat, sleeps: nat)
    modifies d
    ensures sleeps == PollSleeps(running, k, left)
    ensures calls == if sleeps < left then sleeps + 1 else left
    ensures d.tree == old(d.tree) && d.locks == Ticks(old(d.locks), sleeps)
  {
    ghost var locks0 := d.locks;
    calls := 0;
    sleeps := 0;
    while calls < left
      invariant calls == sleeps <= left
      invariant PollSleeps(running, k, left) == sleeps + PollSleeps(running, k + sleeps, left - sleeps)
      invariant d.tree == old(d.tree) && d.locks == Ticks(locks0, sleeps)
    {
      var r := running(k + calls);
      calls := calls + 1;
      if !r {
        PollStops(running, k, left, sleeps);
        return;
      }
      PollOnce(running, k, left, sleeps);
      TickOnce(locks0, sleeps);
      d.Sleep();
      sleeps := sleeps + 1;
    }
  }

  /** The kill-and-wait step of `task_install` and `task_update_exe`. `running(k)` is the
      answer of the k-th call of `is_modmanager_running`, the first one included. A first
      "running" answer sends a kill request; then the process table is polled at most
      twelve more times, with a half-second sleep after each "running" answer, stopping at
      the first "not running". Each sleep lets the holds on files lapse by one step. */
  method KillAndWait(d: Disk, running: nat -> bool) returns (killed: bool, calls: nat, sleeps: nat)
    modifies d
    ensures killed == running(0)
    ensures sleeps == WaitSleeps(running)
    ensures calls == if !killed then 1 else if sleeps < 12 then sleeps + 2 else 13
    ensures d.tree == old(d.tree) && d.locks == Ticks(old(d.locks), sleeps)
  {
    killed := running(0);
    calls := 1;
    sleeps := 0;
    if killed {
      var polls;
      polls, sleeps := PollWhileRunning(d, running, 1, 12);
      calls := 1 + polls;
    }
  }

  /** What the counts of `KillAndWait` say about the answers: every poll before the last
      answered "running"; the last answered "not running" unless all thirteen were made;
      with no kill there is one call and no sleep. */
  lemma KillAndWaitCalls(running: nat -> bool)
    ensures var sleeps := WaitSleeps(running);
      var calls := if !running(0) then 1 else if sleeps < 12 then sleeps + 2 else 13;
      1 <= calls <= 13 && (!running(0) ==> sleeps == 0) &&
      (forall k :: 0 <= k < calls - 1 ==> running(k)) &&
      (calls == 13 || !running(calls - 1))
  {
    if running(0) {
      PollSleepsMeaning(running, 1, 12);
    }
  }

  // ------------------------------------------- task_update_exe: modmanager.exe via ".new" (1.1)

  const ModManagerExe: string := "modmanager.exe"

  /** `path + ".new"`. */
  function NewCopyOf(p: Path): Path
    requires |p| > 0
  {
    WithSuffix(p, ".new")
  }

  /** `os.remove` inside `try: ... except Exception: pass`. Guarding it with
      `os.path.exists` changes nothing: removing a missing path fails anyway. */
  function RemoveIgnored(t: Tree, locked: set<Path>, p: Path): (u: Tree)
  {
    match RemoveF(t, locked, p)
    case Some(t1) => t1
    case None => t
  }

  /** Putting the downloaded `download` in place of `destMod`: raise when there is no
      `destMod`; otherwise remove a stale `destMod.new`, copy the download there, remove
      `destMod` and move `destMod.new` onto it. Both removals ignore errors; the copy and
      the move raise. */
  function ReplaceViaNewF(t: Tree, locked: set<Path>, windows: bool, download: Path, destMod: Path): Run
    requires |destMod| > 0
  {
    if destMod !in t then Run(t, false)
    else
      var tmp := NewCopyOf(destMod);
      var t1 := RemoveIgnored(t, locked, tmp);
      match CopyF(t1, locked, download, tmp)
      case None => Run(t1, false)
      case Some(t2) => MoveF(RemoveIgnored(t2, locked, destMod), locked, windows, tmp, destMod)
  }

  method ReplaceViaNew(d: Disk, download: Path, destMod: Path) returns (ok: bool)
    requires |destMod| > 0
    modifies d
    ensures Run(d.tree, ok) == ReplaceViaNewF(old(d.tree), old(d.Held()), d.windows, download, destMod)
    ensures d.locks == old(d.locks)
  {
    var present := d.Exists(destMod);
    if !present {
      return false;
    }
    var tmp := NewCopyOf(destMod);
    present := d.Exists(tmp);
    if present {
      var _ := d.Remove(tmp);
    }
    ok := d.Copy(download, tmp);
    if !ok {
      return;
    }
    present := d.Exists(destMod);
    if present {
      var _ := d.Remove(destMod);
    }
    ok := d.Move(tmp, destMod);
  }

  /** A path with a suffix on its last component is another path in the same directory. */
  lemma WithSuffixApart(p: Path, suffix: string)
    requires |p| > 0 && |suffix| > 0
    ensures |WithSuffix(p, suffix)| == |p| && WithSuffix(p, suffix) != p
    ensures Parent(WithSuffix(p, suffix)) == Parent(p)
  {
    var q := WithSuffix(p, suffix);
    assert |q[|q| - 1]| != |p[|p| - 1]|;
  }

  /** When the replacement succeeds over an existing file, that file now holds the
      download's bytes, no `.new` file is left, and nothing else changed. */
  lemma ReplaceViaNewInstalls(t: Tree, locked: set<Path>, windows: bool, download: Path, destMod: Path)
    requires WellFormed(t) && |destMod| > 0 && !IsDirIn(t, destMod)
    requires ReplaceViaNewF(t, locked, windows, download, destMod).ok
    ensures IsFileIn(t, download)
    ensures ReplaceViaNewF(t, locked, windows, download, destMod).tree ==
            (t - {NewCopyOf(destMod)})[destMod := t[download]]
  {
    var tmp := NewCopyOf(destMod);
    WithSuffixApart(destMod, ".new");
    var t1 := RemoveIgnored(t, locked, tmp);
    var t2 := CopyF(t1, locked, download, tmp).value;
    var t3 := RemoveIgnored(t2, locked, destMod);
    assert t1 == t - {tmp} by {
      StaleNewCopyCleared(t, locked, windows, download, destMod);
    }
    assert IsFileIn(t, download) && t2 == t1[tmp := t[download]];
    assert ReplaceViaNewF(t, locked, windows, download, destMod) == MoveF(t3, locked, windows, tmp, destMod);
    assert t3 == t2 - {destMod} by {
      RemovedBeforeMove(t2, locked, windows, tmp, destMod);
    }
    MoveSucceeds(t3, locked, windows, tmp, destMod);
    ThroughTemporary(t, tmp, destMod, t[download]);
  }

  /** Writing through a temporary name and then renaming it onto `dst` ends as writing
      `dst` directly, with the temporary name gone. */
  lemma ThroughTemporary(t: Tree, tmp: Path, dst: Path, e: Entry)
    requires tmp != dst
    ensures ((((t - {tmp})[tmp := e]) - {dst}) - {tmp})[dst := e] == (t - {tmp})[dst := e]
  {
  }

  /** A move onto a held file fails, so when removing the file first and then moving
      succeeds, the removal did take the file away. */
  lemma RemovedBeforeMove(u: Tree, locked: set<Path>, windows: bool, src: Path, dst: Path)
    requires IsFileIn(u, dst) && src != dst
    requires MoveF(RemoveIgnored(u, locked, dst), locked, windows, src, dst).ok
    ensures RemoveIgnored(u, locked, dst) == u - {dst}
  {
  }

  /** A replacement that succeeds found no `.new` left after the first removal: a held
      `.new` file refuses the copy, and a `.new` directory cannot be moved. */
  lemma StaleNewCopyCleared(t: Tree, locked: set<Path>, windows: bool, download: Path, destMod: Path)
    requires |destMod| > 0
    requires ReplaceViaNewF(t, locked, windows, download, destMod).ok
    ensures NewCopyOf(destMod) !in RemoveIgnored(t, locked, NewCopyOf(destMod))
  {
    var tmp := NewCopyOf(destMod);
    WithSuffixApart(destMod, ".new");
    var t1 := RemoveIgnored(t, locked, tmp);
    var t2 := CopyF(t1, locked, download, tmp).value;
    var t3 := RemoveIgnored(t2, locked, destMod);
    if tmp in t1 && t1[tmp].Dir? {
      Frames(t1, locked, windows, download, tmp);
      assert tmp in t2 && t2[tmp].Dir?;
      assert tmp in t3 && t3[tmp].Dir?;
      DirectoryDoesNotMove(t3, locked, windows, tmp, destMod);
      assert false;
    }
  }

  /** `shutil.move` of a directory is outside the model: it fails. */
  lemma DirectoryDoesNotMove(t: Tree, locked: set<Path>, windows: bool, src: Path, dst: Path)
    requires src in t && t[src].Dir? && src != dst && |src| == |dst|
    ensures MoveF(t, locked, windows, src, dst) == Run(t, false)
  {
  }

  // ---------------------------------------------------- task_update_exe as a whole (1.1)

  /** How a task ends: with an exception, with `sys.exit(0)` after starting the watcher
      script (Mod-Manager is not relaunched), or after launching Mod-Manager. */
  datatype Outcome = Raised | ExitedForWatcher | Launched

  datatype TaskRun = TaskRun(tree: Tree, outcome: Outcome)

  /** The `finally` clause `shutil.rmtree(tempdir, ignore_errors=True)`. */
  function CleanUp(t: Tree, locked: set<Path>, temp: Path): Tree
  {
    match RemoveTreeF(t, locked, temp)
    case Some(t1) => t1
    case None => t
  }

  /** `run_and_detach(exe)`: starting a program raises when there is no such file. */
  function Launch(t: Tree, exe: Path): TaskRun
  {
    TaskRun(t, if IsFileIn(t, exe) then Launched else Raised)
  }

  /** `task_update_exe` of updater 1.1: make the temporary directory `temp`, run the
      body, and remove `temp` whichever way the body ends. `locked` are the held paths at
      the start, `after` those still held once the kill-and-wait step is over. */
  function TaskUpdateExeF(t: Tree, locked: set<Path>, after: set<Path>, windows: bool, temp: Path, installRoot: Path,
                          newMod: Option<Bytes>, assets: seq<Assets.Asset>, newUpdater: Option<Bytes>,
                          script: Path, scriptText: Bytes): TaskRun
  {
    match MkDirs(t, temp)
    case None => TaskRun(t, Raised)
    case Some(t0) =>
      var b := UpdateExeBodyF(t0, locked, after, windows, temp, installRoot, newMod, assets, newUpdater, script, scriptText);
      TaskRun(CleanUp(b.tree, after, temp), b.outcome)
  }

  /** The `try` body of `task_update_exe`: the downloaded modmanager.exe (`None` when the
      download raises) replaces the installed one, after the kill-and-wait step; when the
      release has an update.exe asset, the self-update branch follows, and otherwise
      Mod-Manager is launched. */
  function UpdateExeBodyF(t: Tree, locked: set<Path>, after: set<Path>, windows: bool, temp: Path, installRoot: Path,
                          newMod: Option<Bytes>, assets: seq<Assets.Asset>, newUpdater: Option<Bytes>,
                          script: Path, scriptText: Bytes): TaskRun
  {
    var modTmp := temp + [ModManagerExe];
    var destMod := installRoot + [ModManagerExe];
    match (if newMod.Some? then WriteFile(t, locked, modTmp, newMod.value) else None)
    case None => TaskRun(t, Raised)
    case Some(t1) =>
      var r := ReplaceViaNewF(t1, after, windows, modTmp, destMod);
      if !r.ok then TaskRun(r.tree, Raised)
      else AfterReplaceF(r.tree, after, temp, installRoot, assets, newUpdater, script, scriptText)
  }

  /** Whether the body gets to the kill-and-wait step: the download is written and
      modmanager.exe is installed. */
  predicate WaitsIn(t: Tree, locked: set<Path>, temp: Path, installRoot: Path, newMod: Option<Bytes>)
  {
    newMod.Some? && WriteFile(t, locked, temp + [ModManagerExe], newMod.value).Some? &&
    installRoot + [ModManagerExe] in WriteFile(t, locked, temp + [ModManagerExe], newMod.value).value
  }

  /** The holds once the body is over: the kill-and-wait step's sleeps have passed when
      the body got to it. */
  function HoldsAfterBody(t: Tree, locks: map<Path, nat>, temp: Path, installRoot: Path, newMod: Option<Bytes>,
                          running: nat -> bool): map<Path, nat>
  {
    if WaitsIn(t, HeldOf(locks), temp, installRoot, newMod) then Ticks(locks, WaitSleeps(running)) else locks
  }

  /** What `task_update_exe` does once modmanager.exe is replaced: launch it, or go on to the
      update.exe branch when the release has an update.exe asset. */
  function AfterReplaceF(t: Tree, locked: set<Path>, temp: Path, installRoot: Path, assets: seq<Assets.Asset>,
                         newUpdater: Option<Bytes>, script: Path, scriptText: Bytes): TaskRun
  {
    if Assets.FindAssetByName(assets, Assets.UpdateExeName).None? then Launch(t, installRoot + [ModManagerExe])
    else SelfUpdateF(t, locked, temp, installRoot, newUpdater, script, scriptText)
  }

  /** The update.exe branch: download the new updater (`None` when that raises); next to
      an installed updater it is copied to `update.exe.new`, the watcher script is written
      to `script` and the process exits; with none installed it is copied to update.exe
      and Mod-Manager is launched. */
  function SelfUpdateF(t: Tree, locked: set<Path>, temp: Path, installRoot: Path,
                       newUpdater: Option<Bytes>, script: Path, scriptText: Bytes): TaskRun
  {
    var updTmp := temp + [Assets.UpdateExeName];
    var installed := installRoot + [Assets.UpdateExeName];
    match (if newUpdater.Some? then WriteFile(t, locked, updTmp, newUpdater.value) else None)
    case None => TaskRun(t, Raised)
    case Some(t1) =>
      if installed in t1 then
        match CopyF(t1, locked, updTmp, NewCopyOf(installed))
        case None => TaskRun(t1, Raised)
        case Some(t2) =>
          match WriteFile(t2, locked, script, scriptText)
          case None => TaskRun(t2, Raised)
          case Some(t3) => TaskRun(t3, ExitedForWatcher)
      else
        match CopyF(t1, locked, updTmp, installed)
        case None => TaskRun(t1, Raised)
        case Some(t2) => Launch(t2, installRoot + [ModManagerExe])
  }

  method TaskUpdateExe(d: Disk, temp: Path, installRoot: Path, newMod: Option<Bytes>, assets: seq<Assets.Asset>,
                       newUpdater: Option<Bytes>, running: nat -> bool, script: Path, scriptText: Bytes)
    returns (outcome: Outcome)
    modifies d
    ensures var h := if MkDirs(old(d.tree), temp).Some?
                     then HoldsAfterBody(MkDirs(old(d.tree), temp).value, old(d.locks), temp, installRoot, newMod, running)
                     else old(d.locks);
            TaskRun(d.tree, outcome) ==
              TaskUpdateExeF(old(d.tree), old(d.Held()), HeldOf(h), d.windows, temp, installRoot, newMod, assets, newUpdater,
                             script, scriptText) &&
            d.locks == h
  {
    var made := d.MakeDirs(temp);
    if !made {
      return Raised;
    }
    outcome := UpdateExeBody(d, temp, installRoot, newMod, assets, newUpdater, running, script, scriptText);
    var _ := d.RemoveTree(temp);
  }

  method UpdateExeBody(d: Disk, temp: Path, installRoot: Path, newMod: Option<Bytes>, assets: seq<Assets.Asset>,
                       newUpdater: Option<Bytes>, running: nat -> bool, script: Path, scriptText: Bytes)
    returns (outcome: Outcome)
    modifies d
    ensures var h := HoldsAfterBody(old(d.tree), old(d.locks), temp, installRoot, newMod, running);
            TaskRun(d.tree, outcome) ==
              UpdateExeBodyF(old(d.tree), old(d.Held()), HeldOf(h), d.windows, temp, installRoot, newMod, assets, newUpdater,
                             script, scriptText) &&
            d.locks == h
  {
    if newMod.None? {
      return Raised;
    }
    var modTmp := temp + [ModManagerExe];
    var ok := d.WriteBytes(modTmp, newMod.value);
    if !ok {
      return Raised;
    }
    var destMod := installRoot + [ModManagerExe];
    var present := d.Exists(destMod);
    if present {
      var _, _, _ := KillAndWait(d, running);
    }
    ok := ReplaceViaNew(d, modTmp, destMod);
    if !ok {
      return Raised;
    }
    var found := Assets.FindAssetByName(assets, Assets.UpdateExeName);
    if found.None? {
      return if IsFileIn(d.tree, destMod) then Launched else Raised;
    }
    if newUpdater.None? {
      return Raised;
    }
    var updTmp := temp + [Assets.UpdateExeName];
    ok := d.WriteBytes(updTmp, newUpdater.value);
    if !ok {
      return Raised;
    }
    var installed := installRoot + [Assets.UpdateExeName];
    present := d.Exists(installed);
    if present {
      ok := d.Copy(updTmp, NewCopyOf(installed));
      if !ok {
        return Raised;
      }
      ok := d.WriteBytes(script, scriptText);
      return if ok then ExitedForWatcher else Raised;
    }
    ok := d.Copy(updTmp, installed);
    if !ok {
      return Raised;
    }
    return if IsFileIn(d.tree, installRoot + [ModManagerExe]) then Launched else Raised;
  }

  /** `tempfile.mkdtemp()` gives a directory that did not exist, inside an existing one. */
  predicate FreshTemp(t: Tree, temp: Path)
  {
    |temp| > 0 && temp !in t && IsDirIn(t, Parent(temp))
  }

  /** Nothing exists below a fresh temporary directory, and creating it adds just it. */
  lemma FreshTempEmpty(t: Tree, temp: Path)
    requires WellFormed(t) && FreshTemp(t, temp)
    ensures forall q :: q in t ==> !Below(temp, q)
    ensures MkDirs(t, temp) == Some(t[temp := Dir])
  {
    forall q | q in t
      ensures !Below(temp, q)
    {
      if Below(temp, q) {
        AncestorIn(t, q, |temp|);
      }
    }
    FreshTempAncestors(t, temp);
    assert temp in Prefixes(temp) by { assert temp[..|temp|] == temp; }
    assert forall q :: q in Prefixes(temp) ==> !IsFileIn(t, q);
    assert t + DirsOf(temp) == t[temp := Dir];
  }

  /** Every proper prefix of a fresh temporary directory is an existing directory. */
  lemma FreshTempAncestors(t: Tree, temp: Path)
    requires WellFormed(t) && FreshTemp(t, temp)
    ensures forall q :: q in Prefixes(temp) ==> q == temp || (q in t && t[q].Dir?)
  {
    var r := Parent(temp);
    forall q | q in Prefixes(temp)
      ensures q == temp || (q in t && t[q].Dir?)
    {
      var k :| 0 < k <= |temp| && q == temp[..k];
      if k < |temp| {
        assert temp[..k] == r[..k];
        if k < |r| {
          AncestorIn(t, r, k);
        } else {
          assert r[..k] == r;
        }
      } else {
        assert q == temp;
      }
    }
  }

  /** A file written into a fresh temporary directory keeps the tree well formed. */
  lemma FreshTempFile(t: Tree, temp: Path, name: string, data: Bytes)
    requires WellFormed(t) && FreshTemp(t, temp)
    ensures WellFormed(t[temp := Dir][temp + [name] := File(data)])
  {
    var u := t[temp := Dir][temp + [name] := File(data)];
    forall p | p in u
      ensures |p| > 0 && IsDirIn(u, Parent(p))
    {
      if p == temp + [name] {
        assert Parent(p) == temp;
      }
    }
  }

  /** Removing a temporary directory that held only what the update put there gives back
      the tree the update started from. */
  lemma CleanUpRestores(t: Tree, u: Tree, locked: set<Path>, temp: Path)
    requires forall q :: q in t ==> !Below(temp, q)
    requires forall q :: !Below(temp, q) ==> Keeps(t, u, q)
    requires temp != [] && temp in u && u[temp].Dir? && forall q :: q in locked ==> !Below(temp, q)
    ensures CleanUp(u, locked, temp) == t
  {
    var r := RemoveTreeF(u, locked, temp).value;
    assert r == t;
  }

  /** The `finally` clause touches nothing outside the temporary directory. */
  lemma CleanUpKeeps(t: Tree, locked: set<Path>, temp: Path, q: Path)
    requires !Below(temp, q)
    ensures Keeps(t, CleanUp(t, locked, temp), q)
  {
  }

  /** The temporary directory and the install folder lie apart. */
  predicate Apart(a: Path, b: Path)
  {
    !Below(a, b) && !Below(b, a)
  }

  /** An entry of a folder lying apart from the temporary directory is outside it. */
  lemma InsideApart(temp: Path, root: Path, name: string)
    requires Apart(temp, root)
    ensures !Below(temp, root + [name])
  {
    if |temp| <= |root| {
      assert root[..|temp|] == (root + [name])[..|temp|];
    }
  }

  lemma ExeNamesDiffer()
    ensures ModManagerExe != Assets.UpdateExeName && ModManagerExe != Assets.UpdateExeName + ".new"
    ensures ModManagerExe + ".new" != Assets.UpdateExeName && ModManagerExe + ".new" != Assets.UpdateExeName + ".new"
  {
    assert ModManagerExe[0] == (ModManagerExe + ".new")[0] == 'm';
    assert Assets.UpdateExeName[0] == (Assets.UpdateExeName + ".new")[0] == 'u';
  }

  /** Without an installed modmanager.exe `task_update_exe` raises, and once its temporary
      directory is removed the install folder is as it was. */
  lemma TaskUpdateExeNeedsModManager(t: Tree, locked: set<Path>, after: set<Path>, windows: bool, temp: Path, installRoot: Path,
                                     newMod: Option<Bytes>, assets: seq<Assets.Asset>, newUpdater: Option<Bytes>,
                                     script: Path, scriptText: Bytes)
    requires WellFormed(t) && FreshTemp(t, temp) && Apart(temp, installRoot)
    requires forall q :: q in after ==> !Below(temp, q)
    requires installRoot + [ModManagerExe] !in t
    ensures TaskUpdateExeF(t, locked, after, windows, temp, installRoot, newMod, assets, newUpdater, script, scriptText)
            == TaskRun(t, Raised)
  {
    FreshTempEmpty(t, temp);
    var t0 := t[temp := Dir];
    var modTmp := temp + [ModManagerExe];
    var destMod := installRoot + [ModManagerExe];
    InsideApart(temp, installRoot, ModManagerExe);
    assert Below(temp, temp) && Below(temp, modTmp);
    if newMod.Some? && WriteFile(t0, locked, modTmp, newMod.value).Some? {
      var t1 := WriteFile(t0, locked, modTmp, newMod.value).value;
      assert destMod !in t1;
      assert ReplaceViaNewF(t1, after, windows, modTmp, destMod) == Run(t1, false);
      assert UpdateExeBodyF(t0, locked, after, windows, temp, installRoot, newMod, assets, newUpdater, script, scriptText)
             == TaskRun(t1, Raised);
      CleanUpRestores(t, t1, after, temp);
    } else {
      assert UpdateExeBodyF(t0, locked, after, windows, temp, installRoot, newMod, assets, newUpdater, script, scriptText)
             == TaskRun(t0, Raised);
      CleanUpRestores(t, t0, after, temp);
    }
  }

  /** The tree once the downloaded `data` has replaced modmanager.exe. */
  function ReplacedTree(t: Tree, temp: Path, installRoot: Path, data: Bytes): Tree
  {
    var destMod := installRoot + [ModManagerExe];
    (t[temp := Dir][temp + [ModManagerExe] := File(data)] - {NewCopyOf(destMod)})[destMod := File(data)]
  }

  /** A task body that does not raise got through the download and the replacement, and
      continues from the replaced tree. */
  lemma UpdateExeBodySteps(t: Tree, locked: set<Path>, after: set<Path>, windows: bool, temp: Path, installRoot: Path,
                           newMod: Option<Bytes>, assets: seq<Assets.Asset>, newUpdater: Option<Bytes>,
                           script: Path, scriptText: Bytes)
    requires WellFormed(t) && FreshTemp(t, temp) && Apart(temp, installRoot)
    requires !IsDirIn(t, installRoot + [ModManagerExe])
    requires UpdateExeBodyF(t[temp := Dir], locked, after, windows, temp, installRoot, newMod, assets, newUpdater, script, scriptText)
             .outcome != Raised
    ensures newMod.Some?
    ensures var u := ReplacedTree(t, temp, installRoot, newMod.value);
            UpdateExeBodyF(t[temp := Dir], locked, after, windows, temp, installRoot, newMod, assets, newUpdater, script, scriptText) ==
            AfterReplaceF(u, after, temp, installRoot, assets, newUpdater, script, scriptText)
  {
    var t0 := t[temp := Dir];
    var modTmp := temp + [ModManagerExe];
    var destMod := installRoot + [ModManagerExe];
    var t1 := WriteFile(t0, locked, modTmp, newMod.value).value;
    assert t1 == t0[modTmp := File(newMod.value)];
    assert ReplaceViaNewF(t1, after, windows, modTmp, destMod).ok;
    DownloadReplaces(t, after, windows, temp, installRoot, newMod.value);
  }

  /** Once the download written into the fresh temporary directory has successfully
      replaced modmanager.exe, the tree is `ReplacedTree`. */
  lemma DownloadReplaces(t: Tree, locked: set<Path>, windows: bool, temp: Path, installRoot: Path, data: Bytes)
    requires WellFormed(t) && FreshTemp(t, temp) && Apart(temp, installRoot)
    requires !IsDirIn(t, installRoot + [ModManagerExe])
    requires ReplaceViaNewF(t[temp := Dir][temp + [ModManagerExe] := File(data)], locked, windows,
                            temp + [ModManagerExe], installRoot + [ModManagerExe]).ok
    ensures ReplaceViaNewF(t[temp := Dir][temp + [ModManagerExe] := File(data)], locked, windows,
                           temp + [ModManagerExe], installRoot + [ModManagerExe]).tree == ReplacedTree(t, temp, installRoot, data)
  {
    var modTmp := temp + [ModManagerExe];
    var destMod := installRoot + [ModManagerExe];
    var t1 := t[temp := Dir][modTmp := File(data)];
    FreshTempFile(t, temp, ModManagerExe, data);
    assert destMod != temp && destMod != modTmp by {
      InsideApart(temp, installRoot, ModManagerExe);
      assert Below(temp, temp) && Below(temp, modTmp);
    }
    assert !IsDirIn(t1, destMod);
    ReplaceViaNewInstalls(t1, locked, windows, modTmp, destMod);
  }

  /** Replacing modmanager.exe leaves every other path outside the temporary directory
      as it was. */
  lemma ReplacedKeeps(t: Tree, temp: Path, installRoot: Path, data: Bytes, q: Path)
    requires q != temp && q != temp + [ModManagerExe]
    requires q != installRoot + [ModManagerExe] && q != NewCopyOf(installRoot + [ModManagerExe])
    ensures Keeps(t, ReplacedTree(t, temp, installRoot, data), q)
  {
  }

  /** An entry of the install folder other than update.exe and update.exe.new, outside
      the temporary directory and other than the watcher script, is left alone by the
      update.exe branch. */
  lemma SelfUpdateKeeps(t: Tree, locked: set<Path>, temp: Path, installRoot: Path,
                        newUpdater: Option<Bytes>, script: Path, scriptText: Bytes, name: string)
    requires Apart(temp, installRoot) && name != Assets.UpdateExeName && name != Assets.UpdateExeName + ".new"
    requires installRoot + [name] != script
    ensures Keeps(t, SelfUpdateF(t, locked, temp, installRoot, newUpdater, script, scriptText).tree, installRoot + [name])
  {
    var q := installRoot + [name];
    var updTmp := temp + [Assets.UpdateExeName];
    var installed := installRoot + [Assets.UpdateExeName];
    var n := |installRoot|;
    InsideApart(temp, installRoot, name);
    assert q != updTmp;
    WithSuffixApart(installed, ".new");
    assert q != NewCopyOf(installed) && q != installed by {
      assert q[n] == name;
      assert installed[n] == Assets.UpdateExeName;
      assert NewCopyOf(installed)[n] == Assets.UpdateExeName + ".new";
    }
    if newUpdater.Some? && WriteFile(t, locked, updTmp, newUpdater.value).Some? {
      var t1 := WriteFile(t, locked, updTmp, newUpdater.value).value;
      assert Keeps(t, t1, q);
      var x := if installed in t1 then NewCopyOf(installed) else installed;
      Frames(t1, locked, false, updTmp, x);
      assert |PlaceOf(t1, updTmp, x)| != |q| || PlaceOf(t1, updTmp, x) == x;
      if CopyF(t1, locked, updTmp, x).Some? {
        var t2 := CopyF(t1, locked, updTmp, x).value;
        assert Keeps(t, t2, q);
        if installed in t1 && WriteFile(t2, locked, script, scriptText).Some? {
          var t3 := WriteFile(t2, locked, script, scriptText).value;
          assert Keeps(t, t3, q);
        }
      }
    }
  }

  /** Unless it raises, `task_update_exe` leaves the download at modmanager.exe and no
      modmanager.exe.new behind, whichever way it ends. */
  lemma TaskUpdateExeReplaces(t: Tree, locked: set<Path>, after: set<Path>, windows: bool, temp: Path, installRoot: Path,
                              newMod: Option<Bytes>, assets: seq<Assets.Asset>, newUpdater: Option<Bytes>,
                              script: Path, scriptText: Bytes)
    requires WellFormed(t) && FreshTemp(t, temp) && Apart(temp, installRoot) && !Below(installRoot, script)
    requires !IsDirIn(t, installRoot + [ModManagerExe])
    requires TaskUpdateExeF(t, locked, after, windows, temp, installRoot, newMod, assets, newUpdater, script, scriptText)
             .outcome != Raised
    ensures newMod.Some?
    ensures var tn := TaskUpdateExeF(t, locked, after, windows, temp, installRoot, newMod, assets, newUpdater, script, scriptText).tree;
            installRoot + [ModManagerExe] in tn && tn[installRoot + [ModManagerExe]] == File(newMod.value) &&
            NewCopyOf(installRoot + [ModManagerExe]) !in tn
  {
    FreshTempEmpty(t, temp);
    UpdateExeBodySteps(t, locked, after, windows, temp, installRoot, newMod, assets, newUpdater, script, scriptText);
    var destMod := installRoot + [ModManagerExe];
    var tmp := NewCopyOf(destMod);
    var u := ReplacedTree(t, temp, installRoot, newMod.value);
    var b := UpdateExeBodyF(t[temp := Dir], locked, after, windows, temp, installRoot, newMod, assets, newUpdater, script, scriptText);
    WithSuffixApart(destMod, ".new");
    assert tmp == installRoot + [ModManagerExe + ".new"];
    InsideApart(temp, installRoot, ModManagerExe);
    InsideApart(temp, installRoot, ModManagerExe + ".new");
    if Assets.FindAssetByName(assets, Assets.UpdateExeName).Some? {
      ExeNamesDiffer();
      SelfUpdateKeeps(u, after, temp, installRoot, newUpdater, script, scriptText, ModManagerExe);
      SelfUpdateKeeps(u, after, temp, installRoot, newUpdater, script, scriptText, ModManagerExe + ".new");
    }
    CleanUpKeeps(b.tree, after, temp, destMod);
    CleanUpKeeps(b.tree, after, temp, tmp);
  }

  /** When `task_update_exe` exits for the watcher, the new updater waits next to the installed
      one as update.exe.new, the installed one is untouched, and the watcher script is in
      place. */
  lemma TaskUpdateExeSchedules(t: Tree, locked: set<Path>, after: set<Path>, windows: bool, temp: Path, installRoot: Path,
                               newMod: Option<Bytes>, assets: seq<Assets.Asset>, newUpdater: Option<Bytes>,
                               script: Path, scriptText: Bytes)
    requires WellFormed(t) && FreshTemp(t, temp) && Apart(temp, installRoot)
    requires !Below(installRoot, script) && !Below(temp, script)
    requires !IsDirIn(t, installRoot + [ModManagerExe])
    requires !IsDirIn(t, NewCopyOf(installRoot + [Assets.UpdateExeName]))
    requires TaskUpdateExeF(t, locked, after, windows, temp, installRoot, newMod, assets, newUpdater, script, scriptText)
             .outcome == ExitedForWatcher
    ensures newUpdater.Some? && installRoot + [Assets.UpdateExeName] in t
    ensures var tn := TaskUpdateExeF(t, locked, after, windows, temp, installRoot, newMod, assets, newUpdater, script, scriptText).tree;
            var installed := installRoot + [Assets.UpdateExeName];
            NewCopyOf(installed) in tn && tn[NewCopyOf(installed)] == File(newUpdater.value) &&
            installed in tn && tn[installed] == t[installed] &&
            script in tn && tn[script] == File(scriptText)
  {
    FreshTempEmpty(t, temp);
    UpdateExeBodySteps(t, locked, after, windows, temp, installRoot, newMod, assets, newUpdater, script, scriptText);
    var destMod := installRoot + [ModManagerExe];
    var installed := installRoot + [Assets.UpdateExeName];
    var nc := NewCopyOf(installed);
    var u := ReplacedTree(t, temp, installRoot, newMod.value);
    var b := UpdateExeBodyF(t[temp := Dir], locked, after, windows, temp, installRoot, newMod, assets, newUpdater, script, scriptText);
    WithSuffixApart(destMod, ".new");
    WithSuffixApart(installed, ".new");
    InsideApart(temp, installRoot, Assets.UpdateExeName);
    InsideApart(temp, installRoot, Assets.UpdateExeName + ".new");
    ExeNamesDiffer();
    var n := |installRoot|;
    assert installed[n] == Assets.UpdateExeName && nc[n] == Assets.UpdateExeName + ".new";
    assert destMod[n] == ModManagerExe && NewCopyOf(destMod)[n] == ModManagerExe + ".new";
    assert Below(temp, temp) && Below(temp, temp + [ModManagerExe]);
    ReplacedKeeps(t, temp, installRoot, newMod.value, installed);
    ReplacedKeeps(t, temp, installRoot, newMod.value, nc);
    SelfUpdateLands(u, after, temp, installRoot, newUpdater, script, scriptText);
    CleanUpKeeps(b.tree, after, temp, nc);
    CleanUpKeeps(b.tree, after, temp, installed);
    CleanUpKeeps(b.tree, after, temp, script);
  }

  /** The update.exe branch, ending in the exit for the watcher, puts the new updater at
      update.exe.new and the script at its place, and leaves update.exe alone. */
  lemma SelfUpdateLands(t: Tree, locked: set<Path>, temp: Path, installRoot: Path,
                        newUpdater: Option<Bytes>, script: Path, scriptText: Bytes)
    requires Apart(temp, installRoot) && !Below(installRoot, script)
    requires !IsDirIn(t, NewCopyOf(installRoot + [Assets.UpdateExeName]))
    requires SelfUpdateF(t, locked, temp, installRoot, newUpdater, script, scriptText).outcome == ExitedForWatcher
    ensures newUpdater.Some? && installRoot + [Assets.UpdateExeName] in t
    ensures var tn := SelfUpdateF(t, locked, temp, installRoot, newUpdater, script, scriptText).tree;
            var installed := installRoot + [Assets.UpdateExeName];
            NewCopyOf(installed) in tn && tn[NewCopyOf(installed)] == File(newUpdater.value) &&
            installed in tn && tn[installed] == t[installed] &&
            script in tn && tn[script] == File(scriptText)
  {
    var updTmp := temp + [Assets.UpdateExeName];
    var installed := installRoot + [Assets.UpdateExeName];
    var nc := NewCopyOf(installed);
    assert nc != installed && updTmp != installed && updTmp != nc by {
      WithSuffixApart(installed, ".new");
      assert nc == installRoot + [Assets.UpdateExeName + ".new"];
      InsideApart(temp, installRoot, Assets.UpdateExeName);
      InsideApart(temp, installRoot, Assets.UpdateExeName + ".new");
      assert Below(temp, updTmp);
    }
    var t1 := WriteFile(t, locked, updTmp, newUpdater.value).value;
    assert t1 == t[updTmp := File(newUpdater.value)];
    assert installed in t1;
    assert PlaceOf(t1, updTmp, nc) == nc;
    var t2 := CopyF(t1, locked, updTmp, nc).value;
    assert t2 == t1[nc := File(newUpdater.value)];
  }

  // ------------------------------------- the watcher script of _schedule_replace_and_exit (1.1)

  /** How the watcher script ends once the target is gone: `mv new target || true`
      (`move /Y` on Windows), then the script deletes itself; both ignore errors. */
  function WatcherEndF(t: Tree, locked: set<Path>, windows: bool, newFile: Path, target: Path, script: Path): Tree
  {
    RemoveIgnored(MoveF(t, locked, windows, newFile, target).tree, locked, script)
  }

  /** The watcher script: wait a second, then delete the target a second apart until it
      is gone, move the new file onto it and delete the script. On Windows the script
      deletes first and waits only while the target is still there; elsewhere it waits
      after every attempt. The loop ends because the exiting updater lets go of its own
      executable; a directory target would make it loop forever. */
  method Watcher(d: Disk, newFile: Path, target: Path, script: Path) returns (sleeps: nat)
    requires !IsDirIn(d.tree, target)
    modifies d
    ensures sleeps >= 1
    ensures d.locks == Ticks(old(d.locks), sleeps)
    ensures target in old(d.tree) ==> target !in d.Held()
    ensures d.tree == WatcherEndF(old(d.tree) - {target}, d.Held(), d.windows, newFile, target, script)
  {
    d.Sleep();
    sleeps := 1;
    var present := d.Exists(target);
    while present
      invariant present <==> target in d.tree
      invariant target in d.tree ==> d.tree == old(d.tree) && d.tree[target].File?
      invariant target !in d.tree ==> d.tree == old(d.tree) - {target}
      invariant sleeps >= 1 && d.locks == Ticks(old(d.locks), sleeps)
      invariant target in old(d.tree) && target !in d.tree ==> target !in d.Held()
      decreases if present then 1 + HoldOf(d.locks, target) else 0
    {
      var _ := d.Remove(target);
      if d.windows {
        present := d.Exists(target);
        if present {
          d.Sleep();
          sleeps := sleeps + 1;
        }
      } else {
        d.Sleep();
        sleeps := sleeps + 1;
        present := d.Exists(target);
      }
    }
    var _ := d.Move(newFile, target);
    var _ := d.Remove(script);
  }

  /** Once the target is gone and neither it nor the new file is held, the watcher puts
      the new file's bytes at the target, no new file is left, an unheld script file is
      gone, and nothing else changes. */
  lemma WatcherInstalls(t: Tree, locked: set<Path>, windows: bool, newFile: Path, target: Path, script: Path)
    requires IsFileIn(t, newFile) && newFile !in locked && newFile != target
    requires target !in t && target !in locked && |target| > 0 && IsDirIn(t, Parent(target))
    requires script != newFile && script != target
    ensures var tn := WatcherEndF(t, locked, windows, newFile, target, script);
            target in tn && tn[target] == t[newFile] && newFile !in tn &&
            (IsFileIn(t, script) && script !in locked ==> script !in tn) &&
            forall q :: q != newFile && q != target && q != script ==> Keeps(t, tn, q)
  {
    var m := MoveF(t, locked, windows, newFile, target).tree;
    assert RenameF(t, locked, windows, newFile, target).Some?;
    assert m == (t - {newFile})[target := t[newFile]];
  }

  /** Without the new file the watcher still deletes the target: nothing is left in its
      place. */
  lemma WatcherWithoutNewFile(t: Tree, locked: set<Path>, windows: bool, newFile: Path, target: Path, script: Path)
    requires newFile !in t && target !in t && script != target
    ensures target !in WatcherEndF(t, locked, windows, newFile, target, script)
  {
    var x := PlaceOf(t, newFile, target);
    assert x == target;
    assert RenameF(t, locked, windows, newFile, target).None?;
  }
}
