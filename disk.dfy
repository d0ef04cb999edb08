/** The filesystem as the updaters see it while Mod-Manager may still be running: the tree
    of files, the files a running process still holds open (which can be neither removed,
    renamed onto nor overwritten until that process lets go), and the operating system,
    which decides whether `os.rename` may replace an existing file. */
module Disk {

  import opened Common
  import opened FileTree

  /** `os.remove(p)`: only an existing file that no process holds can be removed. */
  function RemoveF(t: Tree, locked: set<Path>, p: Path): Option<Tree>
  {
    if IsFileIn(t, p) && p !in locked then Some(t - {p}) else None
  }

  /** `os.rename(src, dst)` of a file. Renaming a path onto itself succeeds unless the path
      is missing or held. Otherwise the source must be an existing file no process holds,
      the target's directory must exist, the target must not be held, and an existing
      target is replaced only outside Windows and only when it is a file. */
  function RenameF(t: Tree, locked: set<Path>, windows: bool, src: Path, dst: Path): Option<Tree>
  {
    if src == dst then
      (if src in t && src !in locked then Some(t) else None)
    else if IsFileIn(t, src) && src !in locked && |dst| > 0 && IsDirIn(t, Parent(dst)) &&
            dst !in locked && (dst !in t || (!windows && t[dst].File?)) then
      Some((t - {src})[dst := t[src]])
    else None
  }

  /** Where `shutil.copy2(src, dst)` and `shutil.move(src, dst)` put the file: inside `dst`
      when that is a directory, under the file name of `src`. */
  function PlaceOf(t: Tree, src: Path, dst: Path): Path
  {
    if |dst| > 0 && |src| > 0 && dst in t && t[dst].Dir? then dst + [src[|src| - 1]] else dst
  }

  /** `shutil.copy2(src, dst)`: the source must be an existing file distinct from where the
      copy goes, and writing there must succeed. */
  function CopyF(t: Tree, locked: set<Path>, src: Path, dst: Path): Option<Tree>
  {
    var x := PlaceOf(t, src, dst);
    if IsFileIn(t, src) && x != src then WriteFile(t, locked, x, t[src].data) else None
  }

  /** `shutil.move(src, dst)` of a file: refused when the place inside a target directory
      is taken; otherwise a rename, and when the rename fails a copy followed by removing
      the source. A failure after the copy leaves the copy in place. */
  function MoveF(t: Tree, locked: set<Path>, windows: bool, src: Path, dst: Path): Run
  {
    var x := PlaceOf(t, src, dst);
    if x != dst && x in t then Run(t, false)
    else
      match RenameF(t, locked, windows, src, x)
      case Some(t1) => Run(t1, true)
      case None =>
        match CopyF(t, locked, src, x)
        case None => Run(t, false)
        case Some(t2) =>
          match RemoveF(t2, locked, src)
          case None => Run(t2, false)
          case Some(t3) => Run(t3, true)
  }

  /** `shutil.rmtree(p)`: a directory and everything below it; the model refuses (and
      removes nothing) when a held file lies below. */
  function RemoveTreeF(t: Tree, locked: set<Path>, p: Path): Option<Tree>
  {
    if p != [] && IsDirIn(t, p) && (forall q :: q in locked ==> !Below(p, q)) then
      Some(map q | q in t && !Below(p, q) :: t[q])
    else None
  }

  /** `is_file_locked(p)` of updater 1.0: a missing path is not locked; otherwise the
      path is locked exactly when renaming it onto itself fails. */
  function IsFileLocked(t: Tree, locked: set<Path>, windows: bool, p: Path): bool
  {
    if p !in t then false else RenameF(t, locked, windows, p, p).None?
  }

  /** The rename probe reports exactly the paths that exist and are held. */
  lemma IsFileLockedIff(t: Tree, locked: set<Path>, windows: bool, p: Path)
    ensures IsFileLocked(t, locked, windows, p) <==> p in t && p in locked
  {
  }

  /** Whenever `shutil.move` reports success, the target holds the source's bytes and the
      source is gone; nothing else changes. */
  lemma MoveSucceeds(t: Tree, locked: set<Path>, windows: bool, src: Path, dst: Path)
    requires MoveF(t, locked, windows, src, dst).ok
    requires !IsDirIn(t, dst)
    ensures IsFileIn(t, src)
    ensures MoveF(t, locked, windows, src, dst).tree == (t - {src})[dst := t[src]]
  {
    var t1 := MoveF(t, locked, windows, src, dst).tree;
    if src == dst {
      assert (t - {src})[dst := t[src]] == t;
    } else if RenameF(t, locked, windows, src, dst).None? {
      var t2 := CopyF(t, locked, src, dst).value;
      assert t1 == t2 - {src};
      assert t1 == (t - {src})[dst := t[src]];
    }
  }

  /** A rename of a file to a new name is undone by renaming it back. */
  lemma RenameBack(t: Tree, locked: set<Path>, windows: bool, src: Path, dst: Path)
    requires WellFormed(t) && src != dst && dst !in t
    requires RenameF(t, locked, windows, src, dst).Some?
    ensures RenameF(RenameF(t, locked, windows, src, dst).value, locked, windows, dst, src) == Some(t)
  {
    var t1 := RenameF(t, locked, windows, src, dst).value;
    assert src in t;
    assert (t1 - {dst})[src := t1[dst]] == t;
  }

  /** The running process releases its files as time passes: after a sleep every hold
      has one tick less. */
  function Tick(locks: map<Path, nat>): (r: map<Path, nat>)
    ensures r.Keys == locks.Keys
    ensures forall p :: p in locks ==> r[p] == if locks[p] > 0 then locks[p] - 1 else 0
  {
    map p | p in locks :: if locks[p] > 0 then locks[p] - 1 else 0
  }

  /** The paths a process still holds while `locks` says for how many more sleeps. */
  function HeldOf(locks: map<Path, nat>): set<Path>
  {
    set p | p in locks && locks[p] > 0
  }

  /** For how many more sleeps `p` stays held. */
  function HoldOf(locks: map<Path, nat>, p: Path): nat
  {
    if p in locks then locks[p] else 0
  }

  /** `n` sleeps in a row: every hold is `n` ticks shorter, and none goes below zero. */
  function Ticks(locks: map<Path, nat>, n: nat): (r: map<Path, nat>)
    ensures r.Keys == locks.Keys
    ensures forall p :: p in locks ==> r[p] == if locks[p] > n then locks[p] - n else 0
  {
    if n == 0 then locks else Tick(Ticks(locks, n - 1))
  }

  /** Sleeping never makes a path held. */
  lemma TicksRelease(locks: map<Path, nat>, m: nat, n: nat)
    requires m <= n
    ensures HeldOf(Ticks(locks, n)) <= HeldOf(Ticks(locks, m))
  {
  }

  /** `q` is as before. */
  predicate Keeps(t: Tree, u: Tree, q: Path)
  {
    (q in u <==> q in t) && (q in t ==> u[q] == t[q])
  }

  /** Everything but `p` is as before. */
  ghost predicate SameBut(t: Tree, u: Tree, p: Path)
  {
    forall q :: q != p ==> Keeps(t, u, q)
  }

  /** `os.remove`, `os.rename`, `shutil.copy2` and `shutil.move` touch only the paths
      they name, and the place inside a target directory. */
  lemma Frames(t: Tree, locked: set<Path>, windows: bool, src: Path, dst: Path)
    ensures RemoveF(t, locked, dst).Some? ==> SameBut(t, RemoveF(t, locked, dst).value, dst)
    ensures CopyF(t, locked, src, dst).Some? ==> SameBut(t, CopyF(t, locked, src, dst).value, PlaceOf(t, src, dst))
    ensures forall q :: q != src && q != PlaceOf(t, src, dst) ==> Keeps(t, MoveF(t, locked, windows, src, dst).tree, q)
  {
  }

  class Disk {
    var tree: Tree
    /** How many more sleeps each held file stays held. */
    var locks: map<Path, nat>
    /** Whether the operating system refuses to rename onto an existing file. */
    const windows: bool

    /** The paths a running process holds right now. */
    function Held(): set<Path>
      reads this
    {
      HeldOf(locks)
    }

    constructor (tree: Tree, locks: map<Path, nat>, windows: bool)
      ensures this.tree == tree && this.locks == locks && this.windows == windows
    {
      this.tree := tree;
      this.locks := locks;
      this.windows := windows;
    }

    /** `os.path.exists(p)`. */
    method Exists(p: Path) returns (b: bool)
      ensures b <==> p == [] || p in tree
    {
      b := p == [] || p in tree;
    }

    method MakeDirs(p: Path) returns (ok: bool)
      modifies this
      ensures ok == MkDirs(old(tree), p).Some?
      ensures tree == if ok then MkDirs(old(tree), p).value else old(tree)
      ensures locks == old(locks)
    {
      var r := MkDirs(tree, p);
      ok := r.Some?;
      if ok {
        tree := r.value;
      }
    }

    method WriteBytes(p: Path, data: Bytes) returns (ok: bool)
      modifies this
      ensures ok == WriteFile(old(tree), old(Held()), p, data).Some?
      ensures tree == if ok then WriteFile(old(tree), old(Held()), p, data).value else old(tree)
      ensures locks == old(locks)
    {
      var r := WriteFile(tree, Held(), p, data);
      ok := r.Some?;
      if ok {
        tree := r.value;
      }
    }

    method Remove(p: Path) returns (ok: bool)
      modifies this
      ensures ok == RemoveF(old(tree), old(Held()), p).Some?
      ensures tree == if ok then RemoveF(old(tree), old(Held()), p).value else old(tree)
      ensures locks == old(locks)
    {
      var r := RemoveF(tree, Held(), p);
      ok := r.Some?;
      if ok {
        tree := r.value;
      }
    }

    method Rename(src: Path, dst: Path) returns (ok: bool)
      modifies this
      ensures ok == RenameF(old(tree), old(Held()), windows, src, dst).Some?
      ensures tree == if ok then RenameF(old(tree), old(Held()), windows, src, dst).value else old(tree)
      ensures locks == old(locks)
    {
      var r := RenameF(tree, Held(), windows, src, dst);
      ok := r.Some?;
      if ok {
        tree := r.value;
      }
    }

    method Copy(src: Path, dst: Path) returns (ok: bool)
      modifies this
      ensures ok == CopyF(old(tree), old(Held()), src, dst).Some?
      ensures tree == if ok then CopyF(old(tree), old(Held()), src, dst).value else old(tree)
      ensures locks == old(locks)
    {
      var r := CopyF(tree, Held(), src, dst);
      ok := r.Some?;
      if ok {
        tree := r.value;
      }
    }

    /** `shutil.move`, as a rename with the copy-then-remove fallback. */
    method Move(src: Path, dst: Path) returns (ok: bool)
      modifies this
      ensures Run(tree, ok) == MoveF(old(tree), old(Held()), windows, src, dst)
      ensures locks == old(locks)
    {
      var x := PlaceOf(tree, src, dst);
      if x != dst && x in tree {
        return false;
      }
      ok := Rename(src, x);
      if ok {
        return;
      }
      ok := Copy(src, x);
      if !ok {
        return;
      }
      ok := Remove(src);
    }

    method RemoveTree(p: Path) returns (ok: bool)
      modifies this
      ensures ok == RemoveTreeF(old(tree), old(Held()), p).Some?
      ensures tree == if ok then RemoveTreeF(old(tree), old(Held()), p).value else old(tree)
      ensures locks == old(locks)
    {
      var r := RemoveTreeF(tree, Held(), p);
      ok := r.Some?;
      if ok {
        tree := r.value;
      }
    }

    /** One step of an extraction or merge loop. */
    method Perform(op: Op) returns (ok: bool)
      modifies this
      ensures ok == Step(old(tree), old(Held()), op).Some?
      ensures tree == if ok then Step(old(tree), old(Held()), op).value else old(tree)
      ensures locks == old(locks)
    {
      var r := Step(tree, Held(), op);
      ok := r.Some?;
      if ok {
        tree := r.value;
      }
    }

    /** `time.sleep`: the files stay as they are and every hold gets one tick shorter. */
    method Sleep()
      modifies this
      ensures tree == old(tree)
      ensures locks == Tick(old(locks))
    {
      locks := Tick(locks);
    }
  }
}
