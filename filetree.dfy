/** The filesystem the updaters work on, as a map from paths to files and directories,
    with the primitive operations they perform (os.makedirs, writing a file, copying into
    a path) and the replay of a list of such operations that stops at the first failure,
    as a Python exception does. */
module FileTree {

  import opened Common

  /** A path as its list of components, from the filesystem root. */
  type Path = seq<string>

  datatype Entry = File(data: Bytes) | Dir

  /** Every existing file and directory by path; the root `[]` always exists and is not
      stored. */
  type Tree = map<Path, Entry>

  predicate IsDirIn(t: Tree, p: Path)
  {
    p == [] || (p in t && t[p].Dir?)
  }

  predicate IsFileIn(t: Tree, p: Path)
  {
    p in t && t[p].File?
  }

  function Parent(p: Path): Path
    requires |p| > 0
  {
    p[..|p| - 1]
  }

  /** `p` is `dir` itself or lies inside it. */
  predicate Below(dir: Path, p: Path)
  {
    |dir| <= |p| && p[..|dir|] == dir
  }

  predicate SameKind(a: Entry, b: Entry)
  {
    a.Dir? == b.Dir?
  }

  /** Every entry sits in an existing directory. */
  predicate WellFormed(t: Tree)
  {
    forall p :: p in t ==> |p| > 0 && IsDirIn(t, Parent(p))
  }

  /** The non-empty prefixes of `p`: the directories `os.makedirs(p)` ensures. */
  function Prefixes(p: Path): set<Path>
  {
    set k | 0 < k <= |p| :: p[..k]
  }

  function DirsOf(p: Path): Tree
  {
    map q | q in Prefixes(p) :: Dir
  }

  /** `os.makedirs(p, exist_ok=True)`: it raises when some component of `p`, `p` itself
      included, is an existing file, and otherwise creates every missing directory. */
  function MkDirs(t: Tree, p: Path): Option<Tree>
  {
    if forall q :: q in Prefixes(p) ==> !IsFileIn(t, q) then Some(t + DirsOf(p)) else None
  }

  /** `open(p, 'wb')` followed by writing `data`: the parent must be a directory, `p`
      must not be one, and no running process may hold `p`. */
  function WriteFile(t: Tree, locked: set<Path>, p: Path, data: Bytes): Option<Tree>
  {
    if |p| > 0 && IsDirIn(t, Parent(p)) && !IsDirIn(t, p) && p !in locked then
      Some(t[p := File(data)])
    else None
  }

  /** Where `shutil.copy2(src, p)` writes when the file name of `src` is the last
      component of `p`: inside `p` when `p` is a directory, at `p` otherwise. */
  function CopyTarget(t: Tree, p: Path): Path
  {
    if |p| > 0 && p in t && t[p].Dir? then p + [p[|p| - 1]] else p
  }

  /** One filesystem step of an extraction or merge loop. */
  datatype Op = MakeDirs(p: Path) | Write(p: Path, data: Bytes) | CopyInto(p: Path, data: Bytes)

  function Step(t: Tree, locked: set<Path>, op: Op): Option<Tree>
  {
    match op
    case MakeDirs(p) => MkDirs(t, p)
    case Write(p, d) => WriteFile(t, locked, p, d)
    case CopyInto(p, d) => WriteFile(t, locked, CopyTarget(t, p), d)
  }

  /** The entries a successful step sets. */
  function Effect(t: Tree, op: Op): Tree
  {
    match op
    case MakeDirs(p) => DirsOf(p)
    case Write(p, d) => map[p := File(d)]
    case CopyInto(p, d) => map[CopyTarget(t, p) := File(d)]
  }

  /** Where a sequence of steps leaves the tree, and whether it got through all of them. */
  datatype Run = Run(tree: Tree, ok: bool)

  /** The steps in order, stopping at the first that fails: the tree is left as that
      step found it. */
  function Exec(t: Tree, locked: set<Path>, ops: seq<Op>): Run
    decreases |ops|
  {
    if |ops| == 0 then Run(t, true)
    else
      match Step(t, locked, ops[0])
      case None => Run(t, false)
      case Some(t1) => Exec(t1, locked, ops[1..])
  }

  /** The paths the steps set, each in the state it runs in. */
  function Touched(t: Tree, locked: set<Path>, ops: seq<Op>): set<Path>
    decreases |ops|
  {
    if |ops| == 0 then {}
    else
      match Step(t, locked, ops[0])
      case None => {}
      case Some(t1) => Effect(t, ops[0]).Keys + Touched(t1, locked, ops[1..])
  }

  /** A successful step overrides exactly its effect; entries it does not set keep their
      kind and, for those it does set, a directory stays a directory. */
  lemma StepEffect(t: Tree, locked: set<Path>, op: Op)
    requires Step(t, locked, op).Some?
    ensures Step(t, locked, op).value == t + Effect(t, op)
    ensures forall q :: q in t ==> q in t + Effect(t, op) && SameKind(t[q], (t + Effect(t, op))[q])
  {
    var t1 := Step(t, locked, op).value;
    match op
    case MakeDirs(p) =>
      forall q | q in t
        ensures q in t1 && SameKind(t[q], t1[q])
      {
        if q in Prefixes(p) {
          assert !IsFileIn(t, q);
        }
      }
    case Write(p, d) =>
      assert t1 == t + Effect(t, op);
    case CopyInto(p, d) =>
      assert t1 == t + Effect(t, op);
  }

  /** Running `a` then `b` is running `a + b`, and a failure in `a` stops everything. */
  lemma {:induction false} ExecAppend(t: Tree, locked: set<Path>, a: seq<Op>, b: seq<Op>)
    ensures Exec(t, locked, a + b) ==
            (if Exec(t, locked, a).ok then Exec(Exec(t, locked, a).tree, locked, b) else Exec(t, locked, a))
    decreases |a|
  {
    if |a| == 0 {
      assert a + b == b;
    } else {
      assert (a + b)[0] == a[0];
      assert (a + b)[1..] == a[1..] + b;
      match Step(t, locked, a[0])
      case None =>
      case Some(t1) =>
        ExecAppend(t1, locked, a[1..], b);
    }
  }

  /** A successful run changes nothing outside the paths it sets. */
  lemma {:induction false} ExecUntouched(t: Tree, locked: set<Path>, ops: seq<Op>, q: Path)
    requires Exec(t, locked, ops).ok
    requires q !in Touched(t, locked, ops)
    ensures q in Exec(t, locked, ops).tree <==> q in t
    ensures q in t ==> Exec(t, locked, ops).tree[q] == t[q]
    decreases |ops|
  {
    if |ops| > 0 {
      var t1 := Step(t, locked, ops[0]).value;
      StepEffect(t, locked, ops[0]);
      ExecUntouched(t1, locked, ops[1..], q);
    }
  }

  /** A successful run never turns a file into a directory or back, and deletes nothing. */
  lemma {:induction false} ExecKeepsKinds(t: Tree, locked: set<Path>, ops: seq<Op>)
    requires Exec(t, locked, ops).ok
    ensures forall q :: q in t ==> q in Exec(t, locked, ops).tree && SameKind(t[q], Exec(t, locked, ops).tree[q])
    decreases |ops|
  {
    if |ops| > 0 {
      var t1 := Step(t, locked, ops[0]).value;
      StepEffect(t, locked, ops[0]);
      ExecKeepsKinds(t1, locked, ops[1..]);
    }
  }

  /** Replaying a successful run from any state that differs from its start only at paths
      the run sets, and only in ways the run itself brings about, reaches the same tree. */
  lemma {:induction false} Replay(t: Tree, u: Tree, locked: set<Path>, ops: seq<Op>)
    requires Exec(t, locked, ops).ok
    requires forall q :: q !in Touched(t, locked, ops) ==> (q in u <==> q in t) && (q in t ==> u[q] == t[q])
    requires forall q :: q in t ==> q in u && SameKind(u[q], t[q])
    requires forall q :: q in u && q !in t ==> q in Exec(t, locked, ops).tree && SameKind(u[q], Exec(t, locked, ops).tree[q])
    ensures Exec(u, locked, ops) == Exec(t, locked, ops)
    decreases |ops|
  {
    var tn := Exec(t, locked, ops).tree;
    if |ops| == 0 {
      assert u == t;
    } else {
      var op := ops[0];
      var t1 := Step(t, locked, op).value;
      StepEffect(t, locked, op);
      ExecKeepsKinds(t1, locked, ops[1..]);
      var e := Effect(t, op);
      assert t1 == t + e;
      // Whatever `op` sets has, at the end of the run, the kind `op` gives it.
      assert forall q :: q in e ==> q in tn && SameKind(e[q], tn[q]) by {
        forall q | q in e
          ensures q in tn && SameKind(e[q], tn[q])
        {
          assert q in t1 && t1[q] == e[q];
        }
      }
      StepAgrees(t, u, locked, op, tn, e);
      var u1 := u + e;
      assert Step(u, locked, op) == Some(u1);
      Replay(t1, u1, locked, ops[1..]);
    }
  }

  /** The first step of `Replay`: `op` succeeds on `u` too, with the same effect. */
  lemma StepAgrees(t: Tree, u: Tree, locked: set<Path>, op: Op, tn: Tree, e: Tree)
    requires Step(t, locked, op).Some? && e == Effect(t, op)
    requires Step(t, locked, op).value == t + e
    requires forall q :: q in t ==> q in u && SameKind(u[q], t[q])
    requires forall q :: q in u && q !in t ==> q in tn && SameKind(u[q], tn[q])
    requires forall q :: q in t ==> q in tn && SameKind(t[q], tn[q])
    requires forall q :: q in e ==> q in tn && SameKind(e[q], tn[q])
    ensures Effect(u, op) == e
    ensures Step(u, locked, op) == Some(u + e)
  {
    match op
    case MakeDirs(p) =>
      forall q | q in Prefixes(p)
        ensures !IsFileIn(u, q)
      {
        assert q in e;
      }
    case Write(p, d) =>
      assert p in e;
      if |p| > 1 {
        assert Parent(p) in t;
      }
      assert u[p := File(d)] == u + e;
    case CopyInto(p, d) =>
      if |p| > 0 && p in t && t[p].Dir? {
        assert CopyTarget(u, p) == CopyTarget(t, p);
      } else if p in u && p !in t {
        assert p in e;
      }
      var x := CopyTarget(t, p);
      assert x in e;
      if |x| > 1 {
        assert Parent(x) in t;
      }
      assert u[x := File(d)] == u + e;
  }

  /** Running the same steps again over their own result changes nothing: the merges built
      on them are idempotent. */
  lemma ExecIdempotent(t: Tree, locked: set<Path>, ops: seq<Op>)
    requires Exec(t, locked, ops).ok
    ensures Exec(Exec(t, locked, ops).tree, locked, ops) == Exec(t, locked, ops)
  {
    var tn := Exec(t, locked, ops).tree;
    ExecKeepsKinds(t, locked, ops);
    forall q | q !in Touched(t, locked, ops)
      ensures (q in tn <==> q in t) && (q in t ==> tn[q] == t[q])
    {
      ExecUntouched(t, locked, ops, q);
    }
    Replay(t, tn, locked, ops);
  }

  /** Whether `op` may write the file at `x`: a write to `x`, or a copy to `x` or into a
      directory whose own name the file takes. */
  predicate MayWrite(op: Op, x: Path)
  {
    match op
    case MakeDirs(_) => false
    case Write(p, _) => p == x
    case CopyInto(p, _) => p == x || (|p| > 0 && p + [p[|p| - 1]] == x)
  }

  /** An entry keeps its value through a successful run unless some step writes it, and
      then only when every such step writes the same bytes again. */
  lemma {:induction false} ExecKeeps(t: Tree, locked: set<Path>, ops: seq<Op>, x: Path)
    requires Exec(t, locked, ops).ok
    requires x in t
    requires forall op :: op in ops && MayWrite(op, x) ==> t[x] == File(op.data)
    ensures x in Exec(t, locked, ops).tree && Exec(t, locked, ops).tree[x] == t[x]
    decreases |ops|
  {
    if |ops| > 0 {
      var op := ops[0];
      var t1 := Step(t, locked, op).value;
      StepEffect(t, locked, op);
      match op {
        case MakeDirs(p) =>
          if x in Prefixes(p) {
            assert !IsFileIn(t, x);
          }
        case Write(p, d) =>
        case CopyInto(p, d) =>
      }
      assert x in t1 && t1[x] == t[x];
      forall o | o in ops[1..] && MayWrite(o, x)
        ensures t1[x] == File(o.data)
      {
        assert o in ops;
      }
      ExecKeeps(t1, locked, ops[1..], x);
    }
  }

  /** Successful runs keep every entry inside an existing directory. */
  lemma {:induction false} ExecWellFormed(t: Tree, locked: set<Path>, ops: seq<Op>)
    requires WellFormed(t) && Exec(t, locked, ops).ok
    ensures WellFormed(Exec(t, locked, ops).tree)
    decreases |ops|
  {
    if |ops| > 0 {
      var op := ops[0];
      var t1 := Step(t, locked, op).value;
      StepEffect(t, locked, op);
      forall q | q in t1
        ensures |q| > 0 && IsDirIn(t1, Parent(q))
      {
        if q in t {
          assert IsDirIn(t, Parent(q));
        } else {
          match op
          case MakeDirs(p) =>
            var k :| 0 < k <= |p| && q == p[..k];
            assert Parent(q) == [] || Parent(q) == p[..k - 1];
          case Write(p, d) =>
          case CopyInto(p, d) =>
        }
      }
      ExecWellFormed(t1, locked, ops[1..]);
    }
  }

  /** In a well-formed tree every ancestor of an entry exists and is a directory. */
  lemma {:induction false} AncestorIn(t: Tree, q: Path, k: nat)
    requires WellFormed(t) && q in t && 0 < k <= |q|
    ensures q[..k] in t
    ensures k < |q| ==> t[q[..k]].Dir?
    decreases |q|
  {
    if k < |q| {
      var r := Parent(q);
      assert IsDirIn(t, r) && r != [];
      assert r[..k] == q[..k];
      AncestorIn(t, r, k);
    } else {
      assert q[..k] == q;
    }
  }
}
