/** How the operating system follows a path that was never resolved, and what
    `os.mkdir` and pathlib's `Path.mkdir` do with one. `create_directory` and
    `delete_directory` hand `base / dire_name` to the system in this form:
    every segment but the last must be an existing directory, and `..` goes
    to the parent of the directory reached so far. The other tools resolve
    their paths first. */
module Disk {
  import opened Text
  import opened Paths
  import opened FileTree

  /** Where following a path ends: at an entry, at a missing segment
      (`ENOENT`), or at a segment that is a file (`ENOTDIR`). */
  datatype Lookup = Found(p: Path) | NoEntry | NotDir

  /** Follows `segs` from `at`, one segment at a time. */
  function Locate(fs: Tree, at: Path, segs: seq<string>): (r: Lookup)
    ensures r.Found? ==> r.p in fs
    decreases |segs|
  {
    if at !in fs then NoEntry
    else if segs == [] then Found(at)
    else if fs[at] != Dir then NotDir
    else Locate(fs, Enter(at, segs[0]), segs[1..])
  }

  /** `Path(...).exists()` of the parts `raw`, followed from `/`. */
  predicate Exists(fs: Tree, raw: seq<string>) {
    Locate(fs, [], raw).Found?
  }

  /** `Path(...).is_dir()` of the parts `raw`, followed from `/`. */
  predicate IsDirAt(fs: Tree, raw: seq<string>) {
    var r := Locate(fs, [], raw);
    r.Found? && fs[r.p] == Dir
  }

  /** Reference meaning of following a path: each leading run of `segs`,
      resolved by text from `at`, is an existing directory, and the whole of
      `segs` resolves to an existing entry. */
  predicate Traversable(fs: Tree, at: Path, segs: seq<string>) {
    && (forall k :: 0 <= k < |segs| ==> IsDir(fs, Walk(at, segs[..k])))
    && Walk(at, segs) in fs
  }

  /** Following a path succeeds exactly when it is traversable, and then it
      ends where resolving it by text ends. */
  lemma {:induction false} LocateIffTraversable(fs: Tree, at: Path, segs: seq<string>)
    ensures Locate(fs, at, segs).Found? <==> Traversable(fs, at, segs)
    ensures Locate(fs, at, segs).Found? ==> Locate(fs, at, segs).p == Walk(at, segs)
    decreases |segs|
  {
    if segs != [] {
      var next := Enter(at, segs[0]);
      var rest := segs[1..];
      LocateIffTraversable(fs, next, rest);
      assert segs[..0] == [];
      forall k | 0 <= k < |rest| ensures Walk(at, segs[..k + 1]) == Walk(next, rest[..k]) {
        assert segs[..k + 1][1..] == rest[..k];
      }
      if Traversable(fs, at, segs) {
        forall k | 0 <= k < |rest| ensures IsDir(fs, Walk(next, rest[..k])) {
          assert IsDir(fs, Walk(at, segs[..k + 1]));
        }
      }
      if Locate(fs, at, segs).Found? {
        forall k | 0 <= k < |segs| ensures IsDir(fs, Walk(at, segs[..k])) {
          if k > 0 {
            assert IsDir(fs, Walk(next, rest[..k - 1]));
          }
        }
      }
    }
  }

  /** Following a resolved path in a well-formed tree: it is found when it is
      there, the walk stops at a missing directory when no file is in the
      way, and at a file otherwise. */
  lemma {:induction false} LocateCanonical(fs: Tree, d: Path, k: nat)
    requires WellFormed(fs) && Canonical(d) && k <= |d|
    requires forall j :: 0 <= j < k ==> IsDir(fs, d[..j])
    ensures Locate(fs, d[..k], d[k..]) ==
      if d in fs then Found(d) else if CanMakeDirs(fs, d) then NoEntry else NotDir
    decreases |d| - k
  {
    assert d[..|d|] == d;
    if d in fs {
      AncestorsAreDirs(fs, d);
    }
    if d[..k] !in fs {
      forall j | 0 <= j <= |d| && d[..j] in fs ensures fs[d[..j]] == Dir {
        if j > k {
          assert d[..j][..k] == d[..k];
          AncestorsAreDirs(fs, d[..j]);
        }
      }
    } else if k == |d| {
      assert d[..k] == d;
    } else if fs[d[..k]] != Dir {
    } else {
      assert d[k..][0] == d[k];
      assert d[k..][1..] == d[k + 1..];
      assert Enter(d[..k], d[k]) == d[..k + 1];
      LocateCanonical(fs, d, k + 1);
    }
  }

  /** For a resolved path, `exists()` is membership in the tree. */
  lemma ExistsCanonical(fs: Tree, d: Path)
    requires WellFormed(fs) && Canonical(d)
    ensures Exists(fs, d) <==> d in fs
    ensures IsDirAt(fs, d) <==> IsDir(fs, d)
  {
    LocateCanonical(fs, d, 0);
    assert d[..0] == [] && d[0..] == d;
  }

  /** `os.rmdir` of the parts `raw`: all but the last part must lead to a
      directory, the last part must be a name (`rmdir` refuses `/`, `.` and
      `..`), and the directory it names must be empty. */
  function SysRmdir(fs: Tree, raw: seq<string>): Option<Tree> {
    if raw == [] || !Plain(raw[|raw| - 1]) then None
    else match Locate(fs, [], raw[..|raw| - 1])
      case Found(d) =>
        var t := d + [raw[|raw| - 1]];
        if fs[d] == Dir && IsDir(fs, t) && Children(fs, t) == {} then Some(fs - {t}) else None
      case _ => None
  }

  /** Following `raw` never passes through a directory strictly below `t`,
      and `raw` ends in a name. */
  predicate StaysAbove(raw: seq<string>, t: Path) {
    && raw != []
    && Plain(raw[|raw| - 1])
    && forall k :: 0 <= k < |raw| ==> Walk([], raw[..k]) == t || !Within(t, Walk([], raw[..k]))
  }

  /** `shutil.rmtree` empties the directory `raw` leads to and then calls
      `os.rmdir` on `raw` itself: that succeeds, leaving the tree without the
      directory and everything below it, exactly when `raw` does not pass
      through anything the emptying removed. */
  lemma RmdirAfterEmptying(fs: Tree, raw: seq<string>, t: Path)
    requires WellFormed(fs) && Locate(fs, [], raw) == Found(t) && fs[t] == Dir
    ensures SysRmdir(Emptied(fs, t), raw) == if StaysAbove(raw, t) then Some(RemoveTree(fs, t)) else None
  {
    var e := Emptied(fs, t);
    EmptiedSpec(fs, t);
    LocateIffTraversable(fs, [], raw);
    if raw != [] && Plain(raw[|raw| - 1]) {
      var n := |raw| - 1;
      var init := raw[..n];
      assert raw == init + [raw[n]];
      WalkSnoc([], init, raw[n]);
      var d := Walk([], init);
      assert t == d + [raw[n]];
      assert IsDir(fs, d) by { assert raw[..n] == init; }
      forall k | 0 <= k <= n ensures init[..k] == raw[..k] { }
      LocateIffTraversable(e, [], init);
      if StaysAbove(raw, t) {
        assert Traversable(e, [], init) by {
          forall k | 0 <= k < |init| ensures IsDir(e, Walk([], init[..k])) {
            assert IsDir(fs, Walk([], raw[..k]));
          }
          assert Walk([], raw[..n]) == d;
        }
        assert SysRmdir(e, raw) == Some(e - {t});
      } else {
        var k :| 0 <= k < |raw| && Walk([], raw[..k]) != t && Within(t, Walk([], raw[..k]));
        assert Walk([], raw[..k]) !in e;
        assert k < n;
        assert !Traversable(e, [], init) by { assert init[..k] == raw[..k]; }
      }
    }
  }

  /** For a resolved path, `rmdir` after the emptying fails only at `/`. */
  lemma StaysAboveCanonical(d: Path)
    requires Canonical(d)
    ensures StaysAbove(d, d) <==> d != []
  {
    if d != [] {
      forall k | 0 <= k < |d| ensures Walk([], d[..k]) == d || !Within(d, Walk([], d[..k])) {
        assert Canonical(d[..k]);
        WalkAppends([], d[..k]);
        assert [] + d[..k] == d[..k];
      }
    }
  }

  /** Which exception a failed `mkdir` raises: `FileExistsError`,
      `FileNotFoundError`, or another `OSError` (a file in the way). */
  datatype Failure = AlreadyThere | NoParent | FileInWay

  /** The tree after an attempt, and the exception it ended with, if any.
      Directories made before an exception stay. */
  datatype Outcome = Outcome(fs: Tree, error: Option<Failure>)

  /** `os.mkdir` of the parts `raw`: all but the last part must lead to a
      directory, and the last part must name nothing yet. */
  function SysMkdir(fs: Tree, raw: seq<string>): Outcome {
    if raw == [] then Outcome(fs, Some(AlreadyThere))
    else match Locate(fs, [], raw[..|raw| - 1])
      case NoEntry => Outcome(fs, Some(NoParent))
      case NotDir => Outcome(fs, Some(FileInWay))
      case Found(d) =>
        var t := Enter(d, raw[|raw| - 1]);
        if fs[d] != Dir then Outcome(fs, Some(FileInWay))
        else if t in fs then Outcome(fs, Some(AlreadyThere))
        else Outcome(fs[t := Dir], None)
  }

  /** `Path(raw).mkdir(parents=parents, exist_ok=existOk)` as pathlib writes
      it: when the parent is missing it makes the parent, taken by text
      (`Path.parent`), with `exist_ok` on, and tries once more; any other
      failure is raised unless `exist_ok` holds and the path is already a
      directory. */
  function Mkdir(fs: Tree, raw: seq<string>, parents: bool, existOk: bool): Outcome
    decreases |raw|, if parents then 1 else 0
  {
    var first := SysMkdir(fs, raw);
    if first.error == Some(NoParent) then
      if !parents || raw == [] then first
      else
        var up := Mkdir(fs, raw[..|raw| - 1], true, true);
        if up.error.Some? then up else Mkdir(up.fs, raw, false, existOk)
    else if first.error.Some? && existOk && IsDirAt(fs, raw) then Outcome(fs, None)
    else first
  }

  /** The paths a path passes through, each resolved by text: the only
      places where `Path.mkdir` can make a directory. */
  function Passes(raw: seq<string>): set<Path> {
    set k | 0 <= k <= |raw| :: Walk([], raw[..k])
  }

  /** Making a directory below an existing directory keeps the tree well
      formed. */
  lemma PutDirSpec(fs: Tree, t: Path)
    requires WellFormed(fs) && t !in fs && t != [] && IsDir(fs, Parent(t))
    ensures WellFormed(fs[t := Dir])
  {
    var r := fs[t := Dir];
    forall p | Present(r, p) && p != [] ensures IsDir(r, Parent(p)) {
      if p != t {
        ParentIsDir(fs, p);
      }
    }
  }

  /** `os.mkdir` changes nothing when it fails; when it succeeds it adds
      exactly the path `raw` resolves to, which was not there, as a
      directory below an existing one. */
  lemma SysMkdirSpec(fs: Tree, raw: seq<string>)
    requires WellFormed(fs)
    ensures var o := SysMkdir(fs, raw);
      && WellFormed(o.fs)
      && (o.error.Some? ==> o.fs == fs)
      && (o.error.None? ==> Walk([], raw) !in fs && o.fs == fs[Walk([], raw) := Dir])
  {
    if raw != [] {
      var up := raw[..|raw| - 1];
      var last := raw[|raw| - 1];
      LocateIffTraversable(fs, [], up);
      WalkSnoc([], up, last);
      assert up + [last] == raw;
      match Locate(fs, [], up)
      case Found(d) =>
        var t := Enter(d, last);
        if fs[d] == Dir && t !in fs {
          if d != [] {
            ParentIsDir(fs, d);
          }
          assert Parent(t) == d;
          PutDirSpec(fs, t);
        }
      case NoEntry =>
      case NotDir =>
    }
  }

  /** What `Path.mkdir` does to the tree, whatever the path: it keeps the
      tree well formed and every entry as it was, adds only directories the
      path passes through, leaves the path a directory when it succeeds, and
      without `exist_ok` succeeds only by making that directory. */
  lemma {:induction false} MkdirSpec(fs: Tree, raw: seq<string>, parents: bool, existOk: bool)
    requires WellFormed(fs)
    ensures var o := Mkdir(fs, raw, parents, existOk);
      && WellFormed(o.fs)
      && (forall p :: p in fs ==> p in o.fs && o.fs[p] == fs[p])
      && (forall p :: p in o.fs && p !in fs ==> o.fs[p] == Dir && p in Passes(raw))
      && (o.error.None? ==> IsDir(o.fs, Walk([], raw)))
      && (o.error.None? && !existOk ==> Walk([], raw) !in fs)
    decreases |raw|, if parents then 1 else 0
  {
    var first := SysMkdir(fs, raw);
    SysMkdirSpec(fs, raw);
    assert raw[..|raw|] == raw;
    if first.error == Some(NoParent) && parents && raw != [] {
      var init := raw[..|raw| - 1];
      MkdirSpec(fs, init, true, true);
      var up := Mkdir(fs, init, true, true);
      forall p | p in Passes(init) ensures p in Passes(raw) {
        var k :| 0 <= k <= |init| && p == Walk([], init[..k]);
        assert init[..k] == raw[..k];
      }
      if up.error.None? {
        MkdirSpec(up.fs, raw, false, existOk);
      }
    } else if first.error.Some? && existOk && IsDirAt(fs, raw) {
      LocateIffTraversable(fs, [], raw);
    }
  }

  /** A path whose parent is a directory is one directory away. */
  lemma MakeDirsUnderDir(fs: Tree, d: Path)
    requires WellFormed(fs) && d != [] && d !in fs && IsDir(fs, Parent(d))
    ensures CanMakeDirs(fs, d) && MakeDirs(fs, d) == fs[d := Dir]
  {
    var up := Parent(d);
    AncestorsAreDirs(fs, up);
    forall k | 0 <= k <= |d| ensures d[..k] == d || IsDir(fs, d[..k]) {
      if k < |d| - 1 {
        assert d[..k] == up[..k];
      } else if k == |d| - 1 {
        assert d[..k] == up;
      } else {
        assert d[..k] == d;
      }
    }
    assert d in Ancestry(d) by { assert d == d[..|d|]; }
    assert MakeDirs(fs, d) == fs[d := Dir];
  }

  /** The paths down to `d` are those down to its parent, and `d`. */
  lemma AncestryStep(d: Path)
    requires d != []
    ensures Ancestry(d) == Ancestry(Parent(d)) + {d}
    ensures d !in Ancestry(Parent(d))
  {
    var up := Parent(d);
    assert d == d[..|d|];
    assert forall q :: q in Ancestry(up) ==> |q| <= |up|;
    forall q | q in Ancestry(d) ensures q in Ancestry(up) || q == d {
      var k :| 0 <= k <= |d| && q == d[..k];
      if k < |d| {
        assert q == up[..k];
      }
    }
    forall q | q in Ancestry(up) ensures q in Ancestry(d) {
      var k :| 0 <= k <= |up| && q == up[..k];
      assert q == d[..k];
    }
  }

  /** Making the directories down to a path is making those down to its
      parent and then the path itself. */
  lemma MakeDirsStep(fs: Tree, d: Path)
    requires d != [] && d !in fs && CanMakeDirs(fs, Parent(d))
    ensures CanMakeDirs(fs, d)
    ensures d !in MakeDirs(fs, Parent(d))
    ensures MakeDirs(fs, d) == MakeDirs(fs, Parent(d))[d := Dir]
  {
    var up := Parent(d);
    assert d[..|d|] == d;
    forall k | 0 <= k < |d| ensures d[..k] == up[..k] { }
    AncestryStep(d);
    assert MakeDirs(fs, d).Keys == MakeDirs(fs, up)[d := Dir].Keys;
  }

  /** A file in the way of the parent is in the way of the path. */
  lemma BlockedBelow(fs: Tree, d: Path)
    requires d != [] && !CanMakeDirs(fs, Parent(d))
    ensures !CanMakeDirs(fs, d)
  {
    var up := Parent(d);
    var k :| 0 <= k <= |up| && up[..k] in fs && fs[up[..k]] != Dir;
    assert d[..k] == up[..k];
  }

  /** For a resolved path that is not there, `Path.mkdir(parents=True)`
      does what the lexical model says: it makes the missing directories
      down to the path when no file is in the way, and fails without change
      otherwise. */
  lemma {:induction false} MkdirCanonical(fs: Tree, d: Path, existOk: bool)
    requires WellFormed(fs) && [] in fs && Canonical(d) && d !in fs
    ensures Mkdir(fs, d, true, existOk) ==
      if CanMakeDirs(fs, d) then Outcome(MakeDirs(fs, d), None) else Outcome(fs, Some(FileInWay))
    decreases |d|
  {
    var up := Parent(d);
    assert up == d[..|d| - 1];
    assert Canonical(up);
    assert Enter(up, d[|d| - 1]) == d;
    LocateCanonical(fs, up, 0);
    assert up[..0] == [] && up[0..] == up;
    ExistsCanonical(fs, d);
    if IsDir(fs, up) {
      MakeDirsUnderDir(fs, d);
    } else if up in fs {
      assert d[..|d| - 1] == up;
    } else if CanMakeDirs(fs, up) {
      MkdirCanonical(fs, up, true);
      MakeDirsStep(fs, d);
      MakeDirsSpec(fs, up);
      var made := MakeDirs(fs, up);
      assert up in Ancestry(up) by { assert up == up[..|up|]; }
      LocateCanonical(made, up, 0);
    } else {
      BlockedBelow(fs, d);
    }
  }
}
