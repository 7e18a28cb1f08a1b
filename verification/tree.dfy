/** The file tree the server works on: every existing path mapped to a
    directory or a file, and the three ways the tools change it. */
module FileTree {
  import opened Paths

  /** A file whose bytes are not valid UTF-8 is a `Blob`: it exists and is a
      file, but reading it as text fails. */
  datatype Node = Dir | File(text: string) | Blob

  type Tree = map<Path, Node>

  /** Membership, named so that the quantifier of `WellFormed` fires on it
      alone and not again on the parent it mentions. */
  predicate Present(fs: Tree, p: Path) {
    p in fs
  }

  /** `/`, if present, is a directory, and every other entry hangs below an
      existing directory. */
  ghost predicate WellFormed(fs: Tree) {
    && ([] in fs ==> fs[[]] == Dir)
    && forall p {:trigger Present(fs, p)} :: Present(fs, p) && p != [] ==> IsDir(fs, Parent(p))
  }

  /** The parent of an entry of a well-formed tree is a directory. */
  lemma ParentIsDir(fs: Tree, p: Path)
    requires WellFormed(fs) && p in fs && p != []
    ensures IsDir(fs, Parent(p))
  {
    assert Present(fs, p);
  }

  /** The leading paths of an entry of a well-formed tree are directories. */
  lemma {:induction false} AncestorsAreDirs(fs: Tree, p: Path)
    requires WellFormed(fs) && p in fs
    ensures forall j :: 0 <= j < |p| ==> IsDir(fs, p[..j])
    decreases |p|
  {
    if p != [] {
      ParentIsDir(fs, p);
      AncestorsAreDirs(fs, Parent(p));
      forall j | 0 <= j < |p| ensures IsDir(fs, p[..j]) {
        if j < |p| - 1 {
          assert p[..j] == Parent(p)[..j];
        }
      }
    }
  }

  predicate IsDir(fs: Tree, p: Path) {
    p in fs && fs[p] == Dir
  }

  predicate IsFile(fs: Tree, p: Path) {
    p in fs && fs[p] != Dir
  }

  /** The paths `mkdir(parents=True)` on `d` may have to create: `d` and all
      its ancestors, `/` included. */
  function Ancestry(d: Path): set<Path> {
    set k | 0 <= k <= |d| :: d[..k]
  }

  /** `d.mkdir(parents=True, exist_ok=True)` succeeds exactly when no path on
      the way down to `d` is a file. */
  predicate CanMakeDirs(fs: Tree, d: Path) {
    forall k :: 0 <= k <= |d| && d[..k] in fs ==> fs[d[..k]] == Dir
  }

  /** The tree after `d.mkdir(parents=True, exist_ok=True)`. */
  function MakeDirs(fs: Tree, d: Path): Tree {
    fs + map q | q in Ancestry(d) && q !in fs :: Dir
  }

  /** The tree after `shutil.rmtree(t)`: `t` and everything below it gone. */
  function RemoveTree(fs: Tree, t: Path): Tree {
    map p | p in fs && !Within(t, p) :: fs[p]
  }

  /** The tree once `shutil.rmtree(t)` has emptied `t`: everything strictly
      below `t` gone, `t` itself still there. */
  function Emptied(fs: Tree, t: Path): Tree {
    map p | p in fs && (p == t || !Within(t, p)) :: fs[p]
  }

  /** The names directly inside directory `d`. */
  function Children(fs: Tree, d: Path): set<string> {
    set p | p in fs && |p| == |d| + 1 && p[..|d|] == d :: p[|d|]
  }

  /** Creating missing directories keeps the tree well formed, leaves every
      existing entry as it was, and makes `d` and each of its ancestors a
      directory. */
  lemma MakeDirsSpec(fs: Tree, d: Path)
    requires WellFormed(fs) && CanMakeDirs(fs, d)
    ensures var r := MakeDirs(fs, d);
      && WellFormed(r)
      && r.Keys == fs.Keys + Ancestry(d)
      && (forall p :: p in fs ==> r[p] == fs[p])
      && (forall k :: 0 <= k <= |d| ==> IsDir(r, d[..k]))
  {
    var r := MakeDirs(fs, d);
    forall k | 0 <= k <= |d| ensures IsDir(r, d[..k]) {
      assert d[..k] in Ancestry(d);
    }
    forall p | Present(r, p) && p != [] ensures IsDir(r, Parent(p)) {
      if p in fs {
        ParentIsDir(fs, p);
      } else {
        var k :| 0 <= k <= |d| && p == d[..k];
        assert Parent(p) == d[..k - 1];
      }
    }
    assert [] in r ==> r[[]] == Dir by {
      if [] !in fs && [] in r {
        assert [] == d[..0];
      }
    }
  }

  /** Removing a subtree keeps the tree well formed, removes exactly `t` and
      the paths below it, and leaves every other entry as it was. */
  lemma RemoveTreeSpec(fs: Tree, t: Path)
    requires WellFormed(fs)
    ensures var r := RemoveTree(fs, t);
      && WellFormed(r)
      && (forall p :: p in r <==> p in fs && !Within(t, p))
      && (forall p :: p in r ==> r[p] == fs[p])
  {
    var r := RemoveTree(fs, t);
    forall p | Present(r, p) && p != [] ensures IsDir(r, Parent(p)) {
      ParentIsDir(fs, p);
    }
  }

  /** Emptying a directory keeps the tree well formed and every entry not
      strictly below it; the directory is left without children, and
      removing it then gives the tree `rmtree` leaves. */
  lemma EmptiedSpec(fs: Tree, t: Path)
    requires WellFormed(fs) && IsDir(fs, t)
    ensures var e := Emptied(fs, t);
      && WellFormed(e)
      && (forall p :: p in e <==> p in fs && (p == t || !Within(t, p)))
      && (forall p :: p in e ==> e[p] == fs[p])
      && IsDir(e, t)
      && Children(e, t) == {}
      && e - {t} == RemoveTree(fs, t)
  {
    var e := Emptied(fs, t);
    forall p | Present(e, p) && p != [] ensures IsDir(e, Parent(p)) {
      ParentIsDir(fs, p);
    }
  }

  /** Placing a file where no directory is, below an existing directory, keeps
      the tree well formed. */
  lemma PutFileSpec(fs: Tree, t: Path, n: Node)
    requires WellFormed(fs) && n != Dir
    requires t != [] && IsDir(fs, Parent(t)) && !IsDir(fs, t)
    ensures WellFormed(fs[t := n])
  {
    var r := fs[t := n];
    forall p | Present(r, p) && p != [] ensures IsDir(r, Parent(p)) {
      if p != t {
        ParentIsDir(fs, p);
      }
    }
  }

  /** Deleting a file keeps the tree well formed: nothing hangs below a file. */
  lemma DeleteFileSpec(fs: Tree, t: Path)
    requires WellFormed(fs) && IsFile(fs, t)
    ensures WellFormed(fs - {t})
  {
    var r := fs - {t};
    forall p | Present(r, p) && p != [] ensures IsDir(r, Parent(p)) {
      ParentIsDir(fs, p);
    }
  }
}
