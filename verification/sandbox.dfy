/** Confinement of the file tools to the workspace: with `base / dire_name`
    checked, no tool call adds, removes or changes an entry outside the
    workspace root. As written, `create_directory` and `delete_directory`
    check only `base`, and a `dire_name` with `..` reaches outside. */
module Sandbox {
  import opened Text
  import opened Paths
  import opened FileTree
  import opened Disk
  import opened FileTools
  import opened ToolFacts

  /** Every entry outside `root` is the same before and after. */
  ghost predicate Confined(root: Path, before: Tree, after: Tree) {
    forall p :: !Within(root, p) ==> (p in before <==> p in after) && (p in before ==> after[p] == before[p])
  }

  /** The directories above the workspace root exist (the server creates the
      root's parents when it starts). */
  predicate AncestorsPresent(fs: Tree, root: Path) {
    forall k :: 0 <= k < |root| ==> IsDir(fs, root[..k])
  }

  lemma WithinTrans(a: Path, b: Path, c: Path)
    requires Within(a, b) && Within(b, c)
    ensures Within(a, c)
  {
    assert c[..|a|] == c[..|b|][..|a|];
  }

  /** Making the directories down to a path inside the root, or down to one
      of the root's own ancestors, creates nothing outside the root. */
  lemma MakeDirsConfined(fs: Tree, root: Path, d: Path)
    requires AncestorsPresent(fs, root)
    requires Within(root, d) || Within(d, root)
    ensures Confined(root, fs, MakeDirs(fs, d))
  {
    forall k | 0 <= k <= |d| ensures Within(root, d[..k]) || IsDir(fs, d[..k]) {
      if k < |root| {
        if Within(root, d) {
          assert d[..k] == d[..|root|][..k];
        } else {
          assert d[..k] == root[..|d|][..k];
        }
        assert d[..k] == root[..k];
      } else if Within(root, d) {
        assert d[..k][..|root|] == d[..|root|];
      } else {
        assert d == root[..|d|];
      }
    }
  }

  /** The parents of a path inside the root are inside it or above it. */
  lemma ParentNearRoot(root: Path, t: Path)
    requires Within(root, t)
    ensures Within(root, Parent(t)) || Within(Parent(t), root)
  {
    if t != [] && |t| == |root| {
      assert t == root;
      assert root[..|Parent(t)|] == Parent(t);
    } else if t != [] {
      assert Parent(t)[..|root|] == t[..|root|];
    }
  }

  /** Replacing one entry inside the root keeps confinement. */
  lemma UpdateConfined(root: Path, before: Tree, after: Tree, q: Path, n: Node)
    requires Confined(root, before, after) && Within(root, q)
    ensures Confined(root, before, after[q := n])
  {
  }

  /** What `Store` and `append_file` do stays inside the root when their
      target does. */
  lemma ParentsConfined(fs: Tree, root: Path, t: Path)
    requires AncestorsPresent(fs, root) && Within(root, t)
    ensures Confined(root, fs, MakeDirs(fs, Parent(t)))
  {
    ParentNearRoot(root, t);
    MakeDirsConfined(fs, root, Parent(t));
  }

  lemma StoreConfined(fs: Tree, root: Path, t: Path, text: string, done: Reply)
    requires AncestorsPresent(fs, root) && Within(root, t)
    ensures Confined(root, fs, Store(fs, t, text, done).fs)
  {
    if CanMakeDirs(fs, Parent(t)) {
      ParentsConfined(fs, root, t);
      UpdateConfined(root, fs, MakeDirs(fs, Parent(t)), t, File(text));
    }
  }

  /** Removing or emptying a subtree whose top is inside the root removes
      nothing outside. */
  lemma RemoveTreeConfined(fs: Tree, root: Path, t: Path)
    requires Within(root, t)
    ensures Confined(root, fs, RemoveTree(fs, t))
    ensures Confined(root, fs, Emptied(fs, t))
  {
    forall p | !Within(root, p) ensures !Within(t, p) {
      if Within(t, p) { WithinTrans(root, t, p); }
    }
  }

  /** For a name without `..`, the checked directory tools differ from the
      tools as written only in refusing a `base / dire_name` outside the
      workspace. */
  lemma CheckedDiffersOnlyOutside(env: Env, fs: Tree, path: string, name: string)
    ensures var base := Resolve(env.cwd, path);
            var joined := JoinName(base, name);
            var target := Resolve(env.cwd, joined);
            var outside := Permitted(env.root, base) && IsDir(fs, base) && !Permitted(env.root, target);
      NoUpLevel(Parts(joined)) ==>
        && CreateDirectoryChecked(env, fs, path, name) ==
             (if outside then Step(Denied(env), fs) else CreateDirectory(env, fs, path, name))
        && DeleteDirectoryChecked(env, fs, path, name) ==
             (if outside then Step(Denied(env), fs) else DeleteDirectory(env, fs, path, name))
  {
    var base := Resolve(env.cwd, path);
    var joined := JoinName(base, name);
    if NoUpLevel(Parts(joined)) {
      JoinedIsAbsolute(base, name);
      ResolveParts(env.cwd, joined);
      PartsCanonical(joined);
      WalkAppends([], Parts(joined));
      assert Resolve(env.cwd, joined) == Parts(joined);
    }
  }

  /** Every tool keeps the tree well formed, as written and checked alike. */
  lemma ToolsKeepTreeWellFormed(env: Env, fs: Tree, c: Call, checked: bool)
    requires WellFormed(fs)
    ensures WellFormed(Apply(env, fs, c, checked).fs)
  {
    match c
    case MakeDir(path, name) =>
      CreateDirectorySpec(env, fs, path, name);
      CreateDirectoryCheckedSpec(env, fs, path, name);
    case RemoveDir(path, name) =>
      DeleteDirectorySpec(env, fs, path, name);
      DeleteDirectoryCheckedSpec(env, fs, path, name);
    case WriteJson(path, serialised) =>
      WriteThenRead(env, fs, path, serialised);
      WriteJsonChecksSuffix(env, fs, path, serialised, _ => None);
    case ReadJson(path, parse) =>
    case Read(path) =>
    case Write(path, content) => WriteThenRead(env, fs, path, content);
    case Delete(path) => DeleteFileRemovesOnlyIt(env, fs, path);
    case Append(path, content) => AppendThenRead(env, fs, path, content);
    case Join(paths, output) => JoinFilesSpec(env, fs, paths, output);
    case Copy(from, to) => CopyFileSpec(env, fs, from, to);
  }

  /** The sandbox theorem: with `base / dire_name` checked, no tool call adds,
      removes or changes an entry outside the workspace root, and the
      directories above the root are still there afterwards. */
  lemma CheckedToolsStayInWorkspace(env: Env, fs: Tree, c: Call)
    requires WellFormed(fs) && AncestorsPresent(fs, env.root)
    ensures Confined(env.root, fs, Apply(env, fs, c, true).fs)
    ensures AncestorsPresent(Apply(env, fs, c, true).fs, env.root)
    ensures WellFormed(Apply(env, fs, c, true).fs)
  {
    ToolsKeepTreeWellFormed(env, fs, c, true);
    if c.MakeDir? || c.RemoveDir? {
      DirectoryToolsConfined(env, fs, c);
    } else if c.WriteJson? || c.Write? || c.Delete? {
      WritersConfined(env, fs, c);
    } else if c.Append? {
      AppendConfined(env, fs, c);
    } else if c.Join? {
      JoinConfined(env, fs, c);
    } else if c.Copy? {
      CopyConfined(env, fs, c);
    }
    ConfinedKeepsAncestors(env.root, fs, Apply(env, fs, c, true).fs);
  }

  lemma DirectoryToolsConfined(env: Env, fs: Tree, c: Call)
    requires WellFormed(fs) && AncestorsPresent(fs, env.root) && (c.MakeDir? || c.RemoveDir?)
    ensures Confined(env.root, fs, Apply(env, fs, c, true).fs)
  {
    if c.MakeDir? {
      CreateConfined(env, fs, c.path, c.name);
    } else {
      DeleteConfined(env, fs, c.path, c.name);
    }
  }

  lemma CreateConfined(env: Env, fs: Tree, path: string, name: string)
    requires WellFormed(fs) && AncestorsPresent(fs, env.root)
    ensures Confined(env.root, fs, CreateDirectoryChecked(env, fs, path, name).fs)
  {
    var target := Resolve(env.cwd, JoinName(Resolve(env.cwd, path), name));
    CreateDirectoryCheckedSpec(env, fs, path, name);
    PermittedIffWithin(env.root, target);
    if Permitted(env.root, target) {
      MakeDirsConfined(fs, env.root, target);
    }
  }

  lemma DeleteConfined(env: Env, fs: Tree, path: string, name: string)
    requires WellFormed(fs) && AncestorsPresent(fs, env.root)
    ensures Confined(env.root, fs, DeleteDirectoryChecked(env, fs, path, name).fs)
  {
    var target := Resolve(env.cwd, JoinName(Resolve(env.cwd, path), name));
    DeleteDirectoryCheckedSpec(env, fs, path, name);
    PermittedIffWithin(env.root, target);
    if Permitted(env.root, target) {
      RemoveTreeConfined(fs, env.root, target);
    }
  }

  lemma WritersConfined(env: Env, fs: Tree, c: Call)
    requires WellFormed(fs) && AncestorsPresent(fs, env.root) && (c.WriteJson? || c.Write? || c.Delete?)
    ensures Confined(env.root, fs, Apply(env, fs, c, true).fs)
  {
    var t := Resolve(env.cwd, c.path);
    PermittedIffWithin(env.root, t);
    if Permitted(env.root, t) {
      if c.WriteJson? {
        StoreConfined(fs, env.root, t, c.serialised, Written(Render(t)));
      } else if c.Write? {
        StoreConfined(fs, env.root, t, c.content, Written(Render(t)));
      }
    }
  }

  lemma AppendConfined(env: Env, fs: Tree, c: Call)
    requires WellFormed(fs) && AncestorsPresent(fs, env.root) && c.Append?
    ensures Confined(env.root, fs, Apply(env, fs, c, true).fs)
  {
    var t := Resolve(env.cwd, c.path);
    PermittedIffWithin(env.root, t);
    if Permitted(env.root, t) && CanMakeDirs(fs, Parent(t)) {
      var made := MakeDirs(fs, Parent(t));
      ParentsConfined(fs, env.root, t);
      if !IsDir(made, t) {
        var n := if t in made then Extended(made[t], c.content) else File(c.content);
        UpdateConfined(env.root, fs, made, t, n);
      }
    }
  }

  lemma JoinConfined(env: Env, fs: Tree, c: Call)
    requires WellFormed(fs) && AncestorsPresent(fs, env.root) && c.Join?
    ensures Confined(env.root, fs, Apply(env, fs, c, true).fs)
  {
    var o := Resolve(env.cwd, c.output);
    PermittedIffWithin(env.root, o);
    if Collect(env, fs, c.paths).Ok? && Permitted(env.root, o) {
      StoreConfined(fs, env.root, o, JoinWith(Collect(env, fs, c.paths).value, '\n'), Joined(Render(o)));
    }
  }

  lemma CopyConfined(env: Env, fs: Tree, c: Call)
    requires WellFormed(fs) && AncestorsPresent(fs, env.root) && c.Copy?
    ensures Confined(env.root, fs, Apply(env, fs, c, true).fs)
  {
    var src := Resolve(env.cwd, c.from);
    var t := Resolve(env.cwd, c.to);
    PermittedIffWithin(env.root, t);
    if Permitted(env.root, src) && IsFile(fs, src) && Permitted(env.root, t) && CanMakeDirs(fs, Parent(t)) {
      var made := MakeDirs(fs, Parent(t));
      ParentsConfined(fs, env.root, t);
      var dest := if IsDir(made, t) then t + [Name(src)] else t;
      assert Within(env.root, dest) by { assert dest[..|env.root|] == t[..|env.root|]; }
      UpdateConfined(env.root, fs, made, dest, fs[src]);
    }
  }

  /** Confinement keeps the directories above the root: none of them is
      inside it. */
  lemma ConfinedKeepsAncestors(root: Path, before: Tree, after: Tree)
    requires Confined(root, before, after) && AncestorsPresent(before, root)
    ensures AncestorsPresent(after, root)
  {
    forall k | 0 <= k < |root| ensures IsDir(after, root[..k]) {
      assert !Within(root, root[..k]);
    }
  }

  /** The text `/w/../x`, which the directory tools build from the base `/w`
      and the name `../x`, splits into `""`, `w`, `..` and `x`. */
  lemma SplitUpAndOver(w: string, x: string)
    requires Plain(w) && Plain(x)
    ensures Split(Render([w]) + "/" + "../" + x, '/') == ["", w, "..", x]
  {
    SplitWord(x, "", '/');
    SplitWord("..", x, '/');
    SplitWord(w, ".." + "/" + x, '/');
    SplitWord("", w + "/" + (".." + "/" + x), '/');
    assert Render([w]) == "/" + w;
    assert Render([w]) + "/" + "../" + x == "" + "/" + (w + "/" + (".." + "/" + x));
  }

  /** For the workspace `/w` and the name `../x`, `base` is `/w` and
      `base / dire_name` resolves to `/x`, outside the workspace. */
  lemma UpAndOverResolves(w: string, x: string)
    requires Plain(w) && Plain(x)
    ensures Resolve([w], Render([w])) == [w]
    ensures Resolve([w], JoinName([w], "../" + x)) == [x]
    ensures Parts(JoinName([w], "../" + x)) == [w, "..", x]
    ensures Permitted([w], [w]) && (x != w ==> !Permitted([w], [x]))
  {
    BaseResolves(w);
    SplitUpAndOver(w, x);
    var joined := JoinName([w], "../" + x);
    assert !IsAbsolute("../" + x);
    assert joined == Render([w]) + "/" + "../" + x;
    assert IsAbsolute(joined);
    assert Walk([], ["", w, "..", x]) == Walk([], [w, "..", x]);
    assert Walk([], [w, "..", x]) == Walk([w], ["..", x]);
    assert Walk([w], ["..", x]) == Walk([], [x]) == [x];
    assert ["", w, "..", x][1..] == [w, "..", x];
    assert [w, "..", x][1..] == ["..", x] && ["..", x][1..] == [x] && [x][1..] == [];
    assert Kept(["", w, "..", x]) == Kept([w, "..", x]) == [w] + Kept(["..", x]);
    assert Kept(["..", x]) == [".."] + Kept([x]) && Kept([x]) == [x];
    PermittedIffWithin([w], [w]);
    PermittedIffWithin([w], [x]);
  }

  /** The text `/w` resolves to the workspace `/w`. */
  lemma BaseResolves(w: string)
    requires Plain(w)
    ensures Render([w]) == "/" + w
    ensures Resolve([w], Render([w])) == [w]
  {
    SplitWord("", w, '/');
    SplitWord(w, "", '/');
    assert Render([w]) == "" + "/" + w;
    assert IsAbsolute(Render([w]));
    assert Walk([], ["", w]) == Walk([], [w]) == [w];
  }

  /** `create_directory("/w", "../x")` as written creates the directory `/x`
      beside the workspace `/w`, outside it; the checked tool refuses. */
  lemma CreateEscapes(w: string, x: string)
    requires Plain(w) && Plain(x) && x != w
    ensures var env := Env([w], [w]);
            var fs := map[[] := Dir, [w] := Dir];
            var s := CreateDirectory(env, fs, Render([w]), "../" + x);
      && s.reply.Created?
      && [x] in s.fs && [x] !in fs && !Within(env.root, [x])
      && CreateDirectoryChecked(env, fs, Render([w]), "../" + x) == Step(Denied(env), fs)
  {
    var fs := map[[] := Dir, [w] := Dir];
    UpAndOverResolves(w, x);
    var raw := [w, "..", x];
    assert raw[1..] == ["..", x] && ["..", x][1..] == [x] && [x][1..] == [];
    assert [w, ".."][1..] == [".."] && [".."][1..] == [];
    assert Enter([], w) == [w] && Enter([w], "..") == [] && Enter([], x) == [x];
    assert Locate(fs, [], raw) == NoEntry by {
      assert Locate(fs, [], raw) == Locate(fs, [w], ["..", x]) == Locate(fs, [], [x]) == Locate(fs, [x], []);
    }
    assert raw[..2] == [w, ".."];
    assert Locate(fs, [], [w, ".."]) == Found([]) by {
      assert Locate(fs, [], [w, ".."]) == Locate(fs, [w], [".."]) == Locate(fs, [], []);
    }
    assert SysMkdir(fs, raw) == Outcome(fs[[x] := Dir], None);
  }

  /** `delete_directory("/w", "../x")` as written removes the directory `/x`
      beside the workspace `/w`, outside it; the checked tool refuses. */
  lemma DeleteEscapes(w: string, x: string)
    requires Plain(w) && Plain(x) && x != w
    ensures var env := Env([w], [w]);
            var fs := map[[] := Dir, [w] := Dir, [x] := Dir];
            var s := DeleteDirectory(env, fs, Render([w]), "../" + x);
      && s.reply.Removed?
      && [x] in fs && [x] !in s.fs && !Within(env.root, [x])
      && DeleteDirectoryChecked(env, fs, Render([w]), "../" + x) == Step(Denied(env), fs)
  {
    UpAndOverResolves(w, x);
    RemoveUpAndOver(w, x, Shown(JoinName([w], "../" + x)));
  }

  /** `rmtree` of `/w/../x` removes `/x`. */
  lemma RemoveUpAndOver(w: string, x: string, shown: string)
    requires Plain(w) && Plain(x) && x != w
    ensures var fs := map[[] := Dir, [w] := Dir, [x] := Dir];
      RemoveTarget(fs, [w, "..", x], shown) == Step(Removed(shown), RemoveTree(fs, [x]))
  {
    var fs := map[[] := Dir, [w] := Dir, [x] := Dir];
    assert [w, "..", x][1..] == ["..", x] && ["..", x][1..] == [x] && [x][1..] == [];
    assert Enter([], w) == [w] && Enter([w], "..") == [] && Enter([], x) == [x];
    assert Locate(fs, [], [w, "..", x]) == Found([x]) by {
      assert Locate(fs, [], [w, "..", x]) == Locate(fs, [w], ["..", x]) == Locate(fs, [], [x]) == Locate(fs, [x], []);
    }
    UpAndOverStaysAbove(w, x);
    RemoveTargetSpec(fs, [w, "..", x], [x], shown);
  }

  /** Following `w/../x` passes through `/`, `/w` and `/` again, none of them
      below `/x`. */
  lemma UpAndOverStaysAbove(w: string, x: string)
    requires Plain(w) && Plain(x) && x != w
    ensures StaysAbove([w, "..", x], [x])
  {
    var raw := [w, "..", x];
    assert raw[..0] == [] && raw[..1] == [w] && raw[..2] == [w, ".."];
    assert Walk([], [w, ".."]) == Walk([w], [".."]) == [] by {
      assert [w, ".."][1..] == [".."] && [".."][1..] == [];
    }
    assert Walk([], [w]) == [w] by { assert [w][1..] == []; }
    assert !Within([x], [w]) by { assert [w][..1] == [w] != [x]; }
  }

  /** The text `/w/a/..`, built from the base `/w` and the name `a/..`,
      splits into `""`, `w`, `a` and `..`. */
  lemma SplitUpLast(w: string, a: string)
    requires Plain(w) && Plain(a)
    ensures Split(Render([w]) + "/" + (a + "/.."), '/') == ["", w, a, ".."]
  {
    SplitWord("..", "", '/');
    SplitWord(a, "..", '/');
    SplitWord(w, a + "/" + "..", '/');
    SplitWord("", w + "/" + (a + "/" + ".."), '/');
    assert Render([w]) == "/" + w;
    assert Render([w]) + "/" + (a + "/..") == "" + "/" + (w + "/" + (a + "/" + ".."));
  }

  /** `/w/a/..` has the parts `w`, `a` and `..`, and resolves to `/w`. */
  lemma UpLastResolves(w: string, a: string)
    requires Plain(w) && Plain(a)
    ensures Parts(JoinName([w], a + "/..")) == [w, a, ".."]
    ensures Resolve([w], JoinName([w], a + "/..")) == [w]
  {
    SplitUpLast(w, a);
    var name := a + "/..";
    assert name[0] == a[0] != '/';
    var joined := JoinName([w], name);
    assert joined == Render([w]) + "/" + name;
    assert IsAbsolute(joined);
    var segs := ["", w, a, ".."];
    assert segs[1..] == [w, a, ".."] && [w, a, ".."][1..] == [a, ".."] && [a, ".."][1..] == [".."];
    assert [".."][1..] == [];
    assert Kept([a, ".."]) == [a] + Kept([".."]) && Kept([".."]) == [".."];
    assert Kept(segs) == Kept([w, a, ".."]) == [w] + Kept([a, ".."]);
    assert Enter([], w) == [w] && Enter([w], a) == [w, a] && Enter([w, a], "..") == [w];
    assert Walk([], segs) == Walk([], [w, a, ".."]) == Walk([w], [a, ".."]);
    assert Walk([w], [a, ".."]) == Walk([w, a], [".."]) == Walk([w], []);
  }

  /** As written, `delete_directory("/w", "a/..")` empties `/w`, which the
      path leads to, and then fails: the final `rmdir` of `/w/a/..` goes
      through `/w/a`, which the emptying removed. The reply is a failure and
      `/w` stays, empty. */
  lemma DeleteUpLast(w: string, a: string)
    requires Plain(w) && Plain(a)
    ensures var env := Env([w], [w]);
            var fs := map[[] := Dir, [w] := Dir, [w, a] := Dir];
            var s := DeleteDirectory(env, fs, Render([w]), a + "/..");
      && Resolve(env.cwd, JoinName([w], a + "/..")) == [w]
      && s == Step(DeleteFailed(Shown(JoinName([w], a + "/.."))), map[[] := Dir, [w] := Dir])
  {
    var fs := map[[] := Dir, [w] := Dir, [w, a] := Dir];
    BaseResolves(w);
    UpLastResolves(w, a);
    PermittedIffWithin([w], [w]);
    var raw := [w, a, ".."];
    assert raw[1..] == [a, ".."] && [a, ".."][1..] == [".."] && [".."][1..] == [];
    assert Enter([], w) == [w] && Enter([w], a) == [w, a] && Enter([w, a], "..") == [w];
    assert Locate(fs, [], raw) == Locate(fs, [w], [a, ".."]) == Locate(fs, [w, a], [".."]) == Found([w]);
    assert !StaysAbove(raw, [w]) by {
      assert raw[..2] == [w, a];
      assert Walk([], [w, a]) == Walk([w], [a]) == [w, a] by { assert [w, a][1..] == [a] && [a][1..] == []; }
      assert [w, a][..1] == [w];
    }
    RemoveTargetSpec(fs, raw, [w], Shown(JoinName([w], a + "/..")));
    assert Emptied(fs, [w]) == map[[] := Dir, [w] := Dir] by {
      assert [w, a][..1] == [w];
      assert !Within([w], []);
    }
  }

  /** The text `/w/a/../b`, which the directory tools build from the base
      `/w` and the name `a/../b`, splits into `""`, `w`, `a`, `..` and `b`. */
  lemma SplitThroughUp(w: string, a: string, b: string)
    requires Plain(w) && Plain(a) && Plain(b)
    ensures Split(Render([w]) + "/" + (a + "/../" + b), '/') == ["", w, a, "..", b]
  {
    SplitWord(b, "", '/');
    SplitWord("..", b, '/');
    SplitWord(a, ".." + "/" + b, '/');
    SplitWord(w, a + "/" + (".." + "/" + b), '/');
    SplitWord("", w + "/" + (a + "/" + (".." + "/" + b)), '/');
    assert Render([w]) == "/" + w;
    assert a + "/../" + b == a + "/" + (".." + "/" + b);
    assert Render([w]) + "/" + (a + "/../" + b) == "" + "/" + (w + "/" + (a + "/" + (".." + "/" + b)));
  }

  /** `/w/a/../b` has the parts `w`, `a`, `..` and `b`, and resolves to
      `/w/b`. */
  lemma ThroughUpResolves(w: string, a: string, b: string)
    requires Plain(w) && Plain(a) && Plain(b)
    ensures Parts(JoinName([w], a + "/../" + b)) == [w, a, "..", b]
    ensures Resolve([w], JoinName([w], a + "/../" + b)) == [w, b]
  {
    SplitThroughUp(w, a, b);
    var name := a + "/../" + b;
    assert name[0] == a[0] != '/';
    var joined := JoinName([w], name);
    assert joined == Render([w]) + "/" + name;
    assert IsAbsolute(joined);
    var segs := ["", w, a, "..", b];
    assert segs[1..] == [w, a, "..", b] && [w, a, "..", b][1..] == [a, "..", b];
    assert [a, "..", b][1..] == ["..", b] && ["..", b][1..] == [b] && [b][1..] == [];
    assert Kept(["..", b]) == [".."] + Kept([b]) && Kept([b]) == [b];
    assert Kept([a, "..", b]) == [a] + Kept(["..", b]) == [a, "..", b];
    assert Kept([w, a, "..", b]) == [w] + Kept([a, "..", b]) == [w, a, "..", b];
    assert Kept(segs) == Kept([w, a, "..", b]);
    assert Walk([], segs) == Walk([], [w, a, "..", b]);
    assert Enter([], w) == [] + [w] == [w] && Enter([w], a) == [w] + [a] == [w, a];
    assert Walk([], [w, a, "..", b]) == Walk([w], [a, "..", b]);
    assert Walk([w], [a, "..", b]) == Walk([w, a], ["..", b]);
    assert Parent([w, a]) == [w];
    assert Walk([w, a], ["..", b]) == Walk([w], [b]);
    assert Walk([w], [b]) == Walk([w, b], []) == [w, b];
  }

  /** Making `/w/a/..` in a tree holding only `/w`: the parent `/w/a` is
      missing, so it is made first, and `/w/a/..` is then `/w`, which
      `exist_ok` accepts. */
  lemma MkdirUpThroughMissing(w: string, a: string)
    requires Plain(w) && Plain(a)
    ensures var fs := map[[] := Dir, [w] := Dir];
      Mkdir(fs, [w, a, ".."], true, true) == Outcome(fs[[w, a] := Dir], None)
  {
    var fs := map[[] := Dir, [w] := Dir];
    var fs1 := fs[[w, a] := Dir];
    var up := [w, a, ".."];
    assert up[..2] == [w, a] && [w, a][..1] == [w];
    assert up[1..] == [a, ".."] && [a, ".."][1..] == [".."] && [".."][1..] == [];
    assert [w, a][1..] == [a] && [a][1..] == [] && [w][1..] == [];
    assert Enter([], w) == [w] && Enter([w], a) == [w, a] && Enter([w, a], "..") == [w];
    assert Locate(fs, [], [w, a]) == Locate(fs, [w], [a]) == Locate(fs, [w, a], []) == NoEntry;
    assert SysMkdir(fs, up) == Outcome(fs, Some(NoParent));
    assert Locate(fs, [], [w]) == Locate(fs, [w], []) == Found([w]);
    assert SysMkdir(fs, [w, a]) == Outcome(fs1, None);
    assert Mkdir(fs, [w, a], true, true) == Outcome(fs1, None);
    assert Locate(fs1, [], [w, a]) == Locate(fs1, [w, a], []) == Found([w, a]);
    assert SysMkdir(fs1, up) == Outcome(fs1, Some(AlreadyThere));
    assert [w, a] in fs1 && [w] in fs1 && fs1[[w, a]] == Dir && fs1[[w]] == Dir;
    assert Locate(fs1, [], up) == Locate(fs1, [w], [a, ".."]);
    assert Locate(fs1, [w], [a, ".."]) == Locate(fs1, [w, a], [".."]);
    assert Locate(fs1, [w, a], [".."]) == Locate(fs1, [w], []) == Found([w]);
    assert IsDirAt(fs1, up);
    assert Mkdir(fs1, up, false, true) == Outcome(fs1, None);
  }

  /** Making `/w/a/../b` in a tree holding only `/w` makes `/w/a`, then
      `/w/b`. */
  lemma MkdirThroughMissing(w: string, a: string, b: string)
    requires Plain(w) && Plain(a) && Plain(b) && a != b
    ensures var fs := map[[] := Dir, [w] := Dir];
      && !Exists(fs, [w, a, "..", b])
      && Mkdir(fs, [w, a, "..", b], true, false) == Outcome(fs[[w, a] := Dir][[w, b] := Dir], None)
  {
    var fs := map[[] := Dir, [w] := Dir];
    var fs1 := fs[[w, a] := Dir];
    var raw := [w, a, "..", b];
    var up := [w, a, ".."];
    MkdirUpThroughMissing(w, a);
    assert raw[..3] == up;
    assert raw[1..] == [a, "..", b] && [a, "..", b][1..] == ["..", b];
    assert up[1..] == [a, ".."] && [a, ".."][1..] == [".."] && [".."][1..] == [];
    assert Enter([], w) == [w] && Enter([w], a) == [w, a] && Enter([w, a], "..") == [w] && Enter([w], b) == [w, b];
    assert [w, b] != [w, a] by { assert [w, b][1] != [w, a][1]; }
    assert Locate(fs, [], raw) == Locate(fs, [w, a], ["..", b]) == NoEntry;
    assert Locate(fs, [], up) == Locate(fs, [w, a], [".."]) == NoEntry;
    assert [w, a] in fs1 && [w] in fs1 && fs1[[w, a]] == Dir && fs1[[w]] == Dir;
    assert Locate(fs1, [], up) == Locate(fs1, [w], [a, ".."]);
    assert Locate(fs1, [w], [a, ".."]) == Locate(fs1, [w, a], [".."]);
    assert Locate(fs1, [w, a], [".."]) == Locate(fs1, [w], []) == Found([w]);
    assert SysMkdir(fs1, raw) == Outcome(fs1[[w, b] := Dir], None);
  }

  /** As written, `create_directory("/w", "a/../b")` in a tree holding only
      `/w` creates `/w/a` on the way, because the system has to pass through
      it, and then `/w/b`; `/w/a` is no ancestor of the resolved target
      `/w/b`, which is all the checked tool creates. */
  lemma CreateStepsThroughMissing(w: string, a: string, b: string)
    requires Plain(w) && Plain(a) && Plain(b) && a != b
    ensures var env := Env([w], [w]);
            var fs := map[[] := Dir, [w] := Dir];
            var name := a + "/../" + b;
            var s := CreateDirectory(env, fs, Render([w]), name);
      && Resolve(env.cwd, JoinName([w], name)) == [w, b]
      && s.reply.Created?
      && s.fs == fs[[w, a] := Dir][[w, b] := Dir]
      && [w, a] !in Ancestry([w, b])
      && CreateDirectoryChecked(env, fs, Render([w]), name) ==
           Step(Created(Render([w, b])), fs[[w, b] := Dir])
  {
    var fs := map[[] := Dir, [w] := Dir];
    BaseResolves(w);
    ThroughUpResolves(w, a, b);
    MkdirThroughMissing(w, a, b);
    assert [w, a] !in Ancestry([w, b]) by {
      forall k | 0 <= k <= 2 ensures [w, b][..k] != [w, a] {
        if k == 2 {
          assert [w, b][..k][1] == b;
        }
      }
    }
    assert WellFormed(fs) by {
      forall p | Present(fs, p) && p != [] ensures IsDir(fs, Parent(p)) {
        assert p == [w];
      }
    }
    assert Parent([w, b]) == [w];
    assert Canonical([w, b]);
    MakeDirsUnderDir(fs, [w, b]);
    ExistsCanonical(fs, [w, b]);
    MkdirCanonical(fs, [w, b], false);
    PermittedIffWithin([w], [w, b]);
    PermittedIffWithin([w], [w]);
  }

  /** As written, `delete_directory("/w", "a/../b")` with `/w/a` missing
      replies that the directory is missing and removes nothing, although
      the path resolves to the directory `/w/b`, which the checked tool
      removes. */
  lemma DeleteStopsAtMissing(w: string, a: string, b: string)
    requires Plain(w) && Plain(a) && Plain(b) && a != b
    ensures var env := Env([w], [w]);
            var fs := map[[] := Dir, [w] := Dir, [w, b] := Dir];
            var name := a + "/../" + b;
            var s := DeleteDirectory(env, fs, Render([w]), name);
      && IsDir(fs, Resolve(env.cwd, JoinName([w], name)))
      && s == Step(DirMissing(Shown(JoinName([w], name))), fs)
      && DeleteDirectoryChecked(env, fs, Render([w]), name) ==
           Step(Removed(Render([w, b])), RemoveTree(fs, [w, b]))
  {
    var fs := map[[] := Dir, [w] := Dir, [w, b] := Dir];
    BaseResolves(w);
    ThroughUpResolves(w, a, b);
    var raw := [w, a, "..", b];
    assert raw[1..] == [a, "..", b] && [a, "..", b][1..] == ["..", b];
    assert [w, b][1..] == [b] && [b][1..] == [];
    assert Enter([], w) == [w] && Enter([w], a) == [w, a] && Enter([w], b) == [w, b];
    assert [w, a] != [w, b] by { assert [w, a][1] != [w, b][1]; }
    assert Locate(fs, [], raw) == Locate(fs, [w, a], ["..", b]) == NoEntry;
    PermittedIffWithin([w], [w, b]);
    PermittedIffWithin([w], [w]);
    RemoveChild(w, b);
  }

  /** `rmtree` of the resolved `/w/b` removes it. */
  lemma RemoveChild(w: string, b: string)
    requires Plain(w) && Plain(b)
    ensures var fs := map[[] := Dir, [w] := Dir, [w, b] := Dir];
      RemoveTarget(fs, [w, b], Render([w, b])) == Step(Removed(Render([w, b])), RemoveTree(fs, [w, b]))
  {
    var fs := map[[] := Dir, [w] := Dir, [w, b] := Dir];
    assert [w, b][1..] == [b] && [b][1..] == [];
    assert Enter([], w) == [w] && Enter([w], b) == [w, b];
    assert Locate(fs, [], [w, b]) == Locate(fs, [w, b], []) == Found([w, b]);
    assert Canonical([w, b]);
    StaysAboveCanonical([w, b]);
    RemoveTargetSpec(fs, [w, b], [w, b], Render([w, b]));
  }
}
