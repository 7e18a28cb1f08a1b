/** The file server as the source runs it: one object holding the file tree,
    one method per tool, each changing the tree in place. Every method is
    proved to do what the matching function of module FileTools says, so the
    lemmas of ToolFacts and Sandbox hold of it. */
module FileServer {
  import opened Text
  import opened Paths
  import opened FileTree
  import opened Disk
  import opened FileTools
  import opened ToolFacts
  import opened Sandbox

  /** No name occurs twice. */
  predicate Distinct(names: seq<string>) {
    forall i, j :: 0 <= i < j < |names| ==> names[i] != names[j]
  }

  class Workspace {
    /** The workspace root and the directory relative paths start from. */
    const env: Env
    /** Whether `create_directory` and `delete_directory` also resolve and
        check `base / dire_name` and then use the resolved path; the source
        does neither. */
    const checked: bool
    /** Every existing path and what is there. */
    var fs: Tree

    ghost predicate Valid()
      reads this
    {
      WellFormed(fs) && (checked ==> AncestorsPresent(fs, env.root))
    }

    constructor (env: Env, fs: Tree, checked: bool)
      requires WellFormed(fs) && (checked ==> AncestorsPresent(fs, env.root))
      ensures Valid()
      ensures this.env == env && this.fs == fs && this.checked == checked
    {
      this.env := env;
      this.fs := fs;
      this.checked := checked;
    }

    /** `d.mkdir(parents=True, exist_ok=True)`: fails, creating nothing, when
        a path on the way down to `d` is a file; otherwise creates the
        missing directories from the top down. */
    method MakeParents(d: Path) returns (ok: bool)
      modifies this
      ensures ok == CanMakeDirs(old(fs), d)
      ensures fs == (if ok then MakeDirs(old(fs), d) else old(fs))
    {
      var k := 0;
      while k <= |d|
        invariant 0 <= k <= |d| + 1
        invariant forall j :: 0 <= j < k && d[..j] in fs ==> fs[d[..j]] == Dir
      {
        if d[..k] in fs && fs[d[..k]] != Dir {
          return false;
        }
        k := k + 1;
      }
      ghost var before := fs;
      k := 0;
      while k <= |d|
        invariant 0 <= k <= |d| + 1
        invariant fs.Keys == before.Keys + (set j | 0 <= j < k :: d[..j])
        invariant forall p :: p in before ==> fs[p] == before[p]
        invariant forall p :: p in fs && p !in before ==> fs[p] == Dir
      {
        if d[..k] !in fs {
          fs := fs[d[..k] := Dir];
        }
        k := k + 1;
      }
      assert (set j | 0 <= j < |d| + 1 :: d[..j]) == Ancestry(d);
      return true;
    }

    /** Creates the parents of `t` and writes `text` to it; `done` is the
        success reply. */
    method Put(t: Path, text: string, done: Reply) returns (r: Reply)
      modifies this
      ensures Step(r, fs) == Store(old(fs), t, text, done)
    {
      var ok := MakeParents(Parent(t));
      if !ok {
        return Raised;
      }
      if t in fs && fs[t] == Dir {
        return WriteFailed(Render(t));
      }
      fs := fs[t := File(text)];
      return done;
    }

    /** `list_directory(path)`: one line per child of the directory, in an
        order the operating system chooses, here returned as `names`. */
    method ListDirectory(path: string) returns (r: Reply, names: seq<string>)
      ensures r == FileTools.ListDirectory(env, fs, path, names)
      ensures var t := Resolve(env.cwd, path);
        Permitted(env.root, t) && IsDir(fs, t) ==>
          && Distinct(names)
          && (forall n :: n in names <==> n in Children(fs, t))
    {
      names := [];
      var t := Resolve(env.cwd, path);
      if !Permitted(env.root, t) {
        return Denied(env), names;
      }
      if t !in fs {
        return PathMissing(Render(t)), names;
      }
      if fs[t] != Dir {
        return NotADirectory(Render(t)), names;
      }
      var remaining := Children(fs, t);
      var lines: seq<string> := [];
      while remaining != {}
        invariant remaining <= Children(fs, t)
        invariant forall n :: n in Children(fs, t) ==> (n in remaining <==> n !in names)
        invariant forall n :: n in names ==> n in Children(fs, t)
        invariant Distinct(names)
        invariant lines == Lines(fs, t, names)
        decreases |remaining|
      {
        var n :| n in remaining;
        lines := lines + [Describe(fs, t + [n])];
        names := names + [n];
        remaining := remaining - {n};
      }
      return Content(JoinWith(lines, '\n')), names;
    }

    /** One `os.mkdir` of the parts `raw`, followed from `/`. */
    method SystemMkdir(raw: seq<string>) returns (error: Option<Failure>)
      modifies this
      ensures Outcome(fs, error) == SysMkdir(old(fs), raw)
    {
      if raw == [] {
        return Some(AlreadyThere);
      }
      var parent := Locate(fs, [], raw[..|raw| - 1]);
      match parent
      case NoEntry => return Some(NoParent);
      case NotDir => return Some(FileInWay);
      case Found(d) =>
        var t := Enter(d, raw[|raw| - 1]);
        if fs[d] != Dir {
          return Some(FileInWay);
        }
        if t in fs {
          return Some(AlreadyThere);
        }
        fs := fs[t := Dir];
        return None;
    }

    /** `os.rmdir` of the parts `raw`: removes the directory they name when
        it is empty; fails, changing nothing, on `/`, on a last part that is
        not a name, on a parent that cannot be followed, and on a missing,
        non-directory or non-empty target. */
    method SystemRmdir(raw: seq<string>) returns (ok: bool)
      modifies this
      ensures ok == SysRmdir(old(fs), raw).Some?
      ensures fs == (if ok then SysRmdir(old(fs), raw).value else old(fs))
    {
      if raw == [] || !Plain(raw[|raw| - 1]) {
        return false;
      }
      var parent := Locate(fs, [], raw[..|raw| - 1]);
      if !parent.Found? || fs[parent.p] != Dir {
        return false;
      }
      var t := parent.p + [raw[|raw| - 1]];
      if !(t in fs && fs[t] == Dir) || Children(fs, t) != {} {
        return false;
      }
      fs := fs - {t};
      return true;
    }

    /** `Path(raw).mkdir(parents=parents, exist_ok=existOk)`: on a missing
        parent, makes the parent by text and tries once more. */
    method MakeDirectory(raw: seq<string>, parents: bool, existOk: bool) returns (error: Option<Failure>)
      modifies this
      ensures Outcome(fs, error) == Mkdir(old(fs), raw, parents, existOk)
      decreases |raw|, if parents then 1 else 0
    {
      error := SystemMkdir(raw);
      if error == Some(NoParent) {
        if !parents || raw == [] {
          return;
        }
        error := MakeDirectory(raw[..|raw| - 1], true, true);
        if error.Some? {
          return;
        }
        error := MakeDirectory(raw, false, existOk);
      } else if error.Some? && existOk && IsDirAt(fs, raw) {
        error := None;
      }
    }

    /** `create_directory(path, dire_name)`. */
    method CreateDirectory(path: string, name: string) returns (r: Reply)
      requires Valid()
      modifies this
      ensures Valid()
      ensures Step(r, fs) == Apply(env, old(fs), MakeDir(path, name), checked)
      ensures checked ==> Confined(env.root, old(fs), fs)
    {
      ghost var before := fs;
      var base := Resolve(env.cwd, path);
      if !Permitted(env.root, base) {
        return Denied(env);
      }
      if !(base in fs && fs[base] == Dir) {
        return PathMissing(Render(base));
      }
      var joined := JoinName(base, name);
      var raw, shown := Parts(joined), Shown(joined);
      if checked {
        raw := Resolve(env.cwd, joined);
        if !Permitted(env.root, raw) {
          return Denied(env);
        }
        shown := Render(raw);
      }
      if Exists(fs, raw) {
        r := AlreadyExists(shown);
      } else {
        var error := MakeDirectory(raw, true, false);
        r := match error
          case None => Created(shown)
          case Some(AlreadyThere) => AlreadyExists(shown)
          case Some(_) => CreateFailed(shown);
      }
      Keeps(before, MakeDir(path, name));
    }

    /** `delete_directory(path, dire_name)`. */
    method DeleteDirectory(path: string, name: string) returns (r: Reply)
      requires Valid()
      modifies this
      ensures Valid()
      ensures Step(r, fs) == Apply(env, old(fs), RemoveDir(path, name), checked)
      ensures checked ==> Confined(env.root, old(fs), fs)
    {
      ghost var before := fs;
      var base := Resolve(env.cwd, path);
      if !Permitted(env.root, base) {
        return Denied(env);
      }
      if !(base in fs && fs[base] == Dir) {
        return PathMissing(Render(base));
      }
      var joined := JoinName(base, name);
      var raw, shown := Parts(joined), Shown(joined);
      if checked {
        raw := Resolve(env.cwd, joined);
        if !Permitted(env.root, raw) {
          return Denied(env);
        }
        shown := Render(raw);
      }
      var found := Locate(fs, [], raw);
      if found.Found? && fs[found.p] == Dir {
        // `shutil.rmtree`: empty the directory reached, then `rmdir` the path
        fs := map p | p in fs && (p == found.p || !Within(found.p, p)) :: fs[p];
        var ok := SystemRmdir(raw);
        r := if ok then Removed(shown) else DeleteFailed(shown);
      } else {
        r := DirMissing(shown);
      }
      Keeps(before, RemoveDir(path, name));
    }

    /** `write_file_json(path_to_file, content)`; `serialised` is the text
        `json.dump` writes. */
    method WriteFileJson(path: string, serialised: string) returns (r: Reply)
      requires Valid()
      modifies this
      ensures Valid()
      ensures Step(r, fs) == FileTools.WriteFileJson(env, old(fs), path, serialised)
      ensures checked ==> Confined(env.root, old(fs), fs)
    {
      ghost var before := fs;
      var t := Resolve(env.cwd, path);
      if !Permitted(env.root, t) {
        return Denied(env);
      }
      if Lower(Suffix(Name(t))) != ".json" {
        return NotJson(Render(t));
      }
      r := Put(t, serialised, Written(Render(t)));
      Keeps(before, WriteJson(path, serialised));
    }

    /** `read_file_json(path_to_file)`. */
    method ReadFileJson(path: string, parse: string -> Option<string>) returns (r: Reply)
      ensures r == FileTools.ReadFileJson(env, fs, path, parse)
    {
      var t := Resolve(env.cwd, path);
      if !Permitted(env.root, t) {
        return Denied(env);
      }
      if t !in fs {
        return PathMissing(Render(t));
      }
      if fs[t] == Dir {
        return FileMissing(Render(t));
      }
      if fs[t] == Blob {
        return ReadFailed(Render(t));
      }
      var parsed := parse(Universal(fs[t].text));
      if parsed.None? {
        return ReadFailed(Render(t));
      }
      return Content(parsed.value);
    }

    /** `read_file(path_to_file)`. */
    method ReadFile(path: string) returns (r: Reply)
      ensures r == FileTools.ReadFile(env, fs, path)
    {
      var t := Resolve(env.cwd, path);
      if !Permitted(env.root, t) {
        return Denied(env);
      }
      if t !in fs {
        return PathMissing(Render(t));
      }
      if fs[t] == Dir {
        return FileMissing(Render(t));
      }
      if fs[t] == Blob {
        return ReadFailed(Render(t));
      }
      return Content(Universal(fs[t].text));
    }

    /** `write_file(path_to_file, content)`. */
    method WriteFile(path: string, content: string) returns (r: Reply)
      requires Valid()
      modifies this
      ensures Valid()
      ensures Step(r, fs) == FileTools.WriteFile(env, old(fs), path, content)
      ensures checked ==> Confined(env.root, old(fs), fs)
    {
      ghost var before := fs;
      var t := Resolve(env.cwd, path);
      if !Permitted(env.root, t) {
        return Denied(env);
      }
      r := Put(t, content, Written(Render(t)));
      Keeps(before, Write(path, content));
    }

    /** `delete_file(path_to_file)`. */
    method DeleteFile(path: string) returns (r: Reply)
      requires Valid()
      modifies this
      ensures Valid()
      ensures Step(r, fs) == FileTools.DeleteFile(env, old(fs), path)
      ensures checked ==> Confined(env.root, old(fs), fs)
    {
      ghost var before := fs;
      var t := Resolve(env.cwd, path);
      if !Permitted(env.root, t) {
        return Denied(env);
      }
      if t !in fs {
        return FileMissing(Render(t));
      }
      if fs[t] == Dir {
        return NotAFile(Render(t));
      }
      fs := fs - {t};
      r := FileDeleted(Render(t));
      Keeps(before, Delete(path));
    }

    /** `append_file(path_to_file, content)`. */
    method AppendFile(path: string, content: string) returns (r: Reply)
      requires Valid()
      modifies this
      ensures Valid()
      ensures Step(r, fs) == FileTools.AppendFile(env, old(fs), path, content)
      ensures checked ==> Confined(env.root, old(fs), fs)
    {
      ghost var before := fs;
      var t := Resolve(env.cwd, path);
      if !Permitted(env.root, t) {
        return Denied(env);
      }
      var ok := MakeParents(Parent(t));
      if !ok {
        return Raised;
      }
      if t in fs && fs[t] == Dir {
        Keeps(before, Append(path, content));
        return AppendFailed(Render(t));
      }
      if t !in fs {
        fs := fs[t := File(content)];
      } else {
        fs := fs[t := Extended(fs[t], content)];
      }
      r := Appended(Render(t));
      Keeps(before, Append(path, content));
    }

    /** One input of `join_files`. */
    method Fetch(path: string) returns (res: Result<string, Reply>)
      ensures res == ReadInput(env, fs, path)
    {
      var t := Resolve(env.cwd, path);
      if !Permitted(env.root, t) {
        return Err(Denied(env));
      }
      if t !in fs {
        return Err(FileMissing(Render(t)));
      }
      if fs[t] == Dir {
        return Err(NotAFile(Render(t)));
      }
      if fs[t] == Blob {
        return Err(ReadFailed(Render(t)));
      }
      return Ok(Universal(fs[t].text));
    }

    /** Reads the inputs of `join_files` in order, stopping at the first
        that fails. */
    method Gather(paths: seq<string>) returns (res: Result<seq<string>, Reply>)
      ensures res == Collect(env, fs, paths)
    {
      var texts: seq<string> := [];
      var i := 0;
      while i < |paths|
        invariant 0 <= i <= |paths|
        invariant Collect(env, fs, paths[..i]) == Ok(texts)
      {
        var item := Fetch(paths[i]);
        assert paths[..i + 1][..i] == paths[..i];
        if item.Err? {
          CollectErrExtends(env, fs, paths, i + 1);
          return Err(item.error);
        }
        texts := texts + [item.value];
        i := i + 1;
      }
      assert paths[..|paths|] == paths;
      return Ok(texts);
    }

    /** `join_files(path_to_files, output_file)`: reads the inputs, then
        writes them joined by newlines. */
    method JoinFiles(paths: seq<string>, output: string) returns (r: Reply)
      requires Valid()
      modifies this
      ensures Valid()
      ensures Step(r, fs) == FileTools.JoinFiles(env, old(fs), paths, output)
      ensures checked ==> Confined(env.root, old(fs), fs)
    {
      Keeps(fs, Join(paths, output));
      var texts := Gather(paths);
      if texts.Err? {
        return texts.error;
      }
      var o := Resolve(env.cwd, output);
      if !Permitted(env.root, o) {
        return Denied(env);
      }
      r := Put(o, JoinWith(texts.value, '\n'), Joined(Render(o)));
    }

    /** `copy_file(from_file_path, to_file_path)`. */
    method CopyFile(from: string, to: string) returns (r: Reply)
      requires Valid()
      modifies this
      ensures Valid()
      ensures Step(r, fs) == FileTools.CopyFile(env, old(fs), from, to)
      ensures checked ==> Confined(env.root, old(fs), fs)
    {
      ghost var before := fs;
      var s := Resolve(env.cwd, from);
      if !Permitted(env.root, s) {
        return Denied(env);
      }
      if !(s in fs && fs[s] != Dir) {
        return SourceMissing(Render(s));
      }
      var content := fs[s];
      var t := Resolve(env.cwd, to);
      if !Permitted(env.root, t) {
        return Denied(env);
      }
      var ok := MakeParents(Parent(t));
      if !ok {
        return CopyFailed;
      }
      var dest := if t in fs && fs[t] == Dir then t + [Name(s)] else t;
      if dest == s || (dest in fs && fs[dest] == Dir) {
        Keeps(before, Copy(from, to));
        return CopyFailed;
      }
      fs := fs[dest := content];
      r := Copied(Render(s), Render(t));
      Keeps(before, Copy(from, to));
    }

    /** The invariant and, when checked, confinement carry over from the tree
        `before` a call to the tree after it. */
    lemma Keeps(before: Tree, c: Call)
      requires WellFormed(before) && (checked ==> AncestorsPresent(before, env.root))
      ensures WellFormed(Apply(env, before, c, checked).fs)
      ensures checked ==>
        && Confined(env.root, before, Apply(env, before, c, checked).fs)
        && AncestorsPresent(Apply(env, before, c, checked).fs, env.root)
    {
      ToolsKeepTreeWellFormed(env, before, c, checked);
      if checked {
        CheckedToolsStayInWorkspace(env, before, c);
      }
    }
  }
}
