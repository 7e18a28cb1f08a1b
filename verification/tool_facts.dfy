/** Properties of the file tools: which reply comes back, what changes in the
    tree and what does not, the round trips between writing and reading, the
    order `join_files` keeps, and confinement to the workspace. */
module ToolFacts {
  import opened Text
  import opened Paths
  import opened FileTree
  import opened Disk
  import opened FileTools

  /** One call of a tool, with its arguments. */
  datatype Call =
    | MakeDir(path: string, name: string)
    | RemoveDir(path: string, name: string)
    | WriteJson(path: string, serialised: string)
    | ReadJson(path: string, parse: string -> Option<string>)
    | Read(path: string)
    | Write(path: string, content: string)
    | Delete(path: string)
    | Append(path: string, content: string)
    | Join(paths: seq<string>, output: string)
    | Copy(from: string, to: string)

  /** Performs a call. With `checked`, the directory tools also check
      `base / dire_name`; without it they run as written. */
  function Apply(env: Env, fs: Tree, c: Call, checked: bool): Step {
    match c
    case MakeDir(path, name) =>
      if checked then CreateDirectoryChecked(env, fs, path, name) else CreateDirectory(env, fs, path, name)
    case RemoveDir(path, name) =>
      if checked then DeleteDirectoryChecked(env, fs, path, name) else DeleteDirectory(env, fs, path, name)
    case WriteJson(path, serialised) => WriteFileJson(env, fs, path, serialised)
    case ReadJson(path, parse) => Step(ReadFileJson(env, fs, path, parse), fs)
    case Read(path) => Step(ReadFile(env, fs, path), fs)
    case Write(path, content) => WriteFile(env, fs, path, content)
    case Delete(path) => DeleteFile(env, fs, path)
    case Append(path, content) => AppendFile(env, fs, path, content)
    case Join(paths, output) => JoinFiles(env, fs, paths, output)
    case Copy(from, to) => CopyFile(env, fs, from, to)
  }

  function ResolveAll(cwd: Path, paths: seq<string>): (r: seq<Path>)
    ensures |r| == |paths|
    ensures forall j :: 0 <= j < |paths| ==> r[j] == Resolve(cwd, paths[j])
  {
    if paths == [] then [] else [Resolve(cwd, paths[0])] + ResolveAll(cwd, paths[1..])
  }

  /** The resolved paths a call puts through the permission check, in the
      order it checks them. */
  function CheckedPaths(env: Env, c: Call, checked: bool): seq<Path> {
    match c
    case MakeDir(path, name) =>
      var base := Resolve(env.cwd, path);
      if checked then [base, Resolve(env.cwd, JoinName(base, name))] else [base]
    case RemoveDir(path, name) =>
      var base := Resolve(env.cwd, path);
      if checked then [base, Resolve(env.cwd, JoinName(base, name))] else [base]
    case WriteJson(path, _) => [Resolve(env.cwd, path)]
    case ReadJson(path, _) => [Resolve(env.cwd, path)]
    case Read(path) => [Resolve(env.cwd, path)]
    case Write(path, _) => [Resolve(env.cwd, path)]
    case Delete(path) => [Resolve(env.cwd, path)]
    case Append(path, _) => [Resolve(env.cwd, path)]
    case Join(paths, output) => ResolveAll(env.cwd, paths) + [Resolve(env.cwd, output)]
    case Copy(from, to) => [Resolve(env.cwd, from), Resolve(env.cwd, to)]
  }

  // ---------------------------------------------------------------------
  // join_files: reading the inputs

  /** When every input can be read, `Collect` gives their texts in list order. */
  lemma {:induction false} CollectOk(env: Env, fs: Tree, paths: seq<string>)
    requires forall j :: 0 <= j < |paths| ==> ReadInput(env, fs, paths[j]).Ok?
    ensures Collect(env, fs, paths).Ok?
    ensures |Collect(env, fs, paths).value| == |paths|
    ensures forall j :: 0 <= j < |paths| ==> ReadInput(env, fs, paths[j]) == Ok(Collect(env, fs, paths).value[j])
    decreases |paths|
  {
    if paths != [] {
      var init := paths[..|paths| - 1];
      assert forall j :: 0 <= j < |init| ==> init[j] == paths[j];
      CollectOk(env, fs, init);
    }
  }

  /** Once a prefix of the inputs fails, the whole list fails the same way. */
  lemma {:induction false} CollectErrExtends(env: Env, fs: Tree, paths: seq<string>, k: nat)
    requires k <= |paths| && Collect(env, fs, paths[..k]).Err?
    ensures Collect(env, fs, paths) == Collect(env, fs, paths[..k])
    decreases |paths| - k
  {
    if k < |paths| {
      var init := paths[..|paths| - 1];
      assert init[..k] == paths[..k];
      CollectErrExtends(env, fs, init, k);
    } else {
      assert paths[..k] == paths;
    }
  }

  /** The reply of `Collect` on failure is that of the first unreadable input. */
  lemma CollectFails(env: Env, fs: Tree, paths: seq<string>, k: nat)
    requires k < |paths| && ReadInput(env, fs, paths[k]).Err?
    requires forall j :: 0 <= j < k ==> ReadInput(env, fs, paths[j]).Ok?
    ensures Collect(env, fs, paths) == Err(ReadInput(env, fs, paths[k]).error)
  {
    var upto := paths[..k + 1];
    assert upto[..k] == paths[..k];
    assert forall j :: 0 <= j < k ==> paths[..k][j] == paths[j];
    CollectOk(env, fs, paths[..k]);
    assert Collect(env, fs, upto) == Err(ReadInput(env, fs, paths[k]).error);
    CollectErrExtends(env, fs, paths, k + 1);
  }

  // ---------------------------------------------------------------------
  // the permission check

  /** Whatever tool is called, a checked path outside the workspace means the
      tree is left as it was and no success is reported; when it is the first
      path checked, the reply is the permission message. As written, the
      directory tools check `base` only. */
  lemma OutsideChangesNothing(env: Env, fs: Tree, c: Call, checked: bool, i: nat)
    requires i < |CheckedPaths(env, c, checked)| && !Permitted(env.root, CheckedPaths(env, c, checked)[i])
    ensures Apply(env, fs, c, checked).fs == fs
    ensures !Succeeded(Apply(env, fs, c, checked).reply)
    ensures i == 0 ==> Apply(env, fs, c, checked).reply == Denied(env)
  {
    if c.Join? {
      JoinOutside(env, fs, c.paths, c.output, i);
    } else if c.MakeDir? || c.RemoveDir? {
      DirectoryToolOutside(env, fs, c, checked, i);
    } else if c.Copy? {
      CopyOutside(env, fs, c, checked, i);
    } else {
      OnePathOutside(env, fs, c, checked, i);
    }
  }

  lemma DirectoryToolOutside(env: Env, fs: Tree, c: Call, checked: bool, i: nat)
    requires c.MakeDir? || c.RemoveDir?
    requires i < |CheckedPaths(env, c, checked)| && !Permitted(env.root, CheckedPaths(env, c, checked)[i])
    ensures Apply(env, fs, c, checked).fs == fs
    ensures !Succeeded(Apply(env, fs, c, checked).reply)
    ensures i == 0 ==> Apply(env, fs, c, checked).reply == Denied(env)
  {
  }

  lemma CopyOutside(env: Env, fs: Tree, c: Call, checked: bool, i: nat)
    requires c.Copy?
    requires i < |CheckedPaths(env, c, checked)| && !Permitted(env.root, CheckedPaths(env, c, checked)[i])
    ensures Apply(env, fs, c, checked).fs == fs
    ensures !Succeeded(Apply(env, fs, c, checked).reply)
    ensures i == 0 ==> Apply(env, fs, c, checked).reply == Denied(env)
  {
  }

  lemma OnePathOutside(env: Env, fs: Tree, c: Call, checked: bool, i: nat)
    requires !c.Join? && !c.MakeDir? && !c.RemoveDir? && !c.Copy?
    requires i < |CheckedPaths(env, c, checked)| && !Permitted(env.root, CheckedPaths(env, c, checked)[i])
    ensures Apply(env, fs, c, checked).fs == fs
    ensures !Succeeded(Apply(env, fs, c, checked).reply)
    ensures i == 0 ==> Apply(env, fs, c, checked).reply == Denied(env)
  {
  }

  lemma JoinOutside(env: Env, fs: Tree, paths: seq<string>, output: string, i: nat)
    requires i <= |paths|
    requires !Permitted(env.root, if i < |paths| then Resolve(env.cwd, paths[i]) else Resolve(env.cwd, output))
    ensures JoinFiles(env, fs, paths, output).fs == fs
    ensures !Succeeded(JoinFiles(env, fs, paths, output).reply)
    ensures i == 0 ==> JoinFiles(env, fs, paths, output).reply == Denied(env)
  {
    if i == |paths| && forall j :: 0 <= j < |paths| ==> ReadInput(env, fs, paths[j]).Ok? {
      CollectOk(env, fs, paths);
      assert JoinFiles(env, fs, paths, output) == Step(Denied(env), fs);
    } else {
      var j := if i < |paths| then i else var j :| 0 <= j < |paths| && ReadInput(env, fs, paths[j]).Err?; j;
      assert ReadInput(env, fs, paths[j]).Err?;
      FirstFailure(env, fs, paths, j);
      var bad :| 0 <= bad <= j && ReadInput(env, fs, paths[bad]).Err?
                 && forall m :: 0 <= m < bad ==> ReadInput(env, fs, paths[m]).Ok?;
      CollectFails(env, fs, paths, bad);
      var e := ReadInput(env, fs, paths[bad]).error;
      InputErrorIsFailure(env, fs, paths[bad]);
      assert JoinFiles(env, fs, paths, output) == Step(e, fs);
    }
  }

  lemma InputErrorIsFailure(env: Env, fs: Tree, path: string)
    requires ReadInput(env, fs, path).Err?
    ensures !Succeeded(ReadInput(env, fs, path).error)
    ensures !Permitted(env.root, Resolve(env.cwd, path)) ==> ReadInput(env, fs, path).error == Denied(env)
  {
  }

  /** Below an unreadable input there is a first one. */
  lemma {:induction false} FirstFailure(env: Env, fs: Tree, paths: seq<string>, i: nat)
    requires i < |paths| && ReadInput(env, fs, paths[i]).Err?
    ensures exists bad :: 0 <= bad <= i && ReadInput(env, fs, paths[bad]).Err?
                          && forall j :: 0 <= j < bad ==> ReadInput(env, fs, paths[j]).Ok?
    decreases i
  {
    if i > 0 && !(forall j :: 0 <= j < i ==> ReadInput(env, fs, paths[j]).Ok?) {
      var j :| 0 <= j < i && ReadInput(env, fs, paths[j]).Err?;
      FirstFailure(env, fs, paths, j);
    }
  }

  // ---------------------------------------------------------------------
  // writing, appending and reading back

  /** `mkdir` of the parents never makes `t` itself a directory, unless `t` is `/`. */
  lemma ParentsExcludeTarget(fs: Tree, t: Path)
    requires t != []
    ensures t !in Ancestry(Parent(t))
    ensures IsDir(MakeDirs(fs, Parent(t)), t) <==> IsDir(fs, t)
  {
  }

  /** `write_file` succeeds exactly when the path is inside the workspace, no
      parent is a file and the path is no directory; it then creates the
      missing parents, leaves every other entry alone, and `read_file` on the
      same argument returns the written content with its line endings made
      `\n`, which is exactly the content when it holds no `\r`. */
  lemma WriteThenRead(env: Env, fs: Tree, path: string, content: string)
    requires WellFormed(fs)
    ensures var t := Resolve(env.cwd, path);
            var s := WriteFile(env, fs, path, content);
      && WellFormed(s.fs)
      && (s.reply.Written? <==> Permitted(env.root, t) && CanMakeDirs(fs, Parent(t)) && t != [] && !IsDir(fs, t))
      && (s.reply.Written? ==>
            && ReadFile(env, s.fs, path) == Content(Universal(content))
            && ('\r' !in content ==> ReadFile(env, s.fs, path) == Content(content))
            && (forall k :: 0 <= k < |t| ==> IsDir(s.fs, t[..k]))
            && s.fs.Keys == fs.Keys + Ancestry(Parent(t)) + {t}
            && (forall p :: p in fs && p != t ==> s.fs[p] == fs[p]))
      && (!s.reply.Written? && t != [] ==> s.fs == fs)
  {
    var t := Resolve(env.cwd, path);
    var s := WriteFile(env, fs, path, content);
    if Permitted(env.root, t) {
      assert s == Store(fs, t, content, Written(Render(t)));
      StoreSpec(fs, t, content, Written(Render(t)));
      if s.reply.Written? {
        ParentPrefixes(t);
        assert s.fs[t] == File(content);
        if '\r' !in content {
          UniversalKeepsPlain(content);
        }
      }
    }
  }

  lemma ParentPrefixes(t: Path)
    requires t != []
    ensures forall k :: 0 <= k < |t| ==> t[..k] == Parent(t)[..k]
  {
  }

  /** What `Store` does to the tree: parents made, then `t` written unless it
      is a directory. */
  lemma StoreSpec(fs: Tree, t: Path, text: string, done: Reply)
    requires WellFormed(fs)
    ensures var s := Store(fs, t, text, done);
      && WellFormed(s.fs)
      && (s.reply == done <==> CanMakeDirs(fs, Parent(t)) && t != [] && !IsDir(fs, t))
      && (s.reply == done ==>
            && s.fs == MakeDirs(fs, Parent(t))[t := File(text)]
            && s.fs.Keys == fs.Keys + Ancestry(Parent(t)) + {t}
            && (forall k :: 0 <= k <= |Parent(t)| ==> IsDir(s.fs, Parent(t)[..k]))
            && (forall p :: p in fs && p != t ==> s.fs[p] == fs[p]))
      && (s.reply != done && t != [] ==> s.fs == fs)
      && (s.reply != done ==> s.reply == Raised || s.reply == WriteFailed(Render(t)))
    requires done != Raised && done != WriteFailed(Render(t))
  {
    if CanMakeDirs(fs, Parent(t)) {
      var made := MakeDirs(fs, Parent(t));
      MakeDirsSpec(fs, Parent(t));
      if t == [] {
        assert [] in Ancestry(Parent(t));
        assert IsDir(made, t);
      } else {
        ParentsExcludeTarget(fs, t);
        if IsDir(fs, t) {
          ExistingParents(fs, t);
          assert made == fs;
        } else {
          assert Parent(t) == Parent(t)[..|Parent(t)|];
          PutFileSpec(made, t, File(text));
        }
      }
    }
  }

  /** In a well-formed tree every ancestor of an entry is an existing directory,
      so making the parents of an existing entry changes nothing. */
  lemma ExistingParents(fs: Tree, t: Path)
    requires WellFormed(fs) && t in fs
    ensures forall k :: 0 <= k < |t| ==> IsDir(fs, t[..k])
    ensures CanMakeDirs(fs, Parent(t)) && MakeDirs(fs, Parent(t)) == fs
  {
    assert t[..|t|] == t;
    AncestorsAreDirs(fs, t);
    assert forall k :: 0 <= k <= |Parent(t)| ==> Parent(t)[..k] == t[..k];
    forall q | q in Ancestry(Parent(t)) ensures q in fs {
      var k :| 0 <= k <= |Parent(t)| && q == Parent(t)[..k];
      if t == [] { assert q == []; }
    }
  }

  /** `append_file` succeeds under the same conditions as `write_file`; the
      file then holds its old content followed by the new, or just the new
      content when it did not exist. `read_file` returns that with its line
      endings made `\n`: the old reading followed by the new one, unless the
      old content ends in `\r` and the new starts with `\n`. */
  lemma AppendThenRead(env: Env, fs: Tree, path: string, content: string)
    requires WellFormed(fs)
    ensures var t := Resolve(env.cwd, path);
            var s := AppendFile(env, fs, path, content);
      && WellFormed(s.fs)
      && (s.reply.Appended? <==> Permitted(env.root, t) && CanMakeDirs(fs, Parent(t)) && t != [] && !IsDir(fs, t))
      && (s.reply.Appended? ==>
            && s.fs[t] == (if t in fs then Extended(fs[t], content) else File(content))
            && (t in fs && fs[t].File? ==> ReadFile(env, s.fs, path) == Content(Universal(fs[t].text + content)))
            && (t in fs && fs[t].File? && (fs[t].text == [] || fs[t].text[|fs[t].text| - 1] != '\r') ==>
                  ReadFile(env, s.fs, path) == Content(Universal(fs[t].text) + Universal(content)))
            && (t in fs && fs[t].File? && '\r' !in fs[t].text + content ==>
                  ReadFile(env, s.fs, path) == Content(fs[t].text + content))
            && (t !in fs ==> ReadFile(env, s.fs, path) == Content(Universal(content)))
            && s.fs.Keys == fs.Keys + Ancestry(Parent(t)) + {t}
            && (forall p :: p in fs && p != t ==> s.fs[p] == fs[p]))
      && (!s.reply.Appended? && t != [] ==> s.fs == fs)
  {
    var t := Resolve(env.cwd, path);
    if Permitted(env.root, t) && CanMakeDirs(fs, Parent(t)) {
      var made := MakeDirs(fs, Parent(t));
      MakeDirsSpec(fs, Parent(t));
      if t == [] {
        assert [] in Ancestry(Parent(t));
      } else {
        ParentsExcludeTarget(fs, t);
        if IsDir(fs, t) {
          ExistingParents(fs, t);
        } else {
          assert Parent(t) == Parent(t)[..|Parent(t)|];
          var n := if t in made then Extended(made[t], content) else File(content);
          PutFileSpec(made, t, n);
          var s := AppendFile(env, fs, path, content);
          if n.File? {
            assert ReadFile(env, s.fs, path) == Content(Universal(n.text)) by {
              assert s.fs[t] == n;
            }
          }
          if t in fs && fs[t].File? {
            AppendedReading(fs[t].text, content);
          }
        }
      }
    }
  }

  /** Reading back old content with new content appended. */
  lemma AppendedReading(before: string, content: string)
    ensures before == [] || before[|before| - 1] != '\r' ==>
      Universal(before + content) == Universal(before) + Universal(content)
    ensures '\r' !in before + content ==> Universal(before + content) == before + content
  {
    if before == [] || before[|before| - 1] != '\r' {
      UniversalConcat(before, content);
    }
    if '\r' !in before + content {
      UniversalKeepsPlain(before + content);
    }
  }

  /** `write_file_json` refuses a path whose suffix is not `.json` before it
      creates any directory; on a `.json` path it behaves as `write_file` with
      the serialised text, and `read_file_json` then returns what the parser
      makes of that text read back in text mode. */
  lemma WriteJsonChecksSuffix(env: Env, fs: Tree, path: string, serialised: string, parse: string -> Option<string>)
    requires WellFormed(fs)
    ensures var t := Resolve(env.cwd, path);
            var s := WriteFileJson(env, fs, path, serialised);
      && (Permitted(env.root, t) && !IsJson(t) ==> s == Step(NotJson(Render(t)), fs))
      && (IsJson(t) ==> s == WriteFile(env, fs, path, serialised))
      && (s.reply.Written? && parse(Universal(serialised)).Some? ==>
            ReadFileJson(env, s.fs, path, parse) == Content(parse(Universal(serialised)).value))
  {
    WriteThenRead(env, fs, path, serialised);
  }

  /** Every input of `join_files` is a readable file inside the workspace. */
  predicate AllReadable(env: Env, fs: Tree, paths: seq<string>) {
    forall j :: 0 <= j < |paths| ==> ReadInput(env, fs, paths[j]).Ok?
  }

  /** `join_files` writes only when every input is a readable file inside the
      workspace and the output can be written; the output then holds the
      inputs' texts, as `read_text` returns them, in list order with one
      newline between neighbours, and every other entry is as it was. */
  lemma JoinFilesSpec(env: Env, fs: Tree, paths: seq<string>, output: string)
    requires WellFormed(fs)
    ensures WellFormed(JoinFiles(env, fs, paths, output).fs)
    ensures var o := Resolve(env.cwd, output);
      JoinFiles(env, fs, paths, output).reply.Joined? <==>
        AllReadable(env, fs, paths) && Permitted(env.root, o) && CanMakeDirs(fs, Parent(o)) && o != [] && !IsDir(fs, o)
    ensures var o := Resolve(env.cwd, output);
            var s := JoinFiles(env, fs, paths, output);
      s.reply.Joined? ==>
        && Collect(env, fs, paths).Ok?
        && var texts := Collect(env, fs, paths).value;
           && |texts| == |paths|
           && (forall j :: 0 <= j < |paths| ==> ReadInput(env, fs, paths[j]) == Ok(texts[j]))
           && (forall j :: 0 <= j < |paths| ==>
                 var t := Resolve(env.cwd, paths[j]);
                 t in fs && fs[t].File? && texts[j] == Universal(fs[t].text))
           && s.fs[o] == File(JoinWith(texts, '\n'))
           && (forall p :: p in fs && p != o ==> s.fs[p] == fs[p])
  {
    var o := Resolve(env.cwd, output);
    if AllReadable(env, fs, paths) {
      CollectOk(env, fs, paths);
      if Permitted(env.root, o) {
        StoreSpec(fs, o, JoinWith(Collect(env, fs, paths).value, '\n'), Joined(Render(o)));
      }
    } else {
      JoinFirstError(env, fs, paths, output);
    }
  }

  /** When an input cannot be read, `join_files` gives the reply of the first
      such input, before it looks at the output path, and changes nothing. */
  lemma JoinFirstError(env: Env, fs: Tree, paths: seq<string>, output: string)
    requires !AllReadable(env, fs, paths)
    ensures exists k :: 0 <= k < |paths| && ReadInput(env, fs, paths[k]).Err?
                        && (forall j :: 0 <= j < k ==> ReadInput(env, fs, paths[j]).Ok?)
                        && JoinFiles(env, fs, paths, output) == Step(ReadInput(env, fs, paths[k]).error, fs)
  {
    var j :| 0 <= j < |paths| && ReadInput(env, fs, paths[j]).Err?;
    FirstFailure(env, fs, paths, j);
    var k :| 0 <= k <= j && ReadInput(env, fs, paths[k]).Err?
             && forall m :: 0 <= m < k ==> ReadInput(env, fs, paths[m]).Ok?;
    CollectFails(env, fs, paths, k);
  }

  /** Two readable inputs give the first text, one newline, the second text;
      when the second cannot be read the output is not touched. */
  lemma JoinTwoFiles(env: Env, fs: Tree, a: string, b: string, output: string)
    requires WellFormed(fs)
    requires ReadInput(env, fs, a).Ok?
    ensures var o := Resolve(env.cwd, output);
            var s := JoinFiles(env, fs, [a, b], output);
      && (ReadInput(env, fs, b).Ok? && Permitted(env.root, o) && CanMakeDirs(fs, Parent(o)) && o != [] && !IsDir(fs, o) ==>
            s.reply.Joined? && o in s.fs && s.fs[o] == File(ReadInput(env, fs, a).value + "\n" + ReadInput(env, fs, b).value))
      && (ReadInput(env, fs, b).Err? ==> s == Step(ReadInput(env, fs, b).error, fs))
  {
    var paths := [a, b];
    JoinFilesSpec(env, fs, paths, output);
    if ReadInput(env, fs, b).Err? {
      CollectFails(env, fs, paths, 1);
    } else {
      assert AllReadable(env, fs, paths) by {
        forall j | 0 <= j < 2 ensures ReadInput(env, fs, paths[j]).Ok? { }
      }
      CollectOk(env, fs, paths);
      var texts := Collect(env, fs, paths).value;
      assert ReadInput(env, fs, paths[0]) == Ok(texts[0]);
      assert ReadInput(env, fs, paths[1]) == Ok(texts[1]);
      assert texts[1..] == [texts[1]];
    }
  }

  /** An empty input list writes an empty output file. */
  lemma JoinNoFiles(env: Env, fs: Tree, output: string)
    requires WellFormed(fs)
    ensures var o := Resolve(env.cwd, output);
            var s := JoinFiles(env, fs, [], output);
      Permitted(env.root, o) && CanMakeDirs(fs, Parent(o)) && o != [] && !IsDir(fs, o) ==>
        s.reply.Joined? && o in s.fs && s.fs[o] == File("")
  {
    JoinFilesSpec(env, fs, [], output);
  }

  // ---------------------------------------------------------------------
  // the directory tools

  /** `base / dire_name` is absolute text. */
  lemma JoinedIsAbsolute(base: Path, name: string)
    ensures IsAbsolute(JoinName(base, name))
  {
    if !IsAbsolute(name) {
      assert (Render(base) + "/" + name)[0] == Render(base)[0] == '/';
    }
  }

  /** An absolute text resolves to a resolved path wherever the server runs. */
  lemma AbsoluteResolves(cwd: Path, s: string)
    requires IsAbsolute(s)
    ensures Canonical(Resolve(cwd, s))
  {
    ResolveCanonical([], s);
    assert Resolve(cwd, s) == Resolve([], s);
  }

  /** A well-formed tree holding a directory holds `/`. */
  lemma RootPresent(fs: Tree, d: Path)
    requires WellFormed(fs) && IsDir(fs, d)
    ensures [] in fs
  {
    AncestorsAreDirs(fs, d);
    if d != [] {
      assert d[..0] == [];
    }
  }

  /** `create_directory` as written. It fails without change when `base` is
      outside, missing or no directory, and when `base / dire_name` can be
      followed to an entry. Whatever it replies, it keeps every entry and
      adds only directories that `base / dire_name` passes through, the
      intermediate ones a `..` steps out of included; on success the
      resolved target, which was not there, is a directory. For a name
      without `..` it adds exactly the target and its missing ancestors, or
      fails without change. */
  lemma CreateDirectorySpec(env: Env, fs: Tree, path: string, name: string)
    requires WellFormed(fs)
    ensures var base := Resolve(env.cwd, path);
            var joined := JoinName(base, name);
            var target := Resolve(env.cwd, joined);
            var s := CreateDirectory(env, fs, path, name);
      && WellFormed(s.fs)
      && (forall p :: p in fs ==> p in s.fs && s.fs[p] == fs[p])
      && (forall p :: p in s.fs && p !in fs ==> s.fs[p] == Dir && p in Passes(Parts(joined)))
      && (!(Permitted(env.root, base) && IsDir(fs, base)) ==> s.fs == fs && !s.reply.Created?)
      && (Permitted(env.root, base) && IsDir(fs, base) && Traversable(fs, [], Parts(joined)) ==>
            s == Step(AlreadyExists(Shown(joined)), fs))
      && (s.reply.Created? ==> target !in fs && IsDir(s.fs, target))
      && (NoUpLevel(Parts(joined)) ==>
            && (s.reply.Created? <==>
                  Permitted(env.root, base) && IsDir(fs, base) && target !in fs && CanMakeDirs(fs, target))
            && s.fs == (if s.reply.Created? then MakeDirs(fs, target) else fs))
  {
    var base := Resolve(env.cwd, path);
    var joined := JoinName(base, name);
    var raw := Parts(joined);
    if Permitted(env.root, base) && IsDir(fs, base) {
      JoinedIsAbsolute(base, name);
      ResolveParts(env.cwd, joined);
      LocateIffTraversable(fs, [], raw);
      MkdirSpec(fs, raw, true, false);
      if NoUpLevel(raw) {
        PartsCanonical(joined);
        WalkAppends([], raw);
        RootPresent(fs, base);
        ExistsCanonical(fs, raw);
        assert raw == Resolve(env.cwd, joined);
        if raw !in fs {
          MkdirCanonical(fs, raw, false);
          assert CreateDirectory(env, fs, path, name) == MakeTarget(fs, raw, Shown(joined));
        }
      }
    }
  }

  /** Once the parts `raw` lead to a directory `t`, `rmtree` removes `t` and
      everything below it when its final `rmdir` can follow `raw` again, and
      otherwise leaves `t` emptied and reports a failure. */
  lemma RemoveTargetSpec(fs: Tree, raw: seq<string>, t: Path, shown: string)
    requires WellFormed(fs) && Locate(fs, [], raw) == Found(t) && fs[t] == Dir
    ensures RemoveTarget(fs, raw, shown) ==
      if StaysAbove(raw, t) then Step(Removed(shown), RemoveTree(fs, t))
      else Step(DeleteFailed(shown), Emptied(fs, t))
  {
    RmdirAfterEmptying(fs, raw, t);
  }

  /** `delete_directory` as written. It reaches a directory exactly when
      `base` is inside the workspace and a directory, and `base / dire_name`
      can be followed on disk to a directory. `rmtree` then empties the
      resolved target; its final `rmdir` of the unresolved path removes the
      target as well unless that path passes through a directory the
      emptying removed (a name ending in `..`) or is `/`, and then the reply
      is a failure and the target stays, empty. Otherwise nothing changes.
      For a name without `..`, only `/` fails that way. */
  lemma DeleteDirectorySpec(env: Env, fs: Tree, path: string, name: string)
    requires WellFormed(fs)
    ensures var base := Resolve(env.cwd, path);
            var joined := JoinName(base, name);
            var target := Resolve(env.cwd, joined);
            var s := DeleteDirectory(env, fs, path, name);
            var reaches := Permitted(env.root, base) && IsDir(fs, base) && Traversable(fs, [], Parts(joined)) && IsDir(fs, target);
      && WellFormed(s.fs)
      && (s.reply.Removed? <==> reaches && StaysAbove(Parts(joined), target))
      && (s.reply.DeleteFailed? <==> reaches && !StaysAbove(Parts(joined), target))
      && (s.reply.Removed? ==>
            && (forall p :: p in s.fs <==> p in fs && !Within(target, p))
            && (forall p :: p in s.fs ==> s.fs[p] == fs[p]))
      && (s.reply.DeleteFailed? ==>
            && (forall p :: p in s.fs <==> p in fs && (p == target || !Within(target, p)))
            && (forall p :: p in s.fs ==> s.fs[p] == fs[p])
            && Children(s.fs, target) == {})
      && (!s.reply.Removed? && !s.reply.DeleteFailed? ==> s.fs == fs)
      && (NoUpLevel(Parts(joined)) ==>
            (s.reply.Removed? <==> Permitted(env.root, base) && IsDir(fs, base) && IsDir(fs, target) && target != []))
  {
    var base := Resolve(env.cwd, path);
    var joined := JoinName(base, name);
    var raw := Parts(joined);
    var target := Resolve(env.cwd, joined);
    RemoveTreeSpec(fs, target);
    if Permitted(env.root, base) && IsDir(fs, base) {
      JoinedIsAbsolute(base, name);
      ResolveParts(env.cwd, joined);
      LocateIffTraversable(fs, [], raw);
      if Traversable(fs, [], raw) && IsDir(fs, target) {
        EmptiedSpec(fs, target);
        RmdirAfterEmptying(fs, raw, target);
      }
      if NoUpLevel(raw) {
        PartsCanonical(joined);
        WalkAppends([], raw);
        ExistsCanonical(fs, raw);
        assert raw == target;
        StaysAboveCanonical(raw);
        assert Traversable(fs, [], raw) && IsDir(fs, target) <==> IsDirAt(fs, raw);
      }
    }
  }

  /** `create_directory` with `base / dire_name` resolved and checked: it
      succeeds exactly when both paths are inside the workspace, `base` is a
      directory, the target is not there and no file is in its way; it then
      adds the target and its missing ancestors as directories, and
      otherwise changes nothing. */
  lemma CreateDirectoryCheckedSpec(env: Env, fs: Tree, path: string, name: string)
    requires WellFormed(fs)
    ensures var base := Resolve(env.cwd, path);
            var target := Resolve(env.cwd, JoinName(base, name));
            var s := CreateDirectoryChecked(env, fs, path, name);
      && WellFormed(s.fs)
      && (s.reply.Created? <==>
            && Permitted(env.root, base) && IsDir(fs, base) && Permitted(env.root, target)
            && target !in fs && CanMakeDirs(fs, target))
      && (s.reply.Created? ==>
            && s.fs == MakeDirs(fs, target)
            && IsDir(s.fs, target)
            && s.fs.Keys == fs.Keys + Ancestry(target)
            && (forall p :: p in fs ==> s.fs[p] == fs[p]))
      && (!s.reply.Created? ==> s.fs == fs)
  {
    var base := Resolve(env.cwd, path);
    var target := Resolve(env.cwd, JoinName(base, name));
    if Permitted(env.root, base) && IsDir(fs, base) {
      JoinedIsAbsolute(base, name);
      AbsoluteResolves(env.cwd, JoinName(base, name));
      RootPresent(fs, base);
      ExistsCanonical(fs, target);
      if target !in fs {
        MkdirCanonical(fs, target, false);
        if CanMakeDirs(fs, target) {
          MakeDirsSpec(fs, target);
          assert target == target[..|target|];
        }
      }
    }
  }

  /** `delete_directory` with `base / dire_name` resolved and checked: it
      removes exactly the target and everything below it when both paths
      are inside the workspace and both are directories, unless the target
      is `/`, which `rmtree` only empties; otherwise it changes nothing. */
  lemma DeleteDirectoryCheckedSpec(env: Env, fs: Tree, path: string, name: string)
    requires WellFormed(fs)
    ensures var base := Resolve(env.cwd, path);
            var target := Resolve(env.cwd, JoinName(base, name));
            var s := DeleteDirectoryChecked(env, fs, path, name);
            var reaches := Permitted(env.root, base) && IsDir(fs, base) && Permitted(env.root, target) && IsDir(fs, target);
      && WellFormed(s.fs)
      && (s.reply.Removed? <==> reaches && target != [])
      && (s.reply.DeleteFailed? <==> reaches && target == [])
      && s.fs == (if s.reply.Removed? then RemoveTree(fs, target)
                  else if s.reply.DeleteFailed? then Emptied(fs, target)
                  else fs)
  {
    var base := Resolve(env.cwd, path);
    var target := Resolve(env.cwd, JoinName(base, name));
    RemoveTreeSpec(fs, target);
    if Permitted(env.root, base) && IsDir(fs, base) {
      JoinedIsAbsolute(base, name);
      AbsoluteResolves(env.cwd, JoinName(base, name));
      LocateCanonical(fs, target, 0);
      assert target[..0] == [] && target[0..] == target;
      if Permitted(env.root, target) && IsDir(fs, target) {
        EmptiedSpec(fs, target);
        RmdirAfterEmptying(fs, target, target);
        StaysAboveCanonical(target);
      }
    }
  }

  /** `delete_file` removes the named file and nothing else; it refuses a
      missing path and a directory. */
  lemma DeleteFileRemovesOnlyIt(env: Env, fs: Tree, path: string)
    requires WellFormed(fs)
    ensures var t := Resolve(env.cwd, path);
            var s := DeleteFile(env, fs, path);
      && WellFormed(s.fs)
      && (s.reply.FileDeleted? <==> Permitted(env.root, t) && IsFile(fs, t))
      && (s.reply.FileDeleted? ==> s.fs == fs - {t})
      && (!s.reply.FileDeleted? ==> s.fs == fs)
      && (Permitted(env.root, t) && t !in fs ==> s.reply == FileMissing(Render(t)))
      && (Permitted(env.root, t) && IsDir(fs, t) ==> s.reply == NotAFile(Render(t)))
  {
    var t := Resolve(env.cwd, path);
    if Permitted(env.root, t) && IsFile(fs, t) {
      DeleteFileSpec(fs, t);
    }
  }

  /** Where `shutil.copy2` puts the copy: inside the target when the target is
      a directory, under the source's name; otherwise at the target. */
  function CopyTarget(fs: Tree, src: Path, t: Path): Path {
    if IsDir(fs, t) then t + [Name(src)] else t
  }

  /** `copy_file` looks at the source before the target: a source that is not
      an existing file is reported whatever the target. It copies exactly when
      both paths are inside the workspace, no parent of the target is a file,
      and the place of the copy is neither the source nor a directory; that
      place then holds the source's content and every other entry is kept. A
      failed copy leaves the tree as it was. */
  lemma CopyFileSpec(env: Env, fs: Tree, from: string, to: string)
    requires WellFormed(fs)
    ensures var src := Resolve(env.cwd, from);
            var t := Resolve(env.cwd, to);
            var s := CopyFile(env, fs, from, to);
            var dest := CopyTarget(fs, src, t);
      && WellFormed(s.fs)
      && (Permitted(env.root, src) && !IsFile(fs, src) ==> s == Step(SourceMissing(Render(src)), fs))
      && (s.reply.Copied? <==>
            && Permitted(env.root, src) && IsFile(fs, src) && Permitted(env.root, t)
            && CanMakeDirs(fs, Parent(t)) && dest != src && !IsDir(fs, dest))
      && (s.reply.Copied? ==>
            && dest in s.fs && s.fs[dest] == fs[src]
            && s.fs.Keys == fs.Keys + Ancestry(Parent(t)) + {dest}
            && (forall p :: p in fs && p != dest ==> s.fs[p] == fs[p]))
      && (!s.reply.Copied? ==> s.fs == fs)
  {
    var src := Resolve(env.cwd, from);
    var t := Resolve(env.cwd, to);
    if Permitted(env.root, src) && IsFile(fs, src) && Permitted(env.root, t) && CanMakeDirs(fs, Parent(t)) {
      var made := MakeDirs(fs, Parent(t));
      MakeDirsSpec(fs, Parent(t));
      ExistingParents(fs, src);
      assert src != [];
      assert IsDir(fs, []) by { assert src[..0] == []; }
      assert IsDir(made, t) <==> IsDir(fs, t) by {
        if t != [] { ParentsExcludeTarget(fs, t); }
      }
      var dest := CopyTarget(fs, src, t);
      if t in fs {
        ExistingParents(fs, t);
      }
      if dest != src && !IsDir(made, dest) {
        if IsDir(fs, t) {
          assert Parent(dest) == t;
        } else {
          assert t != [];
          assert Parent(t) == Parent(t)[..|Parent(t)|];
        }
        PutFileSpec(made, dest, fs[src]);
      }
    }
  }
}
