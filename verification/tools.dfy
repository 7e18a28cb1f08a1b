/** What each file tool of `mcp_server/filesystem.py` does, as a function from
    the tree before the call to the reply and the tree after it. The class in
    module FileServer performs the same tools step by step and is proved equal
    to these functions. */
module FileTools {
  import opened Text
  import opened Paths
  import opened FileTree
  import opened Disk

  /** Where the tools run: the resolved workspace root, and the resolved
      current directory that relative arguments start from. */
  datatype Env = Env(root: Path, cwd: Path)

  /** Every reply a tool gives, one constructor per message text. The `at`,
      `source` and `target` fields hold the path as the message prints it. */
  datatype Reply =
    | NoPermission(root: string)
    | PathMissing(at: string)
    | NotADirectory(at: string)
    | FileMissing(at: string)
    | NotAFile(at: string)
    | SourceMissing(at: string)
    | AlreadyExists(at: string)
    | CreateFailed(at: string)
    | DirMissing(at: string)
    | DeleteFailed(at: string)
    | NotJson(at: string)
    | WriteFailed(at: string)
    | ReadFailed(at: string)
    | AppendFailed(at: string)
    | CopyFailed
    | Created(at: string)
    | Removed(at: string)
    | Written(at: string)
    | FileDeleted(at: string)
    | Appended(at: string)
    | Joined(at: string)
    | Copied(source: string, target: string)
    | Content(text: string)
    | Raised  // an exception leaves the tool: a parent `mkdir` outside any `try`

  /** The text of a reply (the operating system's exception text, which the
      failure messages append, is not modelled). */
  function Message(r: Reply): string {
    match r
    case NoPermission(root) => "没有权限，不在工作目录" + root + "下"
    case PathMissing(at) => "路径不存在: " + at
    case NotADirectory(at) => "不是一个目录: " + at
    case FileMissing(at) => "文件不存在: " + at
    case NotAFile(at) => "不是文件: " + at
    case SourceMissing(at) => "源文件不存在: " + at
    case AlreadyExists(at) => "创建失败，目录以存在: " + at
    case CreateFailed(at) => "创建失败: " + at
    case DirMissing(at) => "删除失败，目录不存在: " + at
    case DeleteFailed(at) => "删除失败: " + at
    case NotJson(at) => "文件类型非.json: " + at
    case WriteFailed(at) => "写入失败: " + at
    case ReadFailed(at) => "读取失败: " + at
    case AppendFailed(at) => "追加失败: " + at
    case CopyFailed => "拷贝失败: "
    case Created(at) => "目录创建成功: " + at
    case Removed(at) => "目录删除成功: " + at
    case Written(at) => "文件写入成功: " + at
    case FileDeleted(at) => "文件删除成功: " + at
    case Appended(at) => "文件追加成功: " + at
    case Joined(at) => "文件合并成功: " + at
    case Copied(source, target) => "文件拷贝成功: " + source + " -> " + target
    case Content(text) => text
    case Raised => ""
  }

  /** The replies that report that the tool did what it was asked. */
  predicate Succeeded(r: Reply) {
    r.Created? || r.Removed? || r.Written? || r.FileDeleted? || r.Appended? || r.Joined? || r.Copied? || r.Content?
  }

  function Denied(env: Env): Reply {
    NoPermission(Render(env.root))
  }

  datatype Step = Step(reply: Reply, fs: Tree)

  /** One line of `list_directory`: the entry's name, a tab, and its kind. */
  function Describe(fs: Tree, p: Path): string {
    Name(p) + "\t" + (if IsDir(fs, p) then "目录" else "文件")
  }

  /** The lines `list_directory` prints for the children `names` of `d`, in
      that order. */
  function Lines(fs: Tree, d: Path, names: seq<string>): (r: seq<string>)
    ensures |r| == |names|
    ensures forall i :: 0 <= i < |names| ==> r[i] == Describe(fs, d + [names[i]])
  {
    if names == [] then [] else Lines(fs, d, names[..|names| - 1]) + [Describe(fs, d + [names[|names| - 1]])]
  }

  /** `list_directory(path)`; `names` are the directory's children in the
      order the operating system lists them. */
  function ListDirectory(env: Env, fs: Tree, path: string, names: seq<string>): Reply {
    var t := Resolve(env.cwd, path);
    if !Permitted(env.root, t) then Denied(env)
    else if t !in fs then PathMissing(Render(t))
    else if fs[t] != Dir then NotADirectory(Render(t))
    else Content(JoinWith(Lines(fs, t, names), '\n'))
  }

  /** The rest of `create_directory` once the target is formed: `raw` holds
      the parts the operating system follows, `shown` the text the messages
      print. `exists()` comes first, then `mkdir(parents=True,
      exist_ok=False)`; directories it made before it raised stay. */
  function MakeTarget(fs: Tree, raw: seq<string>, shown: string): Step {
    if Exists(fs, raw) then Step(AlreadyExists(shown), fs)
    else
      var o := Mkdir(fs, raw, true, false);
      match o.error
      case None => Step(Created(shown), o.fs)
      case Some(AlreadyThere) => Step(AlreadyExists(shown), o.fs)
      case Some(_) => Step(CreateFailed(shown), o.fs)
  }

  /** The rest of `delete_directory` once the target is formed: the parts
      `raw` must lead to a directory `t`. `rmtree` empties `t`, then calls
      `rmdir` on `raw` itself; when that fails the emptied `t` stays. */
  function RemoveTarget(fs: Tree, raw: seq<string>, shown: string): Step {
    match Locate(fs, [], raw)
    case Found(t) =>
      if fs[t] != Dir then Step(DirMissing(shown), fs)
      else
        var emptied := Emptied(fs, t);
        (match SysRmdir(emptied, raw)
         case Some(after) => Step(Removed(shown), after)
         case None => Step(DeleteFailed(shown), emptied))
    case _ => Step(DirMissing(shown), fs)
  }

  /** `create_directory(path, dire_name)` as written: only `base` is checked,
      and `base / dire_name` goes to the system unresolved. */
  function CreateDirectory(env: Env, fs: Tree, path: string, name: string): Step {
    var base := Resolve(env.cwd, path);
    if !Permitted(env.root, base) then Step(Denied(env), fs)
    else if !IsDir(fs, base) then Step(PathMissing(Render(base)), fs)  // missing, or not a directory
    else
      var joined := JoinName(base, name);
      MakeTarget(fs, Parts(joined), Shown(joined))
  }

  /** `delete_directory(path, dire_name)` as written: only `base` is checked,
      and `base / dire_name` goes to the system unresolved. */
  function DeleteDirectory(env: Env, fs: Tree, path: string, name: string): Step {
    var base := Resolve(env.cwd, path);
    if !Permitted(env.root, base) then Step(Denied(env), fs)
    else if !IsDir(fs, base) then Step(PathMissing(Render(base)), fs)
    else
      var joined := JoinName(base, name);
      RemoveTarget(fs, Parts(joined), Shown(joined))
  }

  /** `create_directory` with `base / dire_name` resolved and checked, as
      every other tool does with its path, and the resolved path used. */
  function CreateDirectoryChecked(env: Env, fs: Tree, path: string, name: string): Step {
    var base := Resolve(env.cwd, path);
    if !Permitted(env.root, base) then Step(Denied(env), fs)
    else if !IsDir(fs, base) then Step(PathMissing(Render(base)), fs)
    else
      var target := Resolve(env.cwd, JoinName(base, name));
      if !Permitted(env.root, target) then Step(Denied(env), fs)
      else MakeTarget(fs, target, Render(target))
  }

  /** `delete_directory` with `base / dire_name` resolved and checked, and
      the resolved path used. */
  function DeleteDirectoryChecked(env: Env, fs: Tree, path: string, name: string): Step {
    var base := Resolve(env.cwd, path);
    if !Permitted(env.root, base) then Step(Denied(env), fs)
    else if !IsDir(fs, base) then Step(PathMissing(Render(base)), fs)
    else
      var target := Resolve(env.cwd, JoinName(base, name));
      if !Permitted(env.root, target) then Step(Denied(env), fs)
      else RemoveTarget(fs, target, Render(target))
  }

  /** Creates the parents of `t`, then opens `t` for writing and writes `text`;
      `done` is the success reply. The `mkdir` raises when a parent is a file. */
  function Store(fs: Tree, t: Path, text: string, done: Reply): Step {
    if !CanMakeDirs(fs, Parent(t)) then Step(Raised, fs)
    else
      var made := MakeDirs(fs, Parent(t));
      if IsDir(made, t) then Step(WriteFailed(Render(t)), made)
      else Step(done, made[t := File(text)])
  }

  /** `write_file_json(path_to_file, content)`; `serialised` is what `json.dump`
      writes for `content`. */
  function WriteFileJson(env: Env, fs: Tree, path: string, serialised: string): Step {
    var t := Resolve(env.cwd, path);
    if !Permitted(env.root, t) then Step(Denied(env), fs)
    else if !IsJson(t) then Step(NotJson(Render(t)), fs)
    else Store(fs, t, serialised, Written(Render(t)))
  }

  /** `read_file_json(path_to_file)`; `parse` gives `str(json.load(f))` of a
      text, or nothing when the text is not JSON. The file is opened in text
      mode, so the parser sees the text with its line endings made `\n`. */
  function ReadFileJson(env: Env, fs: Tree, path: string, parse: string -> Option<string>): Reply {
    var t := Resolve(env.cwd, path);
    if !Permitted(env.root, t) then Denied(env)
    else if t !in fs then PathMissing(Render(t))
    else match fs[t]
      case Dir => FileMissing(Render(t))
      case Blob => ReadFailed(Render(t))
      case File(text) =>
        match parse(Universal(text))
        case None => ReadFailed(Render(t))
        case Some(v) => Content(v)
  }

  /** `read_file(path_to_file)`: `read_text` returns the text with its line
      endings made `\n`. */
  function ReadFile(env: Env, fs: Tree, path: string): Reply {
    var t := Resolve(env.cwd, path);
    if !Permitted(env.root, t) then Denied(env)
    else if t !in fs then PathMissing(Render(t))
    else match fs[t]
      case Dir => FileMissing(Render(t))
      case Blob => ReadFailed(Render(t))
      case File(text) => Content(Universal(text))
  }

  /** `write_file(path_to_file, content)`. */
  function WriteFile(env: Env, fs: Tree, path: string, content: string): Step {
    var t := Resolve(env.cwd, path);
    if !Permitted(env.root, t) then Step(Denied(env), fs)
    else Store(fs, t, content, Written(Render(t)))
  }

  /** `delete_file(path_to_file)`. */
  function DeleteFile(env: Env, fs: Tree, path: string): Step {
    var t := Resolve(env.cwd, path);
    if !Permitted(env.root, t) then Step(Denied(env), fs)
    else if t !in fs then Step(FileMissing(Render(t)), fs)
    else if fs[t] == Dir then Step(NotAFile(Render(t)), fs)
    else Step(FileDeleted(Render(t)), fs - {t})
  }

  /** What a file holds after text is appended to it: bytes that were not
      UTF-8 stay so. */
  function Extended(n: Node, content: string): Node
    requires n != Dir
  {
    match n
    case File(before) => File(before + content)
    case Blob => Blob
  }

  /** `append_file(path_to_file, content)`. */
  function AppendFile(env: Env, fs: Tree, path: string, content: string): Step {
    var t := Resolve(env.cwd, path);
    if !Permitted(env.root, t) then Step(Denied(env), fs)
    else if !CanMakeDirs(fs, Parent(t)) then Step(Raised, fs)
    else
      var made := MakeDirs(fs, Parent(t));
      if IsDir(made, t) then Step(AppendFailed(Render(t)), made)
      else if t !in made then Step(Appended(Render(t)), made[t := File(content)])
      else Step(Appended(Render(t)), made[t := Extended(made[t], content)])
  }

  /** One input of `join_files`: its text as `read_text` returns it, or the
      reply the tool returns. */
  function ReadInput(env: Env, fs: Tree, path: string): Result<string, Reply> {
    var t := Resolve(env.cwd, path);
    if !Permitted(env.root, t) then Err(Denied(env))
    else if t !in fs then Err(FileMissing(Render(t)))
    else match fs[t]
      case Dir => Err(NotAFile(Render(t)))
      case Blob => Err(ReadFailed(Render(t)))
      case File(text) => Ok(Universal(text))
  }

  /** The texts of the inputs in order, or the reply for the first input that
      cannot be read. */
  function Collect(env: Env, fs: Tree, paths: seq<string>): Result<seq<string>, Reply>
    decreases |paths|
  {
    if paths == [] then Ok([])
    else match Collect(env, fs, paths[..|paths| - 1])
      case Err(e) => Err(e)
      case Ok(texts) =>
        match ReadInput(env, fs, paths[|paths| - 1])
        case Err(e) => Err(e)
        case Ok(text) => Ok(texts + [text])
  }

  /** `join_files(path_to_files, output_file)`. */
  function JoinFiles(env: Env, fs: Tree, paths: seq<string>, output: string): Step {
    match Collect(env, fs, paths)
    case Err(e) => Step(e, fs)
    case Ok(texts) =>
      var o := Resolve(env.cwd, output);
      if !Permitted(env.root, o) then Step(Denied(env), fs)
      else Store(fs, o, JoinWith(texts, '\n'), Joined(Render(o)))
  }

  /** `copy_file(from_file_path, to_file_path)`; `shutil.copy2` into an
      existing directory copies under the source's name, and copying a file
      onto itself fails. */
  function CopyFile(env: Env, fs: Tree, from: string, to: string): Step {
    var s := Resolve(env.cwd, from);
    if !Permitted(env.root, s) then Step(Denied(env), fs)
    else if !IsFile(fs, s) then Step(SourceMissing(Render(s)), fs)  // missing, or not a file
    else
      var t := Resolve(env.cwd, to);
      if !Permitted(env.root, t) then Step(Denied(env), fs)
      else if !CanMakeDirs(fs, Parent(t)) then Step(CopyFailed, fs)
      else
        var made := MakeDirs(fs, Parent(t));
        var dest := if IsDir(made, t) then t + [Name(s)] else t;
        if dest == s || IsDir(made, dest) then Step(CopyFailed, made)
        else Step(Copied(Render(s), Render(t)), made[dest := fs[s]])
  }
}
