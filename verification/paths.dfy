/** Paths of the file server: how a tool argument is resolved to a sequence
    of segments, how a resolved path is shown in a message, the workspace
    permission test, and the `.json` suffix test. */
module Paths {
  import opened Text

  /** A resolved path: its segments, read from the filesystem root `/`. */
  type Path = seq<string>

  /** A resolved path has no empty, `.` or `..` segment and no `/` in a segment. */
  predicate Canonical(p: Path) {
    forall i :: 0 <= i < |p| ==> p[i] != "" && p[i] != "." && p[i] != ".." && '/' !in p[i]
  }

  function Parent(p: Path): Path {
    if p == [] then [] else p[..|p| - 1]
  }

  /** `path.name`: the last segment, empty for `/`. */
  function Name(p: Path): string {
    if p == [] then "" else p[|p| - 1]
  }

  /** Enters one segment of a raw path, as `resolve()` does without symlinks. */
  function Enter(at: Path, seg: string): Path {
    if seg == "" || seg == "." then at
    else if seg == ".." then Parent(at)
    else at + [seg]
  }

  function Walk(at: Path, segs: seq<string>): Path
    decreases |segs|
  {
    if segs == [] then at else Walk(Enter(at, segs[0]), segs[1..])
  }

  predicate IsAbsolute(s: string) {
    |s| > 0 && s[0] == '/'
  }

  /** `Path(s).expanduser().resolve()`, lexically: absolute text starts at `/`,
      relative text at the current directory `cwd`. */
  function Resolve(cwd: Path, s: string): Path {
    Walk(if IsAbsolute(s) then [] else cwd, Split(s, '/'))
  }

  /** `str(path)` of a resolved path. */
  function Render(p: Path): string {
    "/" + JoinWith(p, '/')
  }

  /** The parts `PurePath(s)` keeps of an absolute text, below `/`: empty and
      `.` segments dropped, `..` kept. The operating system follows these
      parts when it is handed a path that was never resolved. */
  function Parts(s: string): seq<string> {
    Kept(Split(s, '/'))
  }

  /** `str(PurePath(s))` of an absolute text. */
  function Shown(s: string): string {
    Render(Parts(s))
  }

  function Kept(segs: seq<string>): seq<string> {
    if segs == [] then []
    else if segs[0] == "" || segs[0] == "." then Kept(segs[1..])
    else [segs[0]] + Kept(segs[1..])
  }

  /** A single path segment that resolution keeps as it is. */
  predicate Plain(w: string) {
    w != "" && w != "." && w != ".." && '/' !in w
  }

  /** No part of a path goes up a level. */
  predicate NoUpLevel(raw: seq<string>) {
    forall i :: 0 <= i < |raw| ==> raw[i] != ".."
  }

  /** The parts kept are parts of the text, none of them empty or `.`. */
  lemma {:induction false} KeptParts(segs: seq<string>)
    ensures forall i :: 0 <= i < |Kept(segs)| ==>
      Kept(segs)[i] != "" && Kept(segs)[i] != "." && Kept(segs)[i] in segs
    decreases |segs|
  {
    if segs != [] {
      KeptParts(segs[1..]);
    }
  }

  /** Parts without `..` are already a resolved path. */
  lemma PartsCanonical(s: string)
    requires NoUpLevel(Parts(s))
    ensures Canonical(Parts(s))
  {
    KeptParts(Split(s, '/'));
    SplitNoSep(s, '/');
  }

  /** Dropping empty and `.` segments does not change where a walk ends. */
  lemma {:induction false} WalkKept(at: Path, segs: seq<string>)
    ensures Walk(at, Kept(segs)) == Walk(at, segs)
    decreases |segs|
  {
    if segs != [] {
      WalkKept(Enter(at, segs[0]), segs[1..]);
      if segs[0] != "" && segs[0] != "." {
        assert ([segs[0]] + Kept(segs[1..]))[1..] == Kept(segs[1..]);
      }
    }
  }

  /** Resolving an absolute text walks its parts from `/`. */
  lemma ResolveParts(cwd: Path, s: string)
    requires IsAbsolute(s)
    ensures Resolve(cwd, s) == Walk([], Parts(s))
  {
    WalkKept([], Split(s, '/'));
  }

  /** A walk one segment longer ends one step further. */
  lemma {:induction false} WalkSnoc(at: Path, segs: seq<string>, x: string)
    ensures Walk(at, segs + [x]) == Enter(Walk(at, segs), x)
    decreases |segs|
  {
    if segs == [] {
      assert Walk(Enter(at, x), []) == Enter(at, x);
      assert ([] + [x])[1..] == [];
    } else {
      WalkSnoc(Enter(at, segs[0]), segs[1..], x);
      assert (segs + [x])[1..] == segs[1..] + [x];
    }
  }

  /** `base / name` as text: an absolute name replaces the base. */
  function JoinName(base: Path, name: string): string {
    if IsAbsolute(name) then name else Render(base) + "/" + name
  }

  /** Reference meaning of "inside": `root` is a leading run of `p`'s segments. */
  predicate Within(root: Path, p: Path) {
    |root| <= |p| && p[..|root|] == root
  }

  /** `target.relative_to(base)`: the remaining segments, or none when `base`
      is not a leading run of `target`'s segments. */
  function RelativeTo(target: Path, base: Path): Option<Path>
    decreases |base|
  {
    if base == [] then Some(target)
    else if target == [] || target[0] != base[0] then None
    else RelativeTo(target[1..], base[1..])
  }

  /** `_check_path_permission`'s verdict. */
  predicate Permitted(root: Path, target: Path) {
    RelativeTo(target, root).Some?
  }

  /** The permission test passes exactly for the workspace root and the paths
      below it, and `relative_to` returns the segments below the root. */
  lemma {:induction false} PermittedIffWithin(root: Path, target: Path)
    ensures Permitted(root, target) <==> Within(root, target)
    ensures RelativeTo(target, root).Some? ==> root + RelativeTo(target, root).value == target
    decreases |root|
  {
    if root != [] && target != [] && target[0] == root[0] {
      PermittedIffWithin(root[1..], target[1..]);
      assert root == [root[0]] + root[1..];
      assert target == [target[0]] + target[1..];
      if Within(root, target) {
        assert target[1..][..|root| - 1] == target[..|root|][1..];
      }
      if Within(root[1..], target[1..]) {
        assert target[..|root|] == [target[0]] + target[1..][..|root| - 1];
      }
    }
  }

  /** The test compares segments, not text: `/home/u/workspace2` is refused for
      the root `/home/u/workspace` although the root's text is a prefix of it. */
  lemma SiblingWithLongerNameRefused()
    ensures var root := ["home", "u", "workspace"];
            var other := ["home", "u", "workspace2"];
            Render(root) == Render(other)[..|Render(root)|] && !Permitted(root, other)
  {
    var root := ["home", "u", "workspace"];
    var other := ["home", "u", "workspace2"];
    assert Render(root) == "/home/u/workspace";
    assert Render(other) == "/home/u/workspace2";
    assert RelativeTo(other, root) == RelativeTo(["u", "workspace2"], ["u", "workspace"]);
    assert RelativeTo(other, root) == RelativeTo(["workspace2"], ["workspace"]);
    assert "workspace2" != "workspace";
  }

  /** Resolution yields a resolved path from a resolved starting directory. */
  lemma {:induction false} WalkCanonical(at: Path, segs: seq<string>)
    requires Canonical(at)
    requires forall i :: 0 <= i < |segs| ==> '/' !in segs[i]
    ensures Canonical(Walk(at, segs))
    decreases |segs|
  {
    if segs != [] {
      WalkCanonical(Enter(at, segs[0]), segs[1..]);
    }
  }

  lemma ResolveCanonical(cwd: Path, s: string)
    requires Canonical(cwd)
    ensures Canonical(Resolve(cwd, s))
  {
    SplitNoSep(s, '/');
    WalkCanonical(if IsAbsolute(s) then [] else cwd, Split(s, '/'));
  }

  /** Walking resolved segments appends them. */
  lemma {:induction false} WalkAppends(at: Path, segs: seq<string>)
    requires Canonical(segs)
    ensures Walk(at, segs) == at + segs
    decreases |segs|
  {
    if segs != [] {
      assert Canonical(segs[1..]) by {
        forall i | 0 <= i < |segs[1..]| ensures segs[1..][i] == segs[i + 1] { }
      }
      WalkAppends(at + [segs[0]], segs[1..]);
      assert at + [segs[0]] + segs[1..] == at + segs;
    }
  }

  /** The text a message shows for a resolved path resolves back to that path. */
  lemma RenderResolves(cwd: Path, p: Path)
    requires Canonical(p)
    ensures Resolve(cwd, Render(p)) == p
  {
    var text := JoinWith(p, '/');
    assert Render(p)[1..] == text;
    assert Split(Render(p), '/') == [[]] + Split(text, '/');
    if p == [] {
      assert Split(text, '/') == [[]];
      assert Walk([], [[], []]) == Walk([], [[]]);
    } else {
      JoinSplit(p, '/');
      WalkAppends([], p);
      assert ([[]] + p)[1..] == p;
    }
  }

  /** The index of the last `.` in `name`, or -1 (`str.rfind('.')`). */
  function LastDot(name: string): (i: int)
    ensures -1 <= i < |name|
    ensures i >= 0 ==> name[i] == '.'
    ensures forall j :: i < j < |name| ==> name[j] != '.'
  {
    if name == [] then -1
    else if name[|name| - 1] == '.' then |name| - 1
    else LastDot(name[..|name| - 1])
  }

  /** `PurePath.suffix`: from the last dot on, unless that dot starts the name
      or ends it. */
  function Suffix(name: string): string {
    var i := LastDot(name);
    if 0 < i < |name| - 1 then name[i..] else ""
  }

  /** `target.suffix.lower() == '.json'`. */
  predicate IsJson(p: Path) {
    Lower(Suffix(Name(p))) == ".json"
  }

  /** A name passes the `.json` test exactly when it is longer than five
      characters and its last five lower-case to `.json`; a bare `.json` fails. */
  lemma JsonSuffixIff(name: string)
    ensures Lower(Suffix(name)) == ".json" <==> |name| > 5 && Lower(name[|name| - 5..]) == ".json"
  {
    var i := LastDot(name);
    if Lower(Suffix(name)) == ".json" {
      assert 0 < i < |name| - 1;
      assert |name[i..]| == 5;
      assert name[|name| - 5..] == name[i..];
    }
    if |name| > 5 && Lower(name[|name| - 5..]) == ".json" {
      var tail := name[|name| - 5..];
      assert LowerChar(tail[0]) == '.';
      assert name[|name| - 5] == '.';
      forall j | |name| - 5 < j < |name| ensures name[j] != '.' {
        assert LowerChar(tail[j - (|name| - 5)]) != '.';
      }
      assert i == |name| - 5;
    }
  }
}
