# Patent-writing pipeline: file tools, stage registry and progress panel

This project models three parts of a patent-writing agent system and proves properties of each part.

- **The sandboxed file-tool server** (`mcp_server/filesystem.py`).
  - Every tool resolves its path argument and checks that the result lies inside the workspace root.
  - It then makes a fixed series of existence and type checks.
  - Finally it changes the file tree once, or not at all.
  - The tree is a map from resolved paths (sequences of segments) to directories, text files and unreadable files.
  - Module `FileTools` gives each tool as a function from the tree before the call to the reply and the tree after it.
  - `create_directory` and `delete_directory` hand `base / dire_name` to the operating system unresolved. Module `Disk` follows such a path as the system does, and models pathlib's `mkdir(parents=True)` on it.
  - Class `FileServer.Workspace` holds the tree in a field and performs each tool step by step. Each of its methods is proved equal to the matching function of `FileTools`, `Disk` or `FileTree`.
  - Modules `ToolFacts` and `Sandbox` prove what the tools promise: which reply comes back, what changes, what stays, the round trips, and confinement to the workspace.
- **The stage registry of the leader agent** (`agent/prompts/leader_agent_prompt.py`).
  - Module `StageRegistry` holds, as constant data:
    - the nine stages in order;
    - the table giving each stage's working directory, inputs and outputs;
    - the `temp_[uuid]/` layout.
  - Its lemmas prove that the registry is consistent.
  - The prompt also asks the leader to review each stage and delegate it again when its outputs are missing. Module `Coordinator` models that rule as an abstract loop. An oracle decides whether the outputs pass review.
- **The progress panel of the web front end** (`ui/app.py`). Module `TaskBoard` covers:
  - the status icon and colour maps;
  - the API-key mask;
  - the task map that each streamed chunk replaces wholesale, and the counts shown from it;
  - the success decision;
  - the last message shown.

Path resolution (`resolve()`) is lexical:
- a text starting with `/` is absolute;
- empty and `.` segments are dropped;
- `..` goes up one segment and stops at `/`.

An unresolved path (`Disk.Locate`) is followed from `/` one segment at a time:
- every segment before the last must lead to an existing directory;
- `..` goes to the parent of the directory reached so far.

So `/w/a/../b` is not found when `/w/a` is missing, even if `/w/b` exists.

`shutil.rmtree` empties the directory its path leads to, then calls `os.rmdir` (`Disk.SysRmdir`) on the same unresolved path. So `/w/a/..` leads to `/w`, but once `/w` is emptied the `rmdir` fails at the missing `/w/a`, and `/w` stays, empty.

The workspace root and the current directory are parameters of the server (`FileTools.Env`).

The server keeps a flag named `checked`:
- With the flag off, `create_directory` and `delete_directory` behave as written. They never check `base / dire_name`, and they pass it to the system unresolved.
- With the flag on, they resolve `base / dire_name`, refuse it outside the workspace, and work on the resolved path.

The sandbox theorem holds for the checked tools. The tools as written are shown to escape (see Findings).

## Model

| member | source | states |
|---|---|---|
| Paths.PermittedIffWithin | mcp_server/filesystem.py:16-30 | The permission test passes exactly when the resolved workspace root is a leading run of the target's segments, that is the root itself or a path below it; `relative_to` then returns the segments that follow the root |
| Paths.SiblingWithLongerNameRefused | mcp_server/filesystem.py:22-30 | The test compares segments, not text: `/home/u/workspace2` is refused for the root `/home/u/workspace` |
| Paths.ResolveCanonical | mcp_server/filesystem.py:44 | Resolving any text from a resolved current directory yields a resolved path (no empty, `.` or `..` segment) |
| Paths.RenderResolves | mcp_server/filesystem.py:49 | The text a message prints for a resolved path resolves back to that same path |
| Paths.LastDot | mcp_server/filesystem.py:141 | The index found is -1 or a dot, and no dot follows it |
| Paths.JsonSuffixIff | mcp_server/filesystem.py:141-142 | A name passes the `.json` test exactly when it is longer than five characters and its last five lower-case to `.json`; a bare `.json` fails |
| Text.Lower | ui/app.py:23 | Lower-casing keeps the length and maps every character on its own |
| Text.JoinSnoc | mcp_server/filesystem.py:296 | Joining one more part adds exactly one separator, then that part |
| Text.JoinLength | mcp_server/filesystem.py:296 | The joined text is as long as the parts together plus one separator between each pair of neighbours |
| Text.SplitJoin | mcp_server/filesystem.py:44 | Splitting a text on a separator and joining the parts back gives the text |
| Text.JoinSplit | mcp_server/filesystem.py:44 | Joining parts free of the separator and splitting again gives the parts back |
| Text.Universal | mcp_server/filesystem.py:194 | A text read in text mode (universal newlines) holds no `\r` and is no longer than the stored text |
| Text.UniversalKeepsPlain | mcp_server/filesystem.py:194 | A stored text without `\r` reads back exactly as stored |
| Text.UniversalIdempotent | mcp_server/filesystem.py:194 | Translating the line endings of a text already read changes nothing |
| Text.UniversalConcat | mcp_server/filesystem.py:194 | Two texts stored one after the other read as their two readings one after the other, unless the first ends in `\r` and the second starts with `\n` |
| Text.SplitLineBreak | mcp_server/filesystem.py:194 | `"a\r"` followed by `"\nb"` reads as `"a\nb"`, which differs from the two readings one after the other |
| FileTree.MakeDirsSpec | mcp_server/filesystem.py:145 | `mkdir(parents=True, exist_ok=True)` keeps the tree well formed. It adds exactly the missing ancestors as directories, keeps every existing entry, and afterwards every prefix of the path is a directory |
| FileTree.RemoveTreeSpec | mcp_server/filesystem.py:121 | `rmtree` removes exactly the target and everything below it, keeps every other entry, and keeps the tree well formed |
| FileTree.EmptiedSpec | mcp_server/filesystem.py:121 | The emptying step of `rmtree` removes exactly what is strictly below the target, keeps the target and every other entry, and keeps the tree well formed. The target is then an empty directory, and removing it gives the tree of a full `rmtree` |
| FileTools.Lines | mcp_server/filesystem.py:53-65 | There is one listing line per child, in the given order, each being the child's name, a tab and its kind |
| FileServer.Workspace.MakeParents | mcp_server/filesystem.py:145 | Fails, changing nothing, exactly when a path on the way down is a file; otherwise the tree becomes the one with the missing directories made |
| FileServer.Workspace.Put | mcp_server/filesystem.py:211-218 | The parent `mkdir` followed by the write: reply and new tree are those of `FileTools.Store` |
| FileServer.Workspace.ListDirectory | mcp_server/filesystem.py:38-65 | The reply is that of `FileTools.ListDirectory` for the names the method visits: the permission message, the missing-path message or the not-a-directory message, in that order of checks, and otherwise one line per visited name. The names visited are every child exactly once |
| FileServer.Workspace.SystemMkdir | mcp_server/filesystem.py:89 | One `os.mkdir` step: the error and the new tree are those of `Disk.SysMkdir` |
| FileServer.Workspace.MakeDirectory | mcp_server/filesystem.py:89 | The recursive `Path.mkdir`: the error and the new tree are those of `Disk.Mkdir`, including the directories left behind when it fails |
| FileServer.Workspace.CreateDirectory | mcp_server/filesystem.py:68-95 | Reply and new tree equal those of `create_directory` (as written, or checked when the flag is set); keeps the tree well formed and, when checked, leaves everything outside the workspace alone |
| FileServer.Workspace.SystemRmdir | mcp_server/filesystem.py:121 | The final `os.rmdir` of `rmtree`: success and the new tree are those of `Disk.SysRmdir`, and a failure changes nothing |
| FileServer.Workspace.DeleteDirectory | mcp_server/filesystem.py:98-125 | Same for `delete_directory`, with `rmtree` performed as the emptying of the directory reached followed by `SystemRmdir` of the path |
| FileServer.Workspace.WriteFileJson | mcp_server/filesystem.py:128-152 | Reply and new tree equal those of `write_file_json`, and the tree stays well formed |
| FileServer.Workspace.ReadFileJson | mcp_server/filesystem.py:155-175 | The reply equals that of `read_file_json`, with the parser as a parameter; the parser is given the text read in text mode, its line endings made `\n` |
| FileServer.Workspace.ReadFile | mcp_server/filesystem.py:177-196 | The reply equals that of `read_file`: the permission, missing-path, not-a-file and decoding replies, or the file's text with each `\r\n` and lone `\r` made `\n`, as `read_text` returns it |
| FileServer.Workspace.WriteFile | mcp_server/filesystem.py:198-218 | Reply and new tree equal those of `write_file`, and the tree stays well formed |
| FileServer.Workspace.DeleteFile | mcp_server/filesystem.py:220-240 | Reply and new tree equal those of `delete_file`, and the tree stays well formed |
| FileServer.Workspace.AppendFile | mcp_server/filesystem.py:242-263 | Reply and new tree equal those of `append_file`, and the tree stays well formed |
| FileServer.Workspace.Fetch | mcp_server/filesystem.py:276-287 | Reading one input of `join_files` gives its text as `read_text` returns it, line endings made `\n`, or the reply for the first check it fails |
| FileServer.Workspace.Gather | mcp_server/filesystem.py:274-287 | The read loop gives the texts of all inputs as `read_text` returns them, in list order, or the reply of the first input that cannot be read |
| FileServer.Workspace.JoinFiles | mcp_server/filesystem.py:265-299 | Reply and new tree equal those of `join_files`, whose output is built from the texts as read, and the tree stays well formed |
| FileServer.Workspace.CopyFile | mcp_server/filesystem.py:301-330 | Reply and new tree equal those of `copy_file`, and the tree stays well formed |
| ToolFacts.OutsideChangesNothing | mcp_server/filesystem.py:44-47 | For every tool, a checked path outside the workspace leaves the tree unchanged and gives no success reply. The first checked path is the one the check at lines 44-47, 135-138, 206-209, 227-230 and 250-253 tests; when it fails, the reply is the permission message |
| ToolFacts.JoinOutside | mcp_server/filesystem.py:274-292 | An input or output of `join_files` outside the workspace stops the tool before any write |
| ToolFacts.CollectOk | mcp_server/filesystem.py:274-287 | When every input is readable, the loop collects exactly what reading each input gives (its text with line endings made `\n`), in list order |
| ToolFacts.CollectFails | mcp_server/filesystem.py:274-287 | When inputs fail, the loop stops with the reply of the first one that fails |
| ToolFacts.StoreSpec | mcp_server/filesystem.py:211-218 | The shared write path succeeds exactly when no parent is a file and the target is no directory. It then makes the parents and writes the file, changing nothing else. A raised `mkdir` changes nothing |
| ToolFacts.WriteThenRead | mcp_server/filesystem.py:198-218 | `write_file` succeeds exactly when the path is inside, no parent is a file and the path is no directory. It then creates the missing parents and changes no other entry. `read_file` on the same argument returns the written content with each `\r\n` and lone `\r` made `\n`, so exactly the written content when it holds no `\r` |
| ToolFacts.AppendThenRead | mcp_server/filesystem.py:242-263 | `append_file` succeeds under the same conditions. The file then holds its old content followed by the new, or only the new if it did not exist, and no other entry changes. `read_file` returns that with line endings made `\n`: the old reading followed by the new one unless the old content ends in `\r`, and exactly the concatenation when neither holds a `\r` |
| ToolFacts.AppendedReading | mcp_server/filesystem.py:194 | Reading back appended content: the two readings one after the other when the old content does not end in `\r`, and the texts themselves when they hold no `\r` |
| ToolFacts.WriteJsonChecksSuffix | mcp_server/filesystem.py:135-152 | A non-`.json` path inside the workspace is refused with the tree untouched, before any `mkdir`. A `.json` path behaves as `write_file` of the serialised text, and `read_file_json` then returns what the parser makes of it once read back in text mode |
| ToolFacts.JoinFilesSpec | mcp_server/filesystem.py:265-299 | `join_files` writes exactly when every input is a readable file inside, the output is inside, no parent of the output is a file and the output is no directory. The output then holds the inputs' texts as `read_text` returns them, each stored text with its line endings made `\n`, in list order with one newline between neighbours, and no other entry changes |
| ToolFacts.JoinFirstError | mcp_server/filesystem.py:274-287 | When some input cannot be read, the reply is that of the first such input, the output path is never looked at, and nothing changes |
| ToolFacts.JoinTwoFiles | mcp_server/filesystem.py:296 | Two inputs give the first text as read, one newline, then the second text as read; an unreadable second input leaves the output alone |
| ToolFacts.JoinNoFiles | mcp_server/filesystem.py:296 | An empty input list writes an empty file |
| ToolFacts.CreateDirectorySpec | mcp_server/filesystem.py:75-95 | `create_directory` as written keeps the tree well formed and every existing entry. Every entry it adds is a directory on the way down `base / dire_name`, even when it then fails. A `base` outside, missing or not a directory changes nothing. A `base / dire_name` the system can follow gives "already exists" and changes nothing. Success means the resolved target was absent and is now a directory. Without `..` in the name, it succeeds exactly when `base` passes, the target is absent and no file is in the way; it then adds exactly the missing ancestors, and otherwise changes nothing |
| ToolFacts.DeleteDirectorySpec | mcp_server/filesystem.py:105-125 | `delete_directory` as written reaches a directory exactly when `base` passes, the system can follow `base / dire_name`, and it leads to a directory. It then removes exactly that directory and everything below it, unless following the path again goes through an entry below it (a name ending in `..`) or the path is `/`. In that case it replies "删除失败" and leaves the directory in place, emptied. When it reaches no directory it changes nothing. Without `..` in the name, it removes exactly when `base` passes and the target is a directory other than `/` |
| ToolFacts.CreateDirectoryCheckedSpec | mcp_server/filesystem.py:75-95 | The checked `create_directory` succeeds exactly when `base` and the resolved target are inside, `base` is a directory, the target is absent and no file is in the way. It then adds exactly the target and its missing ancestors, keeping every old entry; otherwise it changes nothing |
| ToolFacts.RemoveTargetSpec | mcp_server/filesystem.py:120-125 | Once the path leads to a directory, `rmtree` removes it with everything below it when its final `rmdir` can follow the path again; otherwise the reply is "删除失败" and the directory stays, emptied |
| ToolFacts.DeleteDirectoryCheckedSpec | mcp_server/filesystem.py:105-125 | The checked `delete_directory` reaches a directory exactly when `base` and the resolved target are inside and both are directories. It then removes the target's subtree, except that `/` is only emptied and the reply is "删除失败"; otherwise it changes nothing |
| Paths.WalkKept | mcp_server/filesystem.py:84 | Dropping the empty and `.` segments, as `base / dire_name` does, does not change where the segments lead |
| Paths.ResolveParts | mcp_server/filesystem.py:84 | An absolute text resolves to where its kept parts lead from `/` |
| Paths.PartsCanonical | mcp_server/filesystem.py:84 | The kept parts of a text with no `..` are already a resolved path |
| Disk.LocateIffTraversable | mcp_server/filesystem.py:115-118 | The system finds a path exactly when each leading run of its parts leads to an existing directory and the whole leads to an existing entry. What it finds is where the parts lead by text |
| Disk.ExistsCanonical | mcp_server/filesystem.py:85 | For a resolved path, `exists()` is presence in the tree and `is_dir()` is being a directory there |
| Disk.SysMkdirSpec | mcp_server/filesystem.py:89 | One `os.mkdir` keeps the tree well formed and changes nothing when it fails. On success it adds exactly the directory its parts lead to, which was absent |
| Disk.MkdirSpec | mcp_server/filesystem.py:89 | `Path.mkdir` keeps the tree well formed and every existing entry. Each entry it adds is a directory on the way down the path, also when it then fails. On success the path leads to a directory, which was absent when `exist_ok` is off |
| Disk.RmdirAfterEmptying | mcp_server/filesystem.py:121 | After `rmtree` empties the directory a path leads to, its `rmdir` of that path succeeds exactly when the path ends in a name and never passes through an entry strictly below that directory. It then leaves exactly the tree without the directory and its subtree |
| Disk.StaysAboveCanonical | mcp_server/filesystem.py:121 | For a resolved path, that final `rmdir` fails only at `/` |
| Disk.MkdirCanonical | mcp_server/filesystem.py:89 | For a resolved, absent path, `mkdir(parents=True)` succeeds exactly when no file is in the way, and then makes exactly the missing ancestors. Otherwise it fails with nothing made |
| ToolFacts.DeleteFileRemovesOnlyIt | mcp_server/filesystem.py:227-240 | `delete_file` removes exactly the named file when it is an existing file inside the workspace. It replies "file missing" for an absent path and "not a file" for a directory, and then changes nothing |
| ToolFacts.CopyFileSpec | mcp_server/filesystem.py:309-330 | The source is examined before the target. The copy happens exactly when both paths are inside, no parent of the target is a file, and the place of the copy is neither the source nor a directory. That place then holds the source's content and nothing else changes; a failed copy changes nothing |
| Sandbox.CheckedDiffersOnlyOutside | mcp_server/filesystem.py:75-86 | For a `dire_name` that leaves no `..` in `base / dire_name`, the checked directory tools differ from the tools as written only by refusing a target outside the workspace |
| Sandbox.ToolsKeepTreeWellFormed | mcp_server/filesystem.py:67-330 | Every tool, as written or checked, keeps every entry below an existing directory |
| Sandbox.CheckedToolsStayInWorkspace | mcp_server/filesystem.py:16-30 | With `base / dire_name` checked, no tool call adds, removes or changes any entry outside the workspace root, and the directories above the root remain |
| Sandbox.UpAndOverResolves | mcp_server/filesystem.py:84 | For the workspace `/w`, `base` = `/w` passes the check while `base / "../x"` resolves to `/x`, which is outside |
| Sandbox.CreateEscapes | mcp_server/filesystem.py:75-95 | As written, `create_directory("/w", "../x")` reports success and creates `/x` outside the workspace `/w`; the checked tool refuses with the permission message and changes nothing |
| Sandbox.DeleteEscapes | mcp_server/filesystem.py:105-125 | As written, `delete_directory("/w", "../x")` removes `/x` outside the workspace; the checked tool refuses and changes nothing |
| Sandbox.ThroughUpResolves | mcp_server/filesystem.py:84 | `/w` joined with `a/../b` keeps the parts `w`, `a`, `..`, `b`, and resolves to `/w/b` |
| Sandbox.MkdirThroughMissing | mcp_server/filesystem.py:89 | With only `/w` present, `/w/a/../b` does not exist, and `mkdir(parents=True)` on it makes `/w/a` first and then `/w/b` |
| Sandbox.CreateStepsThroughMissing | mcp_server/filesystem.py:84-95 | As written, `create_directory("/w", "a/../b")` with only `/w` present succeeds and leaves `/w/a` behind as well as `/w/b`. `/w/a` is no ancestor of the resolved target, and the checked tool makes only `/w/b` |
| Sandbox.UpLastResolves | mcp_server/filesystem.py:114 | `/w` joined with `a/..` keeps the parts `w`, `a`, `..`, and resolves to `/w` |
| Sandbox.DeleteUpLast | mcp_server/filesystem.py:114-123 | As written, `delete_directory("/w", "a/..")` with `/w/a` present reaches `/w`. It removes `/w/a`, replies "删除失败" because the final `rmdir` of `/w/a/..` cannot pass the removed `/w/a`, and leaves `/w` in place, empty |
| Sandbox.DeleteStopsAtMissing | mcp_server/filesystem.py:114-125 | As written, `delete_directory("/w", "a/../b")` with `/w/b` present and `/w/a` missing replies "directory missing" and removes nothing, although the path resolves to the directory `/w/b`. The checked tool removes `/w/b` |
| StageRegistry.Position | agent/prompts/leader_agent_prompt.py:20-29 | Each stage sits at its position in the stage order |
| StageRegistry.StageOrderIsComplete | agent/prompts/leader_agent_prompt.py:20-29 | The order lists nine stages, every stage, and none twice (the second "8." is the ninth) |
| StageRegistry.PositionInverts | agent/prompts/leader_agent_prompt.py:20-29 | The position of the stage at index `i` of the order is `i` |
| StageRegistry.AgentNamesIdentify | agent/prompts/leader_agent_prompt.py:21-29 | Each delegation name leads back to its own stage, so no two stages share a name |
| StageRegistry.RowOf | agent/prompts/leader_agent_prompt.py:32-42 | Each table row is the row of the stage it is looked up for |
| StageRegistry.DirIndex | agent/prompts/leader_agent_prompt.py:47-69 | Each sub-directory sits at its place in the layout's list |
| StageRegistry.InputsComeEarlier | agent/prompts/leader_agent_prompt.py:32-42 | Every file a stage reads, except the raw document, is an output of a strictly earlier stage |
| StageRegistry.RawDocumentComesFromOutside | agent/prompts/leader_agent_prompt.py:32-42 | Only the first stage reads the raw document, and no stage writes it (the leader copies it in) |
| StageRegistry.MergerReadsFinishedContent | agent/prompts/leader_agent_prompt.py:37-42 | Only the merger reads a whole directory, namely `04_content/`. Every stage working there runs before it, and every file kept there is written by such a stage |
| StageRegistry.WritersOf | agent/prompts/leader_agent_prompt.py:32-42 | The stages that write each file: nobody for the raw document, both description writers for `description.md`, and the one first producer for every other file |
| StageRegistry.DescriptionHasTwoWriters | agent/prompts/leader_agent_prompt.py:39-40 | `description.md` has exactly two writers, and every other file has at most one |
| StageRegistry.OutputsInLayout | agent/prompts/leader_agent_prompt.py:32-69 | Every output of a stage is listed in the layout under that stage's working directory |
| StageRegistry.LayoutListsHome | agent/prompts/leader_agent_prompt.py:47-69 | Each file is listed under its own directory and under no other |
| StageRegistry.FiveDirectoriesInOrder | agent/prompts/leader_agent_prompt.py:47-75 | There are exactly five sub-directories, numbered `01_` to `05_` in listing order |
| StageRegistry.FileNamesFollowConvention | agent/prompts/leader_agent_prompt.py:77-78 | Every file stem is lower-case letters and underscores and every extension is lower-case letters or digits. Each name leads back to its file, so no two files share a name |
| Coordinator.Delegations | agent/prompts/leader_agent_prompt.py:14-16 | Counting from attempt `from`, a stage's delegations run past `from` and never beyond `cap + 1` in all |
| Coordinator.DelegationsStopAtFirstPass | agent/prompts/leader_agent_prompt.py:14-16 | Delegation stops at the first attempt that passes review, or at the cap, and not earlier |
| Coordinator.NoPassMeansCap | agent/prompts/leader_agent_prompt.py:14-17 | A stage whose last delegation fails review has used every allowed delegation |
| Coordinator.Coordinate | agent/prompts/leader_agent_prompt.py:10-17 | The leader's loop produces exactly the run the retry rule defines, with a cap of five re-delegations |
| Coordinator.StageLogShape | agent/prompts/leader_agent_prompt.py:14-16 | One stage's actions all name it, start with its first delegation and end with its last; there are `2n - 1` of them for `n` delegations |
| Coordinator.StageLogRetries | agent/prompts/leader_agent_prompt.py:15-16 | Within one stage, attempts stay within the cap and every retry comes right after a cleanup of that stage |
| Coordinator.RetriesAreBounded | agent/prompts/leader_agent_prompt.py:14-16 | In a whole run, no stage is delegated more than once plus five times, and every re-delegation follows a cleanup of that stage's directory |
| Coordinator.StagesRunInOrder | agent/prompts/leader_agent_prompt.py:19-20 | The stages of a run's actions never go back in the order |
| Coordinator.CompletesIffAllPass | agent/prompts/leader_agent_prompt.py:17 | A run completes exactly when every stage passes review within its delegations |
| Coordinator.FailureNamesFirstFailing | agent/prompts/leader_agent_prompt.py:17 | A failed run names the first stage that does not pass, after all its delegations were spent; all earlier stages passed |
| Coordinator.FailureStopsRun | agent/prompts/leader_agent_prompt.py:17-20 | After a failure nothing further happens: the last action is the failing stage's last delegation, and no later stage is delegated |
| Coordinator.EarlierStagesPassed | agent/prompts/leader_agent_prompt.py:20 | A stage is delegated only after every earlier stage passed review |
| Coordinator.InputsWrittenBeforeUse | agent/prompts/leader_agent_prompt.py:32-42 | Every file a delegated stage reads, except the raw document, was written by a stage whose outputs had already passed review |
| Coordinator.StageDelegationCount | agent/prompts/leader_agent_prompt.py:16 | One stage's actions hold exactly as many delegations as it was given |
| Coordinator.RunIsBounded | agent/prompts/leader_agent_prompt.py:14-16 | A run from stage `i` delegates at most `(cap + 1)` times per remaining stage: 54 delegations for the whole run with a cap of five |
| TaskBoard.StatusNamesRead | ui/app.py:17-23 | Each status's name reads back as that status, and a text reads as a status exactly when it lower-cases to that status's name |
| TaskBoard.StatusIgnoresCase | ui/app.py:23 | The status a text names does not depend on its case |
| TaskBoard.IconsDiffer | ui/app.py:17-23 | The five icons are pairwise different, and the fallback icon belongs to no status |
| TaskBoard.IconsIdentifyStatuses | ui/app.py:15-23 | The icon is the fallback exactly for unknown statuses; it tells the four statuses apart; it ignores case |
| TaskBoard.ColorsDiffer | ui/app.py:27-33 | Gray belongs to pending and the fallback only; blue, green and red each belong to one status |
| TaskBoard.ColorsOfStatuses | ui/app.py:25-33 | The colour is gray exactly for pending and unknown statuses, and the other colours tell their statuses apart; it ignores case |
| TaskBoard.MaskShowsOnlyEnds | ui/app.py:112 | Keys that agree in their first four and last four characters, and all keys of eight characters or fewer, get the same mask |
| TaskBoard.MaskShape | ui/app.py:112 | A key longer than eight characters masks to eleven characters, so never to itself once longer than eleven; a shorter key masks to four characters |
| TaskBoard.TodoList | ui/app.py:204-205 | A non-empty task list comes from the chunk's "tools" step |
| TaskBoard.NewMessages | ui/app.py:206-207 | Non-empty new messages come from the chunk's "model" step |
| TaskBoard.FromListHolds | ui/app.py:211-213 | Refilling the map from a list gives exactly the list's contents as keys, each with the status of its last occurrence |
| TaskBoard.FromListSize | ui/app.py:211-218 | Duplicate contents collapse: the total is at most the list's length, and equals it when contents are distinct |
| TaskBoard.TalliesWithinTotal | ui/app.py:218-221 | Completed, in-progress and pending counts, each taken case-insensitively, never add up to more than the total |
| TaskBoard.SuccessIsFullProgress | ui/app.py:218-255 | The success decision holds exactly when the progress line reads all done: at least one task, and the completed count equal to the total |
| TaskBoard.LastAfterArrival | ui/app.py:206-272 | After new messages arrive the one shown is the newest of them; a chunk without messages leaves it as it was |
| TaskBoard.Tracker.constructor | ui/app.py:198-199 | The panel starts with no tasks and no messages |
| TaskBoard.Tracker.Consume | ui/app.py:202-213 | A chunk's model messages are appended in arrival order. A non-empty task list replaces the task map wholesale, built in list order; otherwise the map is unchanged |
| TaskBoard.Tracker.AllCompleted | ui/app.py:248-255 | True exactly when some task is tracked and every tracked status lower-cases to "completed"; an empty map is a failure |
| TaskBoard.Tracker.LastMessage | ui/app.py:267-272 | Nothing is shown exactly when no message arrived; otherwise the newest message is shown |

## Left out

- Symbolic links and `~` expansion. Resolution is the lexical function `Paths.Resolve`, and an unresolved path is followed by `Disk.Locate` over the tree. A leading `//` is treated as `/`, not in the POSIX way.
- ToolFacts.CreateDirectorySpec: for a `dire_name` with `..` in it, the contract bounds the directories made by the ones on the way down `base / dire_name` rather than naming them. The exact outcome is `Disk.Mkdir`, and `Sandbox.CreateStepsThroughMissing` works one such case through.
- Exception texts of the operating system. The failure replies carry the path only, and `Message` gives their fixed prefix.
- Line endings on write. `write_text` and `write` in text mode turn `\n` into `os.linesep`, which is `\n` on POSIX systems; the model stores the content as given, so it describes a POSIX host. Reads translate `\r\n` and `\r` into `\n` (`Text.Universal`) on every host.
- Operating-system failures of `mkdir`, `open`, `rmtree`, `unlink` and `copy2`. The model fails only where the tree itself forces a failure, for example a file in the way of `mkdir`, a directory where a file is written, or the final `rmdir` of `rmtree` on `/` or on a path through what `rmtree` has just removed.
- The metadata `shutil.copy2` copies.
- JSON serialisation and parsing. `write_file_json` takes the serialised text as a parameter and `read_file_json` takes the parser as one.
- UTF-8 decoding failures. A file that fails decoding is a separate node kind (`Blob`), which exists and is a file but cannot be read as text.
- Lower-casing is ASCII only; no Unicode case mapping.
- The `list_directory` "符号链接" and "其他" kinds (there are no links or special files in the tree). The `iterdir` order is an unconstrained output of the method.
- `return_work_path`, and the `mkdir` of the workspace inside `_return_work_path`. The workspace root is a parameter, and its ancestors are assumed present (`Sandbox.AncestorsPresent`).
- `FileServer.Workspace.CreateDirectory`, `FileServer.Workspace.DeleteDirectory`: with `checked` off they model the source as written and promise no confinement; confinement is proved only with `checked` on.
- `Coordinator.Coordinate`:
  - The leader is a language model following prompt text, so its behaviour is modelled abstractly. Review is an oracle over (stage position, attempt).
  - The delegation text, the cleanup itself and the sub-agents' work are not modelled.
  - A stage is delegated at most six times: the first time plus at most five re-delegations, as line 16 reads. If instead at most five delegations in all were meant, `MaxRedelegations` would be 4, and every lemma still holds because they are stated for any cap.
- The background thread, queue and polling of `agent/agent.py`. The agent construction in `agent/utils/subagent_tools.py` and `agent/utils/tools.py`. Provider selection in `agent/utils/llm_model.py`. The search and skill servers. These are concurrency, timing or foreign-library calls, none of which is part of this model.
- Streamlit rendering, session state, file upload, environment-variable writes and the floating-point progress ratio.
- `chunk.items()` iteration: a chunk is a map from step name to step data, and the "tools" and "model" entries are looked up directly. Iteration order does not matter, because the two entries update different state.
- `TaskBoard.Tracker.AllCompleted` walks the keys of the map, not the values as the source does. The two visit the same statuses.

## Findings

| source | as written | input that shows it | evidently intended | confidence | as-written member | corrected member |
|---|---|---|---|---|---|---|
| mcp_server/filesystem.py:84-95 | `create_directory` checks only `base`; `target = base / dire_name` is never resolved or checked, so a `dire_name` containing `..` reaches outside the workspace | workspace `/w`, `create_directory("/w", "../x")`: reports success and creates `/x` | resolve `base / dire_name`, refuse it outside the workspace, as every other tool does for its own paths, and create the resolved path | not executed | Sandbox.CreateEscapes | FileTools.CreateDirectoryChecked, with Sandbox.CheckedToolsStayInWorkspace |
| mcp_server/filesystem.py:114-125 | `delete_directory` checks only `base`; `base / dire_name` can name a directory outside the workspace, which `rmtree` then removes | workspace `/w` with a sibling `/x`, `delete_directory("/w", "../x")`: removes `/x` | resolve `base / dire_name`, refuse it outside the workspace, and remove the resolved path | not executed | Sandbox.DeleteEscapes | FileTools.DeleteDirectoryChecked, with Sandbox.CheckedToolsStayInWorkspace |
