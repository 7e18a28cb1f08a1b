/** The progress panel of the web front end: how a task status is shown, how
    the API key is masked, and how the task list and the messages streamed
    from the agent are tracked chunk by chunk. */
module TaskBoard {
  import opened Text

  /** The four statuses the panel knows, matched case-insensitively. */
  datatype Status = Pending | InProgress | Completed | Cancelled

  /** The lower-case spelling of each status. */
  function StatusName(st: Status): string {
    match st
    case Pending => "pending"
    case InProgress => "in_progress"
    case Completed => "completed"
    case Cancelled => "cancelled"
  }

  /** The status a text names once lower-cased, if any. */
  function StatusOf(s: string): Option<Status> {
    var l := Lower(s);
    if l == "pending" then Some(Pending)
    else if l == "in_progress" then Some(InProgress)
    else if l == "completed" then Some(Completed)
    else if l == "cancelled" then Some(Cancelled)
    else None
  }

  /** Each status's name reads back as that status, and a text reads as a
      status exactly when it lower-cases to that status's name. */
  lemma StatusNamesRead(st: Status, s: string)
    ensures StatusOf(StatusName(st)) == Some(st)
    ensures StatusOf(s) == Some(st) <==> Lower(s) == StatusName(st)
  {
    LowerKeepsLowerCase(StatusName(st));
  }

  /** The status of a text does not depend on its case. */
  lemma StatusIgnoresCase(s: string)
    ensures StatusOf(Lower(s)) == StatusOf(s)
  {
    LowerTwice(s);
  }

  /** The icon shown beside a task. */
  function StatusIcon(s: string): string {
    IconFor(StatusOf(s))
  }

  function IconFor(st: Option<Status>): string {
    match st
    case Some(Pending) => "⏳"
    case Some(InProgress) => "🔄"
    case Some(Completed) => "✅"
    case Some(Cancelled) => "❌"
    case None => "📋"
  }

  /** The colour of a task's status text. */
  function StatusColor(s: string): string {
    ColorFor(StatusOf(s))
  }

  function ColorFor(st: Option<Status>): string {
    match st
    case Some(Pending) => "gray"
    case Some(InProgress) => "blue"
    case Some(Completed) => "green"
    case Some(Cancelled) => "red"
    case None => "gray"
  }

  /** The icon shows the fallback exactly for unknown statuses, and tells the
      four known statuses apart; it ignores case. */
  lemma IconsIdentifyStatuses(a: string, b: string)
    ensures StatusIcon(a) == "📋" <==> StatusOf(a) == None
    ensures StatusOf(a).Some? && StatusOf(b).Some? ==>
              (StatusIcon(a) == StatusIcon(b) <==> StatusOf(a) == StatusOf(b))
    ensures StatusIcon(Lower(a)) == StatusIcon(a)
  {
    StatusIgnoresCase(a);
    IconsDiffer(StatusOf(a), StatusOf(b));
  }

  lemma IconsDiffer(x: Option<Status>, y: Option<Status>)
    ensures IconFor(x) == "📋" <==> x == None
    ensures IconFor(x) == IconFor(y) <==> x == y
  {
  }

  /** Gray is both the pending colour and the fallback; the other three
      statuses have colours of their own; the colour ignores case. */
  lemma ColorsOfStatuses(a: string, b: string)
    ensures StatusColor(a) == "gray" <==> StatusOf(a) == None || StatusOf(a) == Some(Pending)
    ensures StatusColor(a) == StatusColor(b) && StatusColor(a) != "gray" ==> StatusOf(a) == StatusOf(b)
    ensures StatusColor(Lower(a)) == StatusColor(a)
  {
    StatusIgnoresCase(a);
    ColorsDiffer(StatusOf(a), StatusOf(b));
  }

  lemma ColorsDiffer(x: Option<Status>, y: Option<Status>)
    ensures ColorFor(x) == "gray" <==> x == None || x == Some(Pending)
    ensures ColorFor(x) == ColorFor(y) && ColorFor(x) != "gray" ==> x == y
  {
  }

  /** The API key as shown: its first and last four characters around
      "...", or "****" when it has eight characters or fewer. */
  function MaskKey(key: string): string {
    if |key| > 8 then key[..4] + "..." + key[|key| - 4..] else "****"
  }

  /** The mask shows no more of a key than its first four and last four
      characters: keys that agree there, and all short keys, mask alike. */
  lemma MaskShowsOnlyEnds(a: string, b: string)
    requires |a| > 8 <==> |b| > 8
    requires |a| > 8 ==> a[..4] == b[..4] && a[|a| - 4..] == b[|b| - 4..]
    ensures MaskKey(a) == MaskKey(b)
  {
  }

  /** A long key's mask is eleven characters, so it is never the key itself
      once the key is longer than eleven; a short key's mask is four. */
  lemma MaskShape(key: string)
    ensures |key| > 8 ==> |MaskKey(key)| == 11
    ensures |key| <= 8 ==> |MaskKey(key)| == 4
    ensures |key| > 11 ==> MaskKey(key) != key
  {
    if |key| > 8 {
      var m := MaskKey(key);
      assert m == key[..4] + "..." + key[|key| - 4..];
    }
  }

  /** One entry of the agent's task list. */
  datatype Todo = Todo(content: string, status: string)

  /** What one step of a streamed chunk carries; an absent or empty list is
      the empty sequence. */
  datatype StepData = StepData(todos: seq<Todo>, messages: seq<string>)

  /** One streamed chunk: step name to what that step produced. */
  type Chunk = map<string, StepData>

  /** The task list a chunk brings: that of its "tools" step, if any. */
  function TodoList(chunk: Chunk): (r: seq<Todo>)
    ensures r != [] ==> "tools" in chunk && r == chunk["tools"].todos
  {
    if "tools" in chunk then chunk["tools"].todos else []
  }

  /** The messages a chunk brings: those of its "model" step, if any. */
  function NewMessages(chunk: Chunk): (r: seq<string>)
    ensures r != [] ==> "model" in chunk && r == chunk["model"].messages
  {
    if "model" in chunk then chunk["model"].messages else []
  }

  /** The task map after filling an empty one from `l` in order: content to
      status, a later entry overwriting an earlier one with the same
      content. */
  function FromList(l: seq<Todo>): map<string, string> {
    if l == [] then map[] else FromList(l[..|l| - 1])[l[|l| - 1].content := l[|l| - 1].status]
  }

  /** The map holds exactly the contents of the list, each with the status
      of its last occurrence. */
  lemma FromListHolds(l: seq<Todo>)
    ensures FromList(l).Keys == set t | t in l :: t.content
    ensures forall j :: 0 <= j < |l| && LastWith(l, j) ==> FromList(l)[l[j].content] == l[j].status
  {
    FromListKeys(l);
    FromListValues(l);
  }

  lemma {:induction false} FromListKeys(l: seq<Todo>)
    ensures FromList(l).Keys == set t | t in l :: t.content
    decreases |l|
  {
    if l != [] {
      var front := l[..|l| - 1];
      FromListKeys(front);
      assert (set t | t in l :: t.content) == (set t | t in front :: t.content) + {l[|l| - 1].content} by {
        assert l == front + [l[|l| - 1]];
      }
    }
  }

  lemma {:induction false} FromListValues(l: seq<Todo>)
    ensures forall j :: 0 <= j < |l| && LastWith(l, j) ==>
              l[j].content in FromList(l) && FromList(l)[l[j].content] == l[j].status
    decreases |l|
  {
    if l != [] {
      var front := l[..|l| - 1];
      FromListValues(front);
      forall j | 0 <= j < |l| && LastWith(l, j)
        ensures l[j].content in FromList(l) && FromList(l)[l[j].content] == l[j].status
      {
        if j < |l| - 1 {
          assert LastWith(front, j) by {
            forall m | j < m < |front| ensures front[m].content != front[j].content {
              assert front[m] == l[m];
            }
          }
          assert front[j] == l[j];
        }
      }
    }
  }

  /** `l[j]` is the last entry of `l` with its content. */
  predicate LastWith(l: seq<Todo>, j: nat)
    requires j < |l|
  {
    forall m :: j < m < |l| ==> l[m].content != l[j].content
  }

  /** Duplicate contents collapse: the map has at most as many entries as the
      list, and exactly as many when the contents are distinct. */
  lemma {:induction false} FromListSize(l: seq<Todo>)
    ensures |FromList(l)| <= |l|
    ensures (forall i, j :: 0 <= i < j < |l| ==> l[i].content != l[j].content) ==> |FromList(l)| == |l|
    decreases |l|
  {
    if l != [] {
      var front := l[..|l| - 1];
      FromListSize(front);
      if forall i, j :: 0 <= i < j < |l| ==> l[i].content != l[j].content {
        FromListKeys(front);
        forall i | 0 <= i < |front| ensures front[i].content != l[|l| - 1].content {
          assert front[i] == l[i];
        }
        assert l[|l| - 1].content !in FromList(front);
      }
    }
  }

  /** How many tracked tasks have a status that lower-cases to `name`. */
  function Tally(todos: map<string, string>, name: string): nat {
    |set k | k in todos && Lower(todos[k]) == name|
  }

  /** Each task counts at most once among completed, in progress and pending,
      so the three counts never add up to more than the total. */
  lemma TalliesWithinTotal(todos: map<string, string>)
    ensures Tally(todos, "completed") + Tally(todos, "in_progress") + Tally(todos, "pending") <= |todos|
  {
    var c := set k | k in todos && Lower(todos[k]) == "completed";
    var p := set k | k in todos && Lower(todos[k]) == "in_progress";
    var w := set k | k in todos && Lower(todos[k]) == "pending";
    assert c * p == {} && (c + p) * w == {};
    SubsetSize(c + p + w, todos.Keys);
  }

  lemma {:induction false} SubsetSize<T>(a: set<T>, b: set<T>)
    requires a <= b
    ensures |a| <= |b|
    decreases |b|
  {
    if b != {} {
      var x :| x in b;
      SubsetSize(a - {x}, b - {x});
    }
  }

  /** The run succeeded exactly when the progress line reads all tasks done:
      at least one task, and the completed count equal to the total. */
  lemma SuccessIsFullProgress(todos: map<string, string>)
    ensures (|todos| > 0 && forall k :: k in todos ==> Lower(todos[k]) == "completed")
        <==> (|todos| > 0 && Tally(todos, "completed") == |todos|)
  {
    var c := set k | k in todos && Lower(todos[k]) == "completed";
    if forall k :: k in todos ==> Lower(todos[k]) == "completed" {
      assert c == todos.Keys;
    } else {
      var k :| k in todos && Lower(todos[k]) != "completed";
      SubsetSize(c, todos.Keys - {k});
    }
  }

  /** The last of a list of messages, if any. */
  function LastOf(messages: seq<string>): Option<string> {
    if messages == [] then None else Some(messages[|messages| - 1])
  }

  /** After new messages arrive, the one shown is the newest of them; a chunk
      without messages leaves it as it was. */
  lemma LastAfterArrival(messages: seq<string>, arrived: seq<string>)
    ensures arrived != [] ==> LastOf(messages + arrived) == Some(arrived[|arrived| - 1])
    ensures arrived == [] ==> LastOf(messages + arrived) == LastOf(messages)
  {
    if arrived == [] {
      assert messages + arrived == messages;
    }
  }

  /** The panel's state while a run streams: the current task map and every
      model message so far. */
  class Tracker {
    var todos: map<string, string>
    var messages: seq<string>

    constructor()
      ensures todos == map[] && messages == []
    {
      todos := map[];
      messages := [];
    }

    /** Takes one chunk: its model messages are appended, and a non-empty
        task list replaces the task map wholesale. */
    method Consume(chunk: Chunk)
      modifies this
      ensures messages == old(messages) + NewMessages(chunk)
      ensures todos == if TodoList(chunk) == [] then old(todos) else FromList(TodoList(chunk))
    {
      var list := TodoList(chunk);
      messages := messages + NewMessages(chunk);
      if list != [] {
        todos := map[];
        for i := 0 to |list|
          invariant todos == FromList(list[..i])
          invariant messages == old(messages) + NewMessages(chunk)
        {
          assert list[..i + 1][..i] == list[..i];
          todos := todos[list[i].content := list[i].status];
        }
        assert list[..|list|] == list;
      }
    }

    /** Whether the run succeeded: some task is tracked and every tracked
        status lower-cases to "completed". */
    method AllCompleted() returns (r: bool)
      ensures r <==> |todos| > 0 && forall k :: k in todos ==> Lower(todos[k]) == "completed"
    {
      r := true;
      if todos != map[] {
        var remaining := todos.Keys;
        while remaining != {}
          invariant remaining <= todos.Keys
          invariant forall k :: k in todos && k !in remaining ==> Lower(todos[k]) == "completed"
          decreases |remaining|
        {
          var k :| k in remaining;
          if Lower(todos[k]) != "completed" {
            r := false;
            break;
          }
          remaining := remaining - {k};
        }
      } else {
        r := false;
      }
    }

    /** The message shown as the result: the last one received, if any. */
    function LastMessage(): (r: Option<string>)
      reads this
      ensures r == None <==> messages == []
      ensures r.Some? ==> r.value in messages && r.value == messages[|messages| - 1]
    {
      LastOf(messages)
    }
  }
}
