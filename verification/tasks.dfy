/**
 * The Tasks page: the split of the task list into open and done tasks, the
 * order each part is shown in (open tasks by priority and then newest first,
 * done tasks newest first), and the guard that refuses a blank title.
 */
module TaskList {
  import opened Options
  import opened Sorting

  /** A task as the page holds it; times are milliseconds since the epoch,
      absent when the server sent none. */
  datatype Task = Task(
    title: string,
    completed: bool,
    priority: Option<string>,
    createdAt: Option<int>,
    completedAt: Option<int>)

  /** An entry of `PRIORITIES`. */
  datatype Priority = Priority(value: string, order: nat)

  const Priorities: seq<Priority> := [Priority("high", 0), Priority("normal", 1), Priority("low", 2)]

  /** `PRIORITIES.find((p) => p.value === v)?.order`. */
  function FindOrder(ps: seq<Priority>, v: string): Option<nat>
  {
    if |ps| == 0 then None
    else if ps[0].value == v then Some(ps[0].order)
    else FindOrder(ps[1..], v)
  }

  /** The rank of a task's priority: a missing or empty priority reads as
      "normal", and a value not in the table ranks like "normal". */
  function PriorityRank(p: Option<string>): (r: nat)
    ensures r == 0 <==> p == Some("high")
    ensures r == 2 <==> p == Some("low")
    ensures r <= 2
  {
    var v := if p.None? || p.value == "" then "normal" else p.value;
    FindOrderTable(v);
    FindOrder(Priorities, v).GetOr(1)
  }

  /** The table finds each of its three values and nothing else. */
  lemma FindOrderTable(v: string)
    ensures FindOrder(Priorities, v)
            == if v == "high" then Some(0) else if v == "normal" then Some(1) else if v == "low" then Some(2) else None
  {
    var ps := Priorities;
    assert ps[1..] == [Priority("normal", 1), Priority("low", 2)];
    assert ps[1..][1..] == [Priority("low", 2)];
    assert ps[1..][1..][1..] == [];
    assert FindOrder(ps[1..][1..][1..], v) == None;
    assert FindOrder(ps[1..][1..], v) == if v == "low" then Some(2) else None;
    assert FindOrder(ps[1..], v) == if v == "normal" then Some(1) else if v == "low" then Some(2) else None;
  }

  /** `new Date(t.createdAt || 0)`, `new Date(t.completedAt || 0)`. */
  function CreatedAt(t: Task): int
  {
    t.createdAt.GetOr(0)
  }

  function CompletedAt(t: Task): int
  {
    t.completedAt.GetOr(0)
  }

  /** The comparator of the open tasks: rank ascending, then creation time
      descending. */
  function OpenKey(t: Task): Key
  {
    Key(PriorityRank(t.priority), -CreatedAt(t))
  }

  /** The comparator of the done tasks: completion time descending. */
  function DoneKey(t: Task): Key
  {
    Key(-CompletedAt(t), 0)
  }

  /** `tasks.filter(...)` keeping the open (`done` false) or the done tasks,
      in list order. */
  function Filter(ts: seq<Task>, done: bool): (r: seq<Task>)
    ensures forall i :: 0 <= i < |r| ==> r[i].completed == done
    ensures forall t :: t in ts && t.completed == done ==> t in r
    decreases |ts|
  {
    if |ts| == 0 then []
    else (if ts[0].completed == done then [ts[0]] else []) + Filter(ts[1..], done)
  }

  /** The open and the done tasks together are the whole list. */
  lemma {:induction false} FilterSplits(ts: seq<Task>)
    ensures multiset(Filter(ts, false)) + multiset(Filter(ts, true)) == multiset(ts)
    decreases |ts|
  {
    if |ts| > 0 {
      FilterSplits(ts[1..]);
      SplitStep(ts[0], ts[1..], Filter(ts[1..], false), Filter(ts[1..], true), Filter(ts, false), Filter(ts, true));
      assert ts == [ts[0]] + ts[1..];
    }
  }

  /** Putting one more task in front of a split list puts it in front of
      the part it belongs to. */
  lemma SplitStep(x: Task, rest: seq<Task>, open: seq<Task>, done: seq<Task>, open': seq<Task>, done': seq<Task>)
    requires multiset(open) + multiset(done) == multiset(rest)
    requires open' == (if !x.completed then [x] else []) + open
    requires done' == (if x.completed then [x] else []) + done
    ensures multiset(open') + multiset(done') == multiset([x] + rest)
  {
  }

  /** `incomplete`: the open tasks, sorted stably by `OpenKey`. */
  function Incomplete(ts: seq<Task>): seq<Task>
  {
    Sort(Filter(ts, false), OpenKey)
  }

  /** `completed`: the done tasks, sorted stably by `DoneKey`. */
  function Completed(ts: seq<Task>): seq<Task>
  {
    Sort(Filter(ts, true), DoneKey)
  }

  /** Every task lands in exactly one of the two lists, and no task is added
      or lost. */
  lemma PartitionIsPermutation(ts: seq<Task>)
    ensures multiset(Incomplete(ts)) + multiset(Completed(ts)) == multiset(ts)
    ensures forall t :: t in Incomplete(ts) ==> !t.completed
    ensures forall t :: t in Completed(ts) ==> t.completed
  {
    SortPermutes(Filter(ts, false), OpenKey);
    SortPermutes(Filter(ts, true), DoneKey);
    FilterSplits(ts);
    forall t | t in Incomplete(ts)
      ensures !t.completed
    {
      assert t in multiset(Filter(ts, false));
    }
    forall t | t in Completed(ts)
      ensures t.completed
    {
      assert t in multiset(Filter(ts, true));
    }
  }

  /** Open tasks are shown high before normal before low, and within a
      priority the newest first. */
  lemma IncompleteOrder(ts: seq<Task>)
    ensures var r := Incomplete(ts);
            forall i, j :: 0 <= i < j < |r| ==>
              PriorityRank(r[i].priority) < PriorityRank(r[j].priority)
              || (PriorityRank(r[i].priority) == PriorityRank(r[j].priority) && CreatedAt(r[i]) >= CreatedAt(r[j]))
  {
    SortOrders(Filter(ts, false), OpenKey);
  }

  /** Done tasks are shown most recently completed first. */
  lemma CompletedOrder(ts: seq<Task>)
    ensures var r := Completed(ts);
            forall i, j :: 0 <= i < j < |r| ==> CompletedAt(r[i]) >= CompletedAt(r[j])
  {
    SortOrders(Filter(ts, true), DoneKey);
  }

  /** Open tasks of the same priority and creation time keep their order in
      the list of tasks; so do done tasks completed at the same time. */
  lemma TiesKeepListOrder(ts: seq<Task>, k: Key)
    ensures WithKey(Incomplete(ts), OpenKey, k) == WithKey(Filter(ts, false), OpenKey, k)
    ensures WithKey(Completed(ts), DoneKey, k) == WithKey(Filter(ts, true), DoneKey, k)
  {
    SortStable(Filter(ts, false), OpenKey, k);
    SortStable(Filter(ts, true), DoneKey, k);
  }

  /** The characters `String.prototype.trim` removes: the ECMAScript white
      space and line terminators. */
  predicate IsSpace(c: char)
  {
    var n := c as int;
    n == 0x09 || n == 0x0A || n == 0x0B || n == 0x0C || n == 0x0D || n == 0x20 || n == 0xA0
    || n == 0x1680 || (0x2000 <= n <= 0x200A) || n == 0x2028 || n == 0x2029 || n == 0x202F
    || n == 0x205F || n == 0x3000 || n == 0xFEFF
  }

  /** The string without its leading white space. */
  function TrimStart(s: string): (r: string)
    ensures |r| <= |s| && r == s[|s| - |r|..]
    ensures forall i :: 0 <= i < |s| - |r| ==> IsSpace(s[i])
    ensures |r| > 0 ==> !IsSpace(r[0])
    decreases |s|
  {
    if |s| > 0 && IsSpace(s[0]) then TrimStart(s[1..]) else s
  }

  /** The string without its trailing white space. */
  function TrimEnd(s: string): (r: string)
    ensures |r| <= |s| && r == s[..|r|]
    ensures forall i :: |r| <= i < |s| ==> IsSpace(s[i])
    ensures |r| > 0 ==> !IsSpace(r[|r| - 1])
    decreases |s|
  {
    if |s| > 0 && IsSpace(s[|s| - 1]) then TrimEnd(s[..|s| - 1]) else s
  }

  /** `String.prototype.trim`: empty exactly when `s` is all white space,
      and otherwise starting and ending with a character that is not. */
  function Trim(s: string): (r: string)
    ensures r == "" <==> forall i :: 0 <= i < |s| ==> IsSpace(s[i])
    ensures |r| > 0 ==> !IsSpace(r[0]) && !IsSpace(r[|r| - 1])
  {
    TrimNothingLeft(s);
    TrimEnd(TrimStart(s))
  }

  /** When trimming leaves nothing, everything was white space. */
  lemma TrimNothingLeft(s: string)
    ensures TrimEnd(TrimStart(s)) == "" ==> forall i :: 0 <= i < |s| ==> IsSpace(s[i])
  {
    var a := TrimStart(s);
    if TrimEnd(a) == "" {
      // a non-empty `a` would start with a character that is not white space
      assert |a| == 0;
    }
  }

  /** `handleAdd`: a title that trims to nothing is refused; otherwise the
      trimmed title is sent. */
  function AddTitle(title: string): (r: Option<string>)
    ensures r.None? <==> forall i :: 0 <= i < |title| ==> IsSpace(title[i])
    ensures r.Some? ==> |r.value| > 0 && !IsSpace(r.value[0]) && !IsSpace(r.value[|r.value| - 1])
  {
    var t := Trim(title);
    if t == "" then None else Some(t)
  }

  /** The title `handleAdd` sends is the typed title with white space cut
      from either end and nothing else changed. */
  lemma AddTitleSendsTrimmed(title: string)
    ensures AddTitle(title).Some? ==> TrimmedInfix(title, AddTitle(title).value)
  {
    TrimIsInfix(title);
  }

  /** `t` is a stretch of `s` with only white space cut from either end. */
  predicate TrimmedInfix(s: string, t: string)
  {
    exists i, j :: 0 <= i <= j <= |s| && t == s[i..j]
                   && (forall k :: 0 <= k < i ==> IsSpace(s[k]))
                   && (forall k :: j <= k < |s| ==> IsSpace(s[k]))
  }

  /** The trimmed title is a stretch of the original with only white space
      cut from either end. */
  lemma TrimIsInfix(s: string)
    ensures TrimmedInfix(s, Trim(s))
  {
    var a := TrimStart(s);
    var i := |s| - |a|;
    var b := TrimEnd(a);
    var j := i + |b|;
    TrimEndInside(s, i, a, b);
    assert Trim(s) == s[i..j];
    assert forall k :: 0 <= k < i ==> IsSpace(s[k]);
    assert forall k :: j <= k < |s| ==> IsSpace(s[k]);
  }

  /** Cutting trailing white space from a suffix of `s` cuts only white
      space from `s`. */
  lemma TrimEndInside(s: string, i: nat, a: string, b: string)
    requires i <= |s| && a == s[i..]
    requires |b| <= |a| && b == a[..|b|] && forall k :: |b| <= k < |a| ==> IsSpace(a[k])
    ensures b == s[i..i + |b|]
    ensures forall k :: i + |b| <= k < |s| ==> IsSpace(s[k])
  {
    forall k | i + |b| <= k < |s|
      ensures IsSpace(s[k])
    {
      assert s[k] == a[k - i];
    }
  }
}
