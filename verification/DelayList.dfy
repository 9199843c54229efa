/** The delay list: the tasks that wait for a time-out, linked through the tasks themselves. */
module DelayList {

  class Task {
    var next: Task?
    var previous: Task?
  }

  /** Where t stands in the list. */
  function IndexOf<T(==)>(s: seq<T>, t: T): (k: nat)
    requires t in s
    ensures k < |s| && s[k] == t && t !in s[..k]
  {
    if s[0] == t then 0 else 1 + IndexOf(s[1..], t)
  }

  /** The list without t, the others in the same order. */
  function Without<T(==)>(s: seq<T>, t: T): (r: seq<T>)
    requires t in s
    ensures |r| == |s| - 1
  {
    s[..IndexOf(s, t)] + s[IndexOf(s, t) + 1..]
  }

  ghost predicate Distinct<T>(s: seq<T>) {
    forall i, j :: 0 <= i < j < |s| ==> s[i] != s[j]
  }

  /** Removing t keeps the others, in their order. */
  lemma {:induction false} WithoutKeepsOrder<T>(s: seq<T>, t: T, u: T)
    requires Distinct(s) && t in s
    ensures u in Without(s, t) <==> u in s && u != t
    ensures u in s && u != t ==>
      IndexOf(Without(s, t), u) == if IndexOf(s, u) < IndexOf(s, t) then IndexOf(s, u) else IndexOf(s, u) - 1
    ensures Distinct(Without(s, t))
  {
    var r, k := Without(s, t), IndexOf(s, t);
    assert forall i :: 0 <= i < |r| ==> r[i] == s[if i < k then i else i + 1];
    if u in s && u != t {
      var j := IndexOf(s, u);
      IndexUnique(r, u, if j < k then j else j - 1);
    }
  }

  lemma IndexUnique<T>(s: seq<T>, t: T, i: nat)
    requires Distinct(s) && i < |s| && s[i] == t
    ensures t in s && IndexOf(s, t) == i
  {
  }

  /** A task that comes last and leaves leaves the list as it was. */
  lemma IncludeThenRemove<T>(s: seq<T>, t: T)
    requires Distinct(s) && t !in s
    ensures Distinct(s + [t]) && Without(s + [t], t) == s
  {
    IndexUnique(s + [t], t, |s|);
  }

  datatype Op = Include(task: Task) | Remove(task: Task)

  /** Only absent tasks are included and only present ones removed. */
  ghost predicate Legal(s: seq<Task>, ops: seq<Op>)
    decreases |ops|
  {
    ops == [] || match ops[0]
                 case Include(t) => t !in s && Legal(s + [t], ops[1..])
                 case Remove(t) => t in s && Legal(Without(s, t), ops[1..])
  }

  ghost function After(s: seq<Task>, ops: seq<Op>): seq<Task>
    requires Legal(s, ops)
    decreases |ops|
  {
    if ops == [] then s
    else match ops[0]
      case Include(t) => After(s + [t], ops[1..])
      case Remove(t) => After(Without(s, t), ops[1..])
  }

  /** What was done to t last. */
  ghost predicate Present(s: seq<Task>, ops: seq<Op>, t: Task)
    decreases |ops|
  {
    if ops == [] then t in s
    else if ops[|ops| - 1].task == t then ops[|ops| - 1].Include?
    else Present(s, ops[..|ops| - 1], t)
  }

  /** After any run the list holds each task at most once, and just those included since they were last removed. */
  lemma {:induction false} AfterHolds(s: seq<Task>, ops: seq<Op>, t: Task)
    requires Distinct(s) && Legal(s, ops)
    ensures Distinct(After(s, ops)) && (t in After(s, ops) <==> Present(s, ops, t))
    decreases |ops|
  {
    if ops != [] {
      var s' := match ops[0] case Include(u) => s + [u] case Remove(u) => Without(s, u);
      if ops[0].Remove? {
        WithoutKeepsOrder(s, ops[0].task, t);
      }
      AfterHolds(s', ops[1..], t);
      PresentLater(s, s', ops, t);
    }
  }

  lemma {:induction false} PresentLater(s: seq<Task>, s': seq<Task>, ops: seq<Op>, t: Task)
    requires ops != [] && (t in s' <==> if ops[0].task == t then ops[0].Include? else t in s)
    ensures Present(s', ops[1..], t) == Present(s, ops, t)
    decreases |ops|
  {
    if |ops| > 1 {
      assert ops[1..][..|ops| - 2] == ops[..|ops| - 1][1..];
      PresentLater(s, s', ops[..|ops| - 1], t);
    }
  }

  class List {
    var head: Task?
    var tail: Task?
    ghost var tasks: seq<Task>

    /** Head, Tail and the links of the tasks all describe the sequence of tasks. */
    ghost predicate Valid()
      reads this, tasks
    {
      && (forall i, j :: 0 <= i < j < |tasks| ==> tasks[i] != tasks[j])
      && head == (if tasks == [] then null else tasks[0])
      && tail == (if tasks == [] then null else tasks[|tasks| - 1])
      && (forall i {:trigger tasks[i].next} :: 0 <= i < |tasks| ==>
            tasks[i].next == if i + 1 < |tasks| then tasks[i + 1] else null)
      && (forall i {:trigger tasks[i].previous} :: 0 <= i < |tasks| ==>
            tasks[i].previous == if i > 0 then tasks[i - 1] else null)
    }

    constructor ()
      ensures Valid() && tasks == []
    {
      head, tail, tasks := null, null, [];
    }

    /** The task goes to the end of the list. */
    method IncludeTask(task: Task)
      requires Valid() && task !in tasks
      modifies this, task, tail
      ensures Valid() && tasks == old(tasks) + [task]
    {
      if tail != null {
        tail.next := task;
        task.previous := tail;
        tail := task;
        tail.next := null;
      } else {
        tail := task;
        head := task;
        task.next := null;
        task.previous := null;
      }
      tasks := tasks + [task];
    }

    /** The first task leaves the list. */
    method RemoveHead(task: Task)
      requires Valid() && task in tasks && task == head
      modifies this, task.next
      ensures Valid() && tasks == old(tasks)[1..] == Without(old(tasks), task)
      ensures task.next == old(task.next) && task.previous == old(task.previous)
    {
      assert tasks[0].next == task.next;
      if task == tail {
        tail := null;
        head := null;
      } else {
        head := task.next;
        head.previous := null;
      }
      tasks := tasks[1..];
    }

    /** A task behind another one leaves the list. */
    method RemoveBehind(task: Task, ghost k: nat)
      requires Valid() && 0 < k < |tasks| && task == tasks[k]
      modifies this, task.next, task.previous
      ensures Valid() && tasks == old(tasks)[..k] + old(tasks)[k + 1..]
      ensures task.next == old(task.next) && task.previous == old(task.previous)
    {
      assert tasks[k].next == task.next && tasks[k].previous == task.previous == tasks[k - 1];
      if task == tail {
        tail := task.previous;
        tail.next := null;
      } else {
        task.next.previous := task.previous;
        task.previous.next := task.next;
      }
      tasks := tasks[..k] + tasks[k + 1..];
    }

    /** The task leaves the list; its neighbours are linked to each other. */
    method RemoveTask(task: Task)
      requires Valid() && task in tasks
      modifies this, task.next, task.previous
      ensures Valid() && tasks == Without(old(tasks), task)
      ensures task.next == old(task.next) && task.previous == old(task.previous)
    {
      if task == head {
        RemoveHead(task);
      } else {
        RemoveBehind(task, IndexOf(tasks, task));
      }
    }
  }

  ghost function Involved(ops: seq<Op>): set<Task> {
    set o | o in ops :: o.task
  }

  lemma FirstOfRun(s: seq<Task>, ops: seq<Op>)
    requires ops != [] && Legal(s, ops)
    ensures Legal(s, ops[..1]) && Legal(After(s, ops[..1]), ops[1..])
    ensures After(s, ops) == After(After(s, ops[..1]), ops[1..])
    ensures forall t :: t in After(s, ops[..1]) ==> t in s || t == ops[0].task
  {
    var r := match ops[0] case Include(t) => s + [t] case Remove(t) => Without(s, t);
    assert ops[..1][1..] == [] && Legal(r, []) && After(r, []) == r;
    assert ops[..1][0] == ops[0];
  }

  method RunOne(list: List, op: Op)
    requires list.Valid() && Legal(list.tasks, [op])
    modifies list, list.tasks, op.task
    ensures list.Valid() && list.tasks == After(old(list.tasks), [op])
  {
    assert [op][1..] == [];
    assert list.tail != null ==> list.tail in list.tasks;
    match op {
      case Include(t) =>
        list.IncludeTask(t);
      case Remove(t) =>
        ghost var k := IndexOf(list.tasks, t);
        assert t.next == list.tasks[k].next && t.previous == list.tasks[k].previous;
        assert t.next != null ==> t.next in list.tasks;
        assert t.previous != null ==> t.previous in list.tasks;
        list.RemoveTask(t);
    }
  }

  /** Any run of legal operations takes the list from one sequence of tasks to the one that the run describes. */
  method Run(list: List, ops: seq<Op>)
    requires list.Valid() && Legal(list.tasks, ops)
    modifies list, list.tasks, Involved(ops)
    ensures list.Valid() && list.tasks == After(old(list.tasks), ops)
  {
    ghost var all := (set t | t in list.tasks) + Involved(ops);
    var i := 0;
    assert ops[0..] == ops;
    while i < |ops|
      invariant 0 <= i <= |ops| && list.Valid()
      invariant forall t :: t in list.tasks ==> t in all
      invariant Legal(list.tasks, ops[i..]) && After(list.tasks, ops[i..]) == After(old(list.tasks), ops)
    {
      hide List.Valid, Legal, After;
      FirstOfRun(list.tasks, ops[i..]);
      assert ops[i..][..1] == [ops[i]] && ops[i..][1..] == ops[i + 1..];
      assert ops[i] in ops && ops[i].task in all;
      assert forall k :: 0 <= k < |list.tasks| ==> list.tasks[k] in all;
      RunOne(list, ops[i]);
      i := i + 1;
    }
    assert ops[i..] == [];
  }
}
