/**
  The task scheduler: a binary heap of tasks ordered by user priority and then task number, its two sift
  loops, and the drain that executes every task in order.
 */
module TaskHeap {
  import opened Options

  datatype Task = Task(priority: int, user: nat, id: int)

  /** Smaller priority numbers go first; among equals the smaller task number. */
  predicate Before(a: Task, b: Task) {
    a.priority < b.priority || (a.priority == b.priority && a.id < b.id)
  }

  /** 1 when a goes first, -1 when b does, 0 when neither. */
  function CompareTo(a: Task, b: Task): (c: int)
    ensures c == 1 <==> a.priority < b.priority || (a.priority == b.priority && a.id < b.id)
    ensures c == -1 <==> b.priority < a.priority || (b.priority == a.priority && b.id < a.id)
    ensures c == 0 <==> a.priority == b.priority && a.id == b.id
  {
    if a.priority < b.priority then 1
    else if a.priority > b.priority then -1
    else if a.id < b.id then 1
    else if a.id > b.id then -1
    else 0
  }

  predicate NotAfter(a: Task, b: Task) { !Before(b, a) }

  lemma NotAfterTransitive(a: Task, b: Task, c: Task)
    requires NotAfter(a, b) && NotAfter(b, c)
    ensures NotAfter(a, c)
  {}

  function Parent(i: int): int { (i - 1) / 2 }

  ghost predicate HeapOrdered(h: seq<Task>) {
    forall i {:trigger Parent(i)} :: 0 < i < |h| ==> NotAfter(h[Parent(i)], h[i])
  }

  /** The root of a heap goes before everything in it. */
  lemma {:induction false} RootIsFirst(h: seq<Task>, i: nat)
    requires HeapOrdered(h) && i < |h|
    ensures NotAfter(h[0], h[i])
  {
    if i > 0 {
      RootIsFirst(h, Parent(i));
      NotAfterTransitive(h[0], h[Parent(i)], h[i]);
    }
  }

  function Swap<T>(s: seq<T>, i: nat, j: nat): seq<T>
    requires i < |s| && j < |s|
  {
    s[i := s[j]][j := s[i]]
  }

  lemma SwapPermutes<T>(s: seq<T>, i: nat, j: nat)
    requires i < |s| && j < |s|
    ensures multiset(Swap(s, i, j)) == multiset(s)
  {}

  /** Ordered everywhere but between `child` and its parent, whose subtrees are still below that parent. */
  ghost predicate OrderedAbove(h: seq<Task>, child: nat) {
    && child < |h|
    && (forall i {:trigger Parent(i)} :: 0 < i < |h| && i != child ==> NotAfter(h[Parent(i)], h[i]))
    && (forall i {:trigger Parent(i)} :: 0 < i < |h| && Parent(i) == child && child > 0 ==> NotAfter(h[Parent(child)], h[i]))
  }

  lemma SiftUpStep(h: seq<Task>, child: nat)
    requires OrderedAbove(h, child) && child > 0 && Before(h[child], h[Parent(child)])
    ensures OrderedAbove(Swap(h, Parent(child), child), Parent(child))
  {}

  /** Ordered everywhere but between `parent` and its children, which are still below its own parent. */
  ghost predicate OrderedBelow(h: seq<Task>, parent: nat) {
    && parent < |h|
    && (forall i {:trigger Parent(i)} :: 0 < i < |h| && Parent(i) != parent ==> NotAfter(h[Parent(i)], h[i]))
    && (forall i {:trigger Parent(i)} :: 0 < i < |h| && Parent(i) == parent && parent > 0 ==> NotAfter(h[Parent(parent)], h[i]))
  }

  lemma SiftDownStep(h: seq<Task>, parent: nat, child: nat)
    requires OrderedBelow(h, parent) && child < |h| && child > 0 && Parent(child) == parent
    requires Before(h[child], h[parent])
    requires forall i {:trigger Parent(i)} :: 0 < i < |h| && Parent(i) == parent ==> NotAfter(h[child], h[i])
    ensures OrderedBelow(Swap(h, parent, child), child)
  {}

  lemma LastReplacesRoot(h: seq<Task>)
    requires |h| > 1 && HeapOrdered(h)
    ensures var h' := h[..|h| - 1][0 := h[|h| - 1]];
            multiset(h) == multiset(h') + multiset{h[0]} && OrderedBelow(h', 0)
  {
    var n := |h| - 1;
    var h' := h[..n][0 := h[n]];
    assert h == [h[0]] + h[1..n] + [h[n]];
    assert h' == [h[n]] + h[1..n];
    forall i | 0 < i < |h'| && Parent(i) != 0 ensures NotAfter(h'[Parent(i)], h'[i]) {
      assert NotAfter(h[Parent(i)], h[i]);
    }
  }

  class MinHeap {
    var heap: seq<Task>

    ghost predicate Valid()
      reads this
    {
      HeapOrdered(heap)
    }

    constructor ()
      ensures Valid() && heap == []
    {
      heap := [];
    }

    method Add(task: Task)
      requires Valid()
      modifies this
      ensures Valid() && multiset(heap) == multiset(old(heap)) + multiset{task}
    {
      heap := heap + [task];
      var child: nat := |heap| - 1;
      assert OrderedAbove(heap, child);
      while child > 0 && CompareTo(heap[child], heap[Parent(child)]) == 1
        invariant OrderedAbove(heap, child)
        invariant multiset(heap) == multiset(old(heap)) + multiset{task}
        decreases child
      {
        var parent := Parent(child);
        SiftUpStep(heap, child);
        SwapPermutes(heap, parent, child);
        heap := Swap(heap, parent, child);
        child := parent;
      }
    }

    method IsEmpty() returns (empty: bool)
      ensures empty <==> heap == []
    {
      return |heap| == 0;
    }

    /** The root comes off, the last task takes its place and sinks to where it belongs. */
    method Poll() returns (result: Option<Task>)
      requires Valid()
      modifies this
      ensures Valid() && (result.None? <==> old(heap) == [])
      ensures result.None? ==> heap == []
      ensures result.Some? ==> multiset(old(heap)) == multiset(heap) + multiset{result.value}
      ensures result.Some? ==> forall t :: t in multiset(heap) ==>
                result.value.priority < t.priority
                || (result.value.priority == t.priority && result.value.id <= t.id)
    {
      if |heap| == 0 { return None; }
      result := Some(heap[0]);
      RootBeforeAll(heap);
      if |heap| == 1 {
        assert heap == [result.value];
        heap := [];
        return;
      }
      LastReplacesRoot(heap);
      heap := heap[..|heap| - 1][0 := heap[|heap| - 1]];
      SiftDown();
      assert forall t :: t in multiset(heap) ==> NotAfter(result.value, t);
    }

    method SiftDown()
      requires heap != [] && OrderedBelow(heap, 0)
      modifies this
      ensures Valid() && multiset(heap) == multiset(old(heap))
    {
      var parent := 0;
      while true
        invariant OrderedBelow(heap, parent) && multiset(heap) == multiset(old(heap))
        decreases |heap| - parent
      {
        var leftChild := 2 * parent + 1;
        if leftChild >= |heap| { break; }
        var rightChild := leftChild + 1;
        var child := leftChild;
        if rightChild < |heap| && CompareTo(heap[rightChild], heap[leftChild]) == 1 { child := rightChild; }
        if CompareTo(heap[child], heap[parent]) != 1 { break; }
        SiftDownStep(heap, parent, child);
        SwapPermutes(heap, parent, child);
        heap := Swap(heap, parent, child);
        parent := child;
      }
    }
  }

  lemma RootBeforeAll(h: seq<Task>)
    requires HeapOrdered(h) && h != []
    ensures forall t :: t in multiset(h) ==> NotAfter(h[0], t)
  {
    forall t | t in multiset(h) ensures NotAfter(h[0], t) {
      var i: nat :| i < |h| && h[i] == t;
      RootIsFirst(h, i);
    }
  }

  // ---------------------------------------------------------------- the task manager

  datatype Created = Accepted | InvalidUser

  ghost predicate InOrder(s: seq<Task>) {
    forall i, j :: 0 <= i < j < |s| ==> NotAfter(s[i], s[j])
  }

  ghost predicate StrictlyInOrder(s: seq<Task>) {
    forall i, j :: 0 <= i < j < |s| ==> Before(s[i], s[j])
  }

  /** No two tasks share both priority and number. */
  ghost predicate DistinctKeys(s: seq<Task>) {
    forall i, j :: 0 <= i < j < |s| ==> s[i].priority != s[j].priority || s[i].id != s[j].id
  }

  predicate SameKey(a: Task, b: Task) {
    a.priority == b.priority && a.id == b.id
  }

  /** The same of a collection: no task occurs twice, and no two tasks share a key. */
  ghost predicate DistinctTasks(m: multiset<Task>) {
    forall a, b :: a in m && b in m && SameKey(a, b) ==> a == b && m[a] == 1
  }

  lemma OccursOnce(s: seq<Task>, i: nat)
    requires i < |s| && forall j :: 0 <= j < |s| && j != i ==> s[j] != s[i]
    ensures multiset(s)[s[i]] == 1
  {
    assert s == s[..i] + [s[i]] + s[i + 1..];
  }

  lemma OccursTwice(s: seq<Task>, i: nat, j: nat)
    requires i < j < |s| && s[i] == s[j]
    ensures multiset(s)[s[i]] >= 2
  {
    assert s == s[..i] + [s[i]] + s[i + 1..j] + [s[j]] + s[j + 1..];
  }

  /** Whether keys are distinct does not depend on the order of the tasks. */
  lemma DistinctKeysOfMultiset(s: seq<Task>)
    ensures DistinctKeys(s) <==> DistinctTasks(multiset(s))
  {
    if DistinctKeys(s) {
      forall a, b | a in multiset(s) && b in multiset(s) && SameKey(a, b) ensures a == b && multiset(s)[a] == 1 {
        var i: nat :| i < |s| && s[i] == a;
        OccursOnce(s, i);
      }
    }
    if DistinctTasks(multiset(s)) {
      forall i, j | 0 <= i < j < |s| ensures !SameKey(s[i], s[j]) {
        if SameKey(s[i], s[j]) { OccursTwice(s, i, j); }
      }
    }
  }

  /** A priority-ordered permutation is strictly ordered exactly when the tasks given had distinct keys. */
  lemma StrictExactlyWhenDistinct(given: seq<Task>, executed: seq<Task>)
    requires multiset(executed) == multiset(given) && InOrder(executed)
    ensures StrictlyInOrder(executed) <==> DistinctKeys(given)
  {
    DistinctKeysOfMultiset(given);
    DistinctKeysOfMultiset(executed);
  }

  /** Two users of one priority, both given task number 7: neither order of execution is strict. */
  lemma SharedNumberIsNotStrict(executed: seq<Task>)
    requires multiset(executed) == multiset([Task(1, 0, 7), Task(1, 1, 7)]) && InOrder(executed)
    ensures !StrictlyInOrder(executed)
  {
    StrictExactlyWhenDistinct([Task(1, 0, 7), Task(1, 1, 7)], executed);
  }

  lemma AppendInOrder(s: seq<Task>, t: Task)
    requires InOrder(s) && forall x :: x in multiset(s) ==> NotAfter(x, t)
    ensures InOrder(s + [t])
  {}

  class TaskManager {
    const tasks: MinHeap
    /** The priority of each user, by user number. */
    var users: seq<int>

    ghost predicate Valid()
      reads this, tasks
    {
      tasks.Valid()
    }

    constructor (priorities: seq<int>)
      ensures Valid() && fresh(tasks) && tasks.heap == [] && users == priorities
    {
      tasks := new MinHeap();
      users := priorities;
    }

    method CreateTask(taskId: int, userId: int) returns (r: Created)
      requires Valid()
      modifies tasks
      ensures Valid() && (r.Accepted? <==> 0 <= userId < |users|)
      ensures multiset(tasks.heap) == multiset(old(tasks.heap))
              + if r.Accepted? then multiset{Task(users[userId], userId, taskId)} else multiset{}
    {
      if !(0 <= userId < |users|) { return InvalidUser; }
      tasks.Add(Task(users[userId], userId, taskId));
      return Accepted;
    }

    /**
      Executes every task: a permutation of the tasks waiting, in priority order; the order is strict exactly
      when no two of them share priority and number.
     */
    method Execute() returns (executed: seq<Task>)
      requires Valid()
      modifies tasks
      ensures Valid() && tasks.heap == []
      ensures multiset(executed) == multiset(old(tasks.heap)) && InOrder(executed)
      ensures forall i, j :: 0 <= i < j < |executed| ==>
                executed[i].priority < executed[j].priority
                || (executed[i].priority == executed[j].priority && executed[i].id <= executed[j].id)
      ensures StrictlyInOrder(executed) <==> DistinctKeys(old(tasks.heap))
    {
      executed := [];
      var empty := tasks.IsEmpty();
      while !empty
        invariant Valid() && (empty <==> tasks.heap == [])
        invariant multiset(executed) + multiset(tasks.heap) == multiset(old(tasks.heap))
        invariant InOrder(executed)
        invariant forall x, t :: x in multiset(executed) && t in multiset(tasks.heap) ==> NotAfter(x, t)
        decreases |multiset(tasks.heap)|
      {
        var task := tasks.Poll();
        AppendInOrder(executed, task.value);
        executed := executed + [task.value];
        empty := tasks.IsEmpty();
      }
      StrictExactlyWhenDistinct(old(tasks.heap), executed);
    }
  }

  // ---------------------------------------------------------------- a whole session

  /** A trimmed line of input. */
  datatype Line = Blank | ExecuteCommand | Number(userId: int) | NotANumber

  predicate Creates(users: seq<int>, line: Line) {
    line.Number? && 0 <= line.userId < |users|
  }

  /** The tasks a session creates before its execute command, numbered upwards from next. */
  function Requested(users: seq<int>, lines: seq<Line>, next: nat): seq<Task> {
    if lines == [] || lines[0].ExecuteCommand? then []
    else if Creates(users, lines[0])
    then [Task(users[lines[0].userId], lines[0].userId, next)] + Requested(users, lines[1..], next + 1)
    else Requested(users, lines[1..], next)
  }

  /** Consecutive numbers from next on, each task with the priority of its user. */
  ghost predicate NumberedFrom(users: seq<int>, s: seq<Task>, next: nat) {
    forall i :: 0 <= i < |s| ==> s[i].id == next + i && s[i].user < |users| && s[i].priority == users[s[i].user]
  }

  /** A counter hands out the numbers. */
  lemma {:induction false} NumbersIncrease(users: seq<int>, lines: seq<Line>, next: nat)
    ensures NumberedFrom(users, Requested(users, lines, next), next)
  {
    if lines == [] || lines[0].ExecuteCommand? {
    } else if Creates(users, lines[0]) {
      NumbersIncrease(users, lines[1..], next + 1);
    } else {
      NumbersIncrease(users, lines[1..], next);
    }
  }

  lemma RequestedStep(users: seq<int>, lines: seq<Line>, i: nat, next: nat)
    requires i < |lines|
    ensures multiset(Requested(users, lines[i..], next)) ==
            if lines[i].ExecuteCommand? then multiset{}
            else if Creates(users, lines[i])
            then multiset{Task(users[lines[i].userId], lines[i].userId, next)}
                 + multiset(Requested(users, lines[i + 1..], next + 1))
            else multiset(Requested(users, lines[i + 1..], next))
  {
    assert lines[i..][1..] == lines[i + 1..];
  }

  lemma SessionIsStrict(users: seq<int>, lines: seq<Line>, executed: seq<Task>)
    requires multiset(executed) == multiset(Requested(users, lines, 0)) && InOrder(executed)
    ensures StrictlyInOrder(executed)
  {
    NumbersIncrease(users, lines, 0);
    StrictExactlyWhenDistinct(Requested(users, lines, 0), executed);
  }

  /**
    The whole program: a session executes exactly the tasks it requested, in strictly increasing order of
    priority and number, and nothing if it never gives the execute command.
   */
  method Session(priorities: seq<int>, lines: seq<Line>) returns (executed: seq<Task>)
    ensures ExecuteCommand !in lines ==> executed == []
    ensures ExecuteCommand in lines ==> multiset(executed) == multiset(Requested(priorities, lines, 0))
    ensures forall i, j :: 0 <= i < j < |executed| ==>
              executed[i].priority < executed[j].priority
              || (executed[i].priority == executed[j].priority && executed[i].id < executed[j].id)
  {
    var system := new TaskManager(priorities);
    var taskId: nat := 0;
    var i := 0;
    assert lines[0..] == lines;
    while i < |lines|
      invariant 0 <= i <= |lines| && system.Valid() && fresh(system.tasks) && system.users == priorities
      invariant forall k :: 0 <= k < i ==> !lines[k].ExecuteCommand?
      invariant multiset(system.tasks.heap) + multiset(Requested(priorities, lines[i..], taskId))
             == multiset(Requested(priorities, lines, 0))
    {
      RequestedStep(priorities, lines, i, taskId);
      if lines[i].ExecuteCommand? {
        executed := system.Execute();
        SessionIsStrict(priorities, lines, executed);
        return;
      }
      if lines[i].Number? && lines[i].userId >= 0 {
        var created := system.CreateTask(taskId, lines[i].userId);
        if created.Accepted? { taskId := taskId + 1; }
      }
      i := i + 1;
    }
    executed := [];
  }
}
