/**
 * PriorityFuture and PriorityThreadPoolExecutor: work items carrying a
 * thread priority in [Thread.MIN_PRIORITY, Thread.MAX_PRIORITY], and the
 * executor's work queue, a PriorityDeque ordered so that the highest
 * priority sits at the head.
 *
 * A queued task is the value Task(id, priority): `id` stands for the
 * future's object identity (ids of distinct futures differ) and the
 * deque's ordering reads the priority from the value.
 */
module PriorityTasks {
  import opened Lang
  import opened MinMaxHeap
  import opened PriorityDeques

  const MIN_PRIORITY: int := 1
  const NORM_PRIORITY: int := 5
  const MAX_PRIORITY: int := 10

  predicate InRange(priority: int)
  {
    MIN_PRIORITY <= priority <= MAX_PRIORITY
  }

  /** validatePriority: IllegalArgumentException outside [1, 10]. */
  function ValidatePriority(priority: int): (r: Outcome<()>)
    ensures r.Ok? <==> 1 <= priority <= 10
    ensures r.Thrown? ==> r.error == IllegalArgument
  {
    if priority < MIN_PRIORITY || priority > MAX_PRIORITY then Thrown(IllegalArgument) else Ok(())
  }

  const PRIORITY_LABEL: string := "Priority: "

  /** A FutureTask (its callable or runnable is not modelled) with a mutable priority. */
  class PriorityFuture {
    const id: int
    var priority: int

    ghost predicate Valid()
      reads this
    {
      InRange(priority)
    }

    /** Both constructors, after validatePriority has accepted the priority. */
    constructor (id: int, priority: int)
      requires InRange(priority)
      ensures Valid() && this.id == id && this.priority == priority
    {
      this.id := id;
      this.priority := priority;
    }

    function GetPriority(): (p: int)
      reads this
      requires Valid()
      ensures InRange(p) && p == priority
    {
      priority
    }

    /** setPriority: validation comes first, so a rejected value changes nothing. */
    method SetPriority(p: int) returns (r: Outcome<()>)
      requires Valid()
      modifies this
      ensures Valid()
      ensures r.Ok? <==> InRange(p)
      ensures r.Ok? ==> priority == p
      ensures r.Thrown? ==> r.error == IllegalArgument && priority == old(priority)
    {
      r := ValidatePriority(p);
      if r.Ok? {
        priority := p;
      }
    }

    /** toString: the label, then the priority in decimal, which reads back. */
    function ToString(): (s: string)
      reads this
      requires Valid()
      ensures |s| > |PRIORITY_LABEL| && s[..|PRIORITY_LABEL|] == PRIORITY_LABEL
      ensures ParseNat(s[|PRIORITY_LABEL|..]) == Some(priority)
    {
      var digits := IntToString(priority);
      ParseNatToString(priority);
      assert (PRIORITY_LABEL + digits)[|PRIORITY_LABEL|..] == digits;
      PRIORITY_LABEL + digits
    }
  }

  /** The constructors of PriorityFuture: validatePriority runs before anything is stored. */
  method NewPriorityFuture(id: int, priority: int) returns (r: Outcome<PriorityFuture>)
    ensures r.Thrown? <==> !InRange(priority)
    ensures r.Thrown? ==> r.error == IllegalArgument
    ensures r.Ok? ==> fresh(r.value) && r.value.Valid() && r.value.id == id && r.value.priority == priority
  {
    var checked := ValidatePriority(priority);
    if checked.Thrown? {
      return Thrown(checked.error);
    }
    var future := new PriorityFuture(id, priority);
    return Ok(future);
  }

  // ------------------------------------------------------------ the executor's queue

  datatype Task = Task(id: int, priority: int)

  /**
   * PriorityFutureTaskComparator: compare(t1, t2) = t2.priority - t1.priority,
   * i.e. the rank difference of -priority.  Priorities lie in [1, 10], so
   * the subtraction cannot overflow.
   */
  function TaskRank(t: Task): int
  {
    -t.priority
  }

  lemma ComparatorSign(t1: Task, t2: Task)
    requires InRange(t1.priority) && InRange(t2.priority)
    ensures IsInt32(t2.priority - t1.priority)
    ensures TaskRank(t1) - TaskRank(t2) == t2.priority - t1.priority
    ensures TaskRank(t1) < TaskRank(t2) <==> t1.priority > t2.priority
  {
  }

  /** The tasks after changePriorities(from, to): every from-task re-tagged to. */
  function Retagged(s: seq<Task>, from: int, to: int): (t: seq<Task>)
    ensures |t| == |s|
    ensures forall k :: 0 <= k < |s| ==> t[k].id == s[k].id
    ensures forall k :: 0 <= k < |s| ==> t[k].priority == (if s[k].priority == from then to else s[k].priority)
  {
    seq(|s|, k requires 0 <= k < |s| => Retag(s[k], from, to))
  }

  function Retag(t: Task, from: int, to: int): Task
  {
    if t.priority == from then Task(t.id, to) else t
  }

  lemma RetaggedAppend(s: seq<Task>, t: Task, from: int, to: int)
    ensures Retagged(s + [t], from, to) == Retagged(s, from, to) + [Retag(t, from, to)]
  {
  }

  /** Re-tagging leaves no task with the old priority and keeps the others. */
  lemma RetaggedPriorities(s: seq<Task>, from: int, to: int)
    requires from != to
    ensures forall t :: t in Retagged(s, from, to) ==> t.priority != from
    ensures forall t :: t in s && t.priority != from ==> t in Retagged(s, from, to)
  {
    var r := Retagged(s, from, to);
    forall t | t in s && t.priority != from
      ensures t in r
    {
      var k :| 0 <= k < |s| && s[k] == t;
      assert r[k] == t;
    }
  }

  predicate AllInRange(s: seq<Task>)
  {
    forall k :: 0 <= k < |s| ==> InRange(s[k].priority)
  }

  /**
   * The executor's constructors: the work queue, a deque of corePoolSize
   * slots ordered by the task comparator, is built before anything else, so
   * a corePoolSize below one throws its IllegalArgumentException.
   */
  method NewPriorityThreadPoolExecutor(corePoolSize: int) returns (r: Outcome<PriorityThreadPoolExecutor>)
    requires corePoolSize <= MAX_VALUE
    ensures corePoolSize < 1 <==> r == Thrown(IllegalArgument)
    ensures r.Ok? ==>
      fresh(r.value) && fresh(r.value.workQueue) && r.value.Valid() && r.value.workQueue.Elements() == [] &&
      r.value.workQueue.deque.Length == corePoolSize
  {
    var queue := NewPriorityDeque(corePoolSize, TaskRank);
    if queue.Thrown? {
      return Thrown(queue.error);
    }
    var executor := new PriorityThreadPoolExecutor(queue.value);
    return Ok(executor);
  }

  class PriorityThreadPoolExecutor {
    const workQueue: PriorityDeque<Task>

    ghost predicate Valid()
      reads this, workQueue, workQueue.deque
    {
      workQueue.Valid() && workQueue.rank == TaskRank && AllInRange(workQueue.Elements())
    }

    /** The executor over the work queue its constructor has just built. */
    constructor (queue: PriorityDeque<Task>)
      requires queue.Valid() && queue.rank == TaskRank && queue.Elements() == []
      ensures Valid() && workQueue == queue && workQueue.Elements() == []
    {
      workQueue := queue;
    }

    /** getHighestPriority: the head's priority, Integer.MAX_VALUE for an empty queue. */
    function GetHighestPriority(): (p: int)
      reads this, workQueue, workQueue.deque
      requires Valid()
      ensures workQueue.Elements() == [] ==> p == MAX_VALUE
      ensures workQueue.Elements() != [] ==>
        (exists t :: t in workQueue.Elements() && t.priority == p) &&
        forall t :: t in workQueue.Elements() ==> t.priority <= p
    {
      match workQueue.PeekFirst()
      case Some(task) => task.priority
      case None => MAX_VALUE
    }

    /** getLeastPriority: the peekLast task's priority, Integer.MIN_VALUE for an empty queue. */
    function GetLeastPriority(): (p: int)
      reads this, workQueue, workQueue.deque
      requires Valid()
      ensures workQueue.Elements() == [] ==> p == MIN_VALUE
      ensures workQueue.Elements() != [] ==>
        (exists t :: t in workQueue.Elements() && t.priority == p) &&
        forall t :: t in workQueue.Elements() ==> p <= t.priority
    {
      match workQueue.PeekLast()
      case Some(task) => task.priority
      case None => MIN_VALUE
    }

    /**
     * changePriorities: validates both priorities, snapshots the queue and,
     * for each snapshot task of priority from, removes it, re-tags it to
     * and offers it again.  The queue ends up holding the re-tagged
     * snapshot: same size, every from-task now a to-task, others untouched.
     */
    method ChangePriorities(from: int, to: int) returns (r: Outcome<()>)
      requires Valid()
      modifies workQueue, workQueue.deque
      ensures Valid()
      ensures r.Thrown? <==> !InRange(from) || !InRange(to) || from == to
      ensures r.Thrown? ==> r.error == IllegalArgument && workQueue.Elements() == old(workQueue.Elements())
      ensures r.Ok? ==>
        workQueue.size == old(workQueue.size) &&
        multiset(workQueue.Elements()) == multiset(Retagged(old(workQueue.Elements()), from, to))
    {
      if from < MIN_PRIORITY || from > MAX_PRIORITY || to < MIN_PRIORITY || to > MAX_PRIORITY || from == to {
        return Thrown(IllegalArgument);
      }
      var tasks := workQueue.deque[..workQueue.size];
      RequeueAll(tasks, from, to);
      RetaggedInRange(tasks, from, to);
      InRangeByMultiset(Retagged(tasks, from, to), workQueue.Elements());
      return Ok(());
    }

    /** changePriorities' loop over the snapshot `tasks`. */
    method RequeueAll(tasks: seq<Task>, from: int, to: int)
      requires workQueue.Valid() && workQueue.rank == TaskRank
      requires workQueue.Elements() == tasks
      modifies workQueue, workQueue.deque
      ensures workQueue.Valid() && workQueue.size == |tasks|
      ensures multiset(workQueue.Elements()) == multiset(Retagged(tasks, from, to))
    {
      var i := 0;
      assert tasks[i..] == tasks;
      while i < |tasks|
        invariant 0 <= i <= |tasks|
        invariant workQueue.Valid() && workQueue.size == |tasks|
        invariant workQueue.deque == old(workQueue.deque) || fresh(workQueue.deque)
        invariant multiset(workQueue.Elements()) == multiset(Retagged(tasks[..i], from, to)) + multiset(tasks[i..])
      {
        var task := tasks[i];
        ghost var before := multiset(workQueue.Elements());
        ChangeStart(tasks, i, from, to, before);
        if task.priority == from {
          Requeue(task, to);
        }
        ChangeStep(tasks, i, from, to, before, multiset(workQueue.Elements()));
        i := i + 1;
      }
      assert tasks[..|tasks|] == tasks;
    }

    /** One step of changePriorities: remove the task, re-tag it, offer it again. */
    method Requeue(task: Task, to: int)
      requires workQueue.Valid() && workQueue.rank == TaskRank && task in multiset(workQueue.Elements())
      modifies workQueue, workQueue.deque
      ensures workQueue.Valid() && workQueue.size == old(workQueue.size)
      ensures workQueue.deque == old(workQueue.deque) || fresh(workQueue.deque)
      ensures multiset(workQueue.Elements()) == multiset(old(workQueue.Elements())) - multiset{task} + multiset{Task(task.id, to)}
    {
      var removed := workQueue.Remove(Some(task));
      var offered := workQueue.Offer(Some(Task(task.id, to)));
    }

    /**
     * submit(task, priority): NullPointerException for a null task, then
     * the PriorityFuture constructor's check.  Handing the future to the
     * pool (execute) is not modelled.
     */
    method Submit(task: Option<int>, priority: int) returns (r: Outcome<PriorityFuture>)
      ensures task.None? ==> r == Thrown(NullPointer)
      ensures task.Some? && !InRange(priority) ==> r == Thrown(IllegalArgument)
      ensures task.Some? && InRange(priority) ==>
        r.Ok? && fresh(r.value) && r.value.id == task.value && r.value.priority == priority
    {
      if task.None? {
        return Thrown(NullPointer);
      }
      r := NewPriorityFuture(task.value, priority);
    }

    /** submit(task): Thread.NORM_PRIORITY. */
    method SubmitDefault(task: Option<int>) returns (r: Outcome<PriorityFuture>)
      ensures task.None? ==> r == Thrown(NullPointer)
      ensures task.Some? ==> r.Ok? && fresh(r.value) && r.value.id == task.value && r.value.priority == NORM_PRIORITY
    {
      r := Submit(task, NORM_PRIORITY);
    }
  }

  /** The task changePriorities looks at next is still queued. */
  lemma ChangeStart(tasks: seq<Task>, i: int, from: int, to: int, queued: multiset<Task>)
    requires 0 <= i < |tasks|
    requires queued == multiset(Retagged(tasks[..i], from, to)) + multiset(tasks[i..])
    ensures tasks[i] in queued
  {
    assert tasks[i] in tasks[i..];
  }

  /** One step of changePriorities extends the re-tagged prefix by one task. */
  lemma ChangeStep(tasks: seq<Task>, i: int, from: int, to: int, before: multiset<Task>, after: multiset<Task>)
    requires 0 <= i < |tasks|
    requires before == multiset(Retagged(tasks[..i], from, to)) + multiset(tasks[i..])
    requires tasks[i].priority == from ==> after == before - multiset{tasks[i]} + multiset{Task(tasks[i].id, to)}
    requires tasks[i].priority != from ==> after == before
    ensures after == multiset(Retagged(tasks[..i + 1], from, to)) + multiset(tasks[i + 1..])
  {
    var task := tasks[i];
    var done := Retagged(tasks[..i], from, to);
    assert tasks[i..] == [task] + tasks[i + 1..];
    assert multiset(tasks[i..]) == multiset{task} + multiset(tasks[i + 1..]);
    assert tasks[..i + 1] == tasks[..i] + [task];
    RetaggedAppend(tasks[..i], task, from, to);
    assert multiset(Retagged(tasks[..i + 1], from, to)) == multiset(done) + multiset{Retag(task, from, to)};
  }

  lemma InRangeByMultiset(s: seq<Task>, t: seq<Task>)
    requires AllInRange(s) && multiset(s) == multiset(t)
    ensures AllInRange(t)
  {
    forall k | 0 <= k < |t|
      ensures InRange(t[k].priority)
    {
      assert t[k] in multiset(s);
    }
  }

  lemma RetaggedInRange(s: seq<Task>, from: int, to: int)
    requires AllInRange(s) && InRange(to)
    ensures AllInRange(Retagged(s, from, to))
  {
  }
}
