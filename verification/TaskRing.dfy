/** The list of tasks, which the scheduler goes round. */
module TaskRing {

  class Task {
    var next: Task?
    var prev: Task?

    /** A task as kzalloc leaves it. */
    constructor ()
      ensures next == null && prev == null
    {
      next, prev := null, null;
    }
  }

  /** What happens to the list. */
  datatype Event = Created(task: Task) | Removed(task: Task)

  /** The tasks listed after an event: a new task goes to the end, and only the removal of the
      head has any effect. */
  ghost function Step(tasks: seq<Task>, event: Event): seq<Task> {
    match event
    case Created(task) => tasks + [task]
    case Removed(task) => if |tasks| > 0 && task == tasks[0] then tasks[1..] else tasks
  }

  ghost function Listed(events: seq<Event>): seq<Task> {
    if |events| == 0 then [] else Step(Listed(events[..|events| - 1]), events[|events| - 1])
  }

  ghost function AllCreated(events: seq<Event>): seq<Task> {
    if |events| == 0 then []
    else
      var before, last := AllCreated(events[..|events| - 1]), events[|events| - 1];
      if last.Created? then before + [last.task] else before
  }

  /** After any events the list holds the latest tasks created, in order of creation. */
  lemma {:induction false} CreationOrder(events: seq<Event>)
    ensures |Listed(events)| <= |AllCreated(events)|
    ensures Listed(events) == AllCreated(events)[|AllCreated(events)| - |Listed(events)|..]
  {
    if |events| > 0 {
      CreationOrder(events[..|events| - 1]);
    }
  }

  /** How often the head of the list was removed. */
  ghost function HeadRemovals(events: seq<Event>): nat {
    if |events| == 0 then 0
    else
      var before, last := events[..|events| - 1], events[|events| - 1];
      var list := Listed(before);
      HeadRemovals(before) + if last.Removed? && |list| > 0 && list[0] == last.task then 1 else 0
  }

  /** Each removal of the head takes one task off the list, and nothing else does. */
  lemma {:induction false} RemovalsCounted(events: seq<Event>)
    ensures |Listed(events)| + HeadRemovals(events) == |AllCreated(events)|
  {
    if |events| > 0 {
      RemovalsCounted(events[..|events| - 1]);
    }
  }

  /** The place count turns further round a ring of n, from place i, at most once round. */
  function Place(i: nat, count: nat, n: nat): nat
    requires i < n && count <= n
  {
    if i + count < n then i + count else i + count - n
  }

  /** Distinct tasks, each linked to the next one. A task is its own predecessor, unless it was
      created into an empty list and so has none. */
  ghost predicate Linked(tasks: seq<Task>)
    reads tasks
  {
    |tasks| > 0 ==>
      && tasks[0] !in tasks[1..]
      && tasks[0].next == (if |tasks| > 1 then tasks[1] else null)
      && (tasks[0].prev == null || tasks[0].prev == tasks[0])
      && (|tasks| > 1 ==> tasks[1].prev == tasks[1])
      && Linked(tasks[1..])
  }

  lemma {:induction false} LinkedAt(tasks: seq<Task>, i: nat)
    requires Linked(tasks) && i < |tasks|
    ensures tasks[i].next == if i + 1 < |tasks| then tasks[i + 1] else null
    ensures tasks[i].prev == tasks[i] || (i == 0 && tasks[i].prev == null)
    ensures tasks[i] == tasks[0] <==> i == 0
    ensures tasks[i] == tasks[|tasks| - 1] <==> i == |tasks| - 1
  {
    var rest := tasks[1..];
    assert forall j :: 0 < j < |tasks| ==> tasks[j] == rest[j - 1];
    if i > 0 {
      LinkedAt(rest, i - 1);
    }
  }

  lemma {:induction false} LinkedDistinct(tasks: seq<Task>, i: nat, j: nat)
    requires Linked(tasks) && i < j < |tasks|
    ensures tasks[i] != tasks[j]
  {
    assert tasks[1..][j - 1] == tasks[j];
    if i > 0 {
      LinkedDistinct(tasks[1..], i - 1, j - 1);
    }
  }

  /** A new task goes to the end: the last task is linked to it, and it to itself. */
  twostate lemma {:induction false} LinkedAfterAppend(tasks: seq<Task>, new task: Task)
    requires |tasks| > 0 && old(Linked(tasks)) && task !in tasks
    requires task.next == null && task.prev == task
    requires tasks[|tasks| - 1].next == task
    requires forall i :: 0 <= i < |tasks| ==> tasks[i].prev == old(tasks[i].prev)
    requires forall i :: 0 <= i < |tasks| - 1 ==> tasks[i].next == old(tasks[i].next)
    ensures Linked(tasks + [task])
  {
    var rest := tasks[1..];
    assert (tasks + [task])[1..] == rest + [task];
    if |tasks| > 1 {
      assert forall i :: 0 <= i < |rest| ==> rest[i] == tasks[i + 1];
      LinkedAfterAppend(rest, task);
    } else {
      assert rest + [task] == [task];
      assert Linked([task]);
    }
  }

  class TaskList {
    var head: Task?
    var tail: Task?
    var curr: Task?
    /** The tasks in the list, oldest first. */
    ghost var tasks: seq<Task>
    /** The place of curr among them. */
    ghost var turn: nat

    /** The links from head list the tasks in order of creation and end at tail. */
    ghost predicate Valid()
      reads this, tasks
    {
      && Linked(tasks)
      && (if |tasks| == 0 then head == null && curr == null
          else head == tasks[0] && tail == tasks[|tasks| - 1] && turn < |tasks| && curr == tasks[turn])
    }

    constructor ()
      ensures Valid() && tasks == []
    {
      head, tail, curr, tasks, turn := null, null, null, [], 0;
    }

    /** task_new, given what kzalloc and task_init returned: a new task goes to the end of the
        list, and becomes the current one only if the list was empty. */
    method New(task: Task?, res: int) returns (made: Task?)
      requires Valid()
      requires task != null ==> task !in tasks && task.next == null && task.prev == null
      modifies this, tasks, task
      ensures Valid()
      ensures made == if res == 0 then task else null
      ensures tasks == if made == null then old(tasks) else Step(old(tasks), Created(made))
      ensures made != null ==> tasks == old(tasks) + [made]
      ensures curr == if made != null && old(head) == null then made else old(curr)
    {
      if task == null || res != 0 {
        return null;
      }

      tasks := tasks + [task];
      if head == null {
        turn := 0;
        head, tail, curr := task, task, task;
        return task;
      }
      label linking:
      assert forall i :: 0 <= i < |old(tasks)| - 1 ==> old(tasks)[i] != tail by {
        forall i | 0 <= i < |old(tasks)| - 1
          ensures old(tasks)[i] != tail
        {
          LinkedDistinct(old(tasks), i, |old(tasks)| - 1);
        }
      }
      tail.next := task;
      task.prev := task;
      tail := task;
      LinkedAfterAppend@linking(old(tasks), task);
      return task;
    }

    /** task_switch, without loading the directory. */
    method Switch(task: Task)
      requires Valid() && task in tasks
      modifies this`curr, this`turn
      ensures Valid() && curr == task
    {
      ghost var i :| 0 <= i < |tasks| && tasks[i] == task;
      turn := i;
      curr := task;
    }

    /** The task whose turn comes after t's: what task_get_next reads off the links. */
    ghost function Successor(t: Task): Task?
      reads this, t
    {
      if t.next == null then head else t.next
    }

    /** task_get_next */
    method GetNext() returns (task: Task?)
      requires curr != null
      ensures task == Successor(curr)
    {
      if curr.next == null {
        return head;
      }
      return curr.next;
    }

    /** task_list_remove. The head leaves the list; any other task, being its own predecessor,
        stays in it. Either way, if it was the current task, its successor takes over. */
    method Remove(task: Task)
      requires Valid() && task in tasks
      modifies this, tasks
      ensures Valid()
      ensures tasks == Step(old(tasks), Removed(task))
      ensures task == old(tasks)[0] ==> task !in tasks && old(tasks) == [task] + tasks
      ensures task != old(tasks)[0] ==> tasks == old(tasks)
      ensures task != old(curr) ==> curr == old(curr)
      ensures task == old(curr) ==>
                curr == if |old(tasks)| == 1 then null else old(Successor(task))
    {
      ghost var i :| 0 <= i < |tasks| && tasks[i] == task;
      ghost var rest := tasks[1..];
      LinkedAt(tasks, i);
      LinkedAt(tasks, turn);
      assert |rest| > 0 ==> rest[0] == tasks[1] && rest[|rest| - 1] == tasks[|tasks| - 1];
      assert turn > 0 ==> rest[turn - 1] == curr;
      assert i == 0 && turn + 1 < |tasks| ==> rest[turn] == tasks[turn + 1];
      if task.prev != null {
        task.prev.next := task.next;
      }
      assert Linked(tasks) && task.next == old(task.next) && task.prev == old(task.prev);
      if task == head {
        head := task.next;
        tasks := rest;
        turn := if turn == 0 then 0 else turn - 1;
      } else if task == curr {
        turn := if turn + 1 < |tasks| then turn + 1 else 0;
      }
      if task == tail {
        tail := task.prev;
      }
      assert |tasks| > 0 ==> head == tasks[0] && tail == tasks[|tasks| - 1];
      if task == curr {
        curr := GetNext();
      }
    }

    /** The task whose turn comes count turns after t's. */
    ghost function After(t: Task, count: nat): (r: Task)
      requires Valid() && t in tasks
      reads this, tasks
      ensures r in tasks
      decreases count
    {
      if count == 0 then t
      else SuccessorListed(t); After(Successor(t), count - 1)
    }

    lemma {:induction false} SuccessorListed(t: Task)
      requires Valid() && t in tasks
      ensures Successor(t) in tasks
    {
      var i :| 0 <= i < |tasks| && tasks[i] == t;
      LinkedAt(tasks, i);
      assert Successor(t) == tasks[if i + 1 < |tasks| then i + 1 else 0];
    }

    /** Following the links, the tasks take turns in order of creation, round and round. */
    lemma {:induction false} TurnsGoRound(i: nat, count: nat)
      requires Valid() && i < |tasks| && count <= |tasks|
      ensures After(tasks[i], count) == tasks[Place(i, count, |tasks|)]
      decreases count
    {
      if count > 0 {
        LinkedAt(tasks, i);
        TurnsGoRound(if i + 1 < |tasks| then i + 1 else 0, count - 1);
      }
    }

    /** In as many turns as there are tasks, each task gets exactly one, and then it is t's
        turn again. */
    lemma {:induction false} EveryTaskOneTurn(t: Task, u: Task)
      requires Valid() && t in tasks && u in tasks
      ensures After(t, |tasks|) == t
      ensures exists count :: 0 <= count < |tasks| && After(t, count) == u
      ensures forall count, other ::
                (0 <= count < |tasks| && 0 <= other < |tasks| && After(t, count) == After(t, other)
                 ==> count == other)
    {
      var n := |tasks|;
      var i :| 0 <= i < n && tasks[i] == t;
      var j :| 0 <= j < n && tasks[j] == u;
      forall count | 0 <= count <= n
        ensures After(t, count) == tasks[Place(i, count, n)]
      {
        TurnsGoRound(i, count);
      }
      assert After(t, if i <= j then j - i else j + n - i) == u;
      forall count, other | 0 <= count < other < n
        ensures After(t, count) != After(t, other)
      {
        var p, q := Place(i, count, n), Place(i, other, n);
        LinkedDistinct(tasks, if p < q then p else q, if p < q then q else p);
      }
    }
  }
}
