/** The scheduler's doubly linked task list and its round-robin order. */
module TaskList {
  import opened Bits

  class Task {
    /** Where the kernel heap put this struct. */
    const self: Word
    var pageDirectory: Word
    var next: Task?
    var prev: Task?

    constructor (self: Word, pageDirectory: Word)
      ensures this.self == self && this.pageDirectory == pageDirectory
      ensures next == null && prev == null
    {
      this.self, this.pageDirectory := self, pageDirectory;
      next, prev := null, null;
    }
  }

  /** `order` with its `i`-th task left out. */
  function Without(order: seq<Task>, i: nat): (r: seq<Task>)
    requires i < |order|
    ensures |r| == |order| - 1
  {
    seq(|order| - 1, j requires 0 <= j < |order| - 1 => if j < i then order[j] else order[j + 1])
  }

  /** The index `i` places round from `c`, for at most one turn. */
  function Round(c: nat, i: nat, n: nat): (r: nat)
    requires c < n && i <= n
    ensures r < n
  {
    if c + i < n then c + i else c + i - n
  }

  class Scheduler {
    var head: Task?
    var tail: Task?
    var current: Task?

    constructor ()
      ensures head == null && tail == null && current == null
      ensures Forward([]) && BackLinked([])
    {
      head, tail, current := null, null, null;
    }

    /** Following `next` from the head visits exactly `order`, once each. */
    ghost predicate Forward(order: seq<Task>)
      reads this, order
    {
      && head == (if order == [] then null else order[0])
      && (order != [] ==> order[|order| - 1].next == null)
      && forall i, j :: 0 <= i < j < |order| ==>
           order[i] != order[j] && (j == i + 1 ==> order[i].next == order[j])
    }

    /** The tail and every `prev` agree with `order` as well. */
    ghost predicate BackLinked(order: seq<Task>)
      reads this, order
    {
      && (order != [] ==> tail == order[|order| - 1] && order[0].prev == null)
      && forall i, j :: 0 <= i < j < |order| && j == i + 1 ==> order[j].prev == order[i]
    }

    /** task_get_next */
    function GetNext(): Task?
      requires current != null
      reads this, current
    {
      if current.next == null then head else current.next
    }

    /** task_next, as far as it chooses the task to run; an empty list is a panic. */
    method Next(ghost order: seq<Task>, ghost c: nat)
      requires Forward(order) && c < |order| && current == order[c]
      modifies this`current
      ensures Forward(order) && current == order[Round(c, 1, |order|)]
    {
      var next := GetNext();
      assert c + 1 < |order| ==> order[c].next == order[c + 1];
      current := next;
    }

    /** n switches on n tasks run each task once and come back to the first. */
    method Cycle(ghost order: seq<Task>, ghost c: nat, n: nat) returns (ghost visited: seq<Task>)
      requires Forward(order) && c < |order| == n && current == order[c]
      modifies this`current
      ensures Forward(order) && current == old(current)
      ensures visited == order[c + 1..] + order[..c + 1]
      ensures |visited| == n && forall t :: t in order ==> multiset(visited)[t] == 1
    {
      visited := [];
      for i := 0 to n
        invariant Forward(order) && |visited| == i
        invariant current == order[Round(c, i, n)]
        invariant forall j :: 0 <= j < i ==> visited[j] == order[Round(c, j + 1, n)]
      {
        Next(order, Round(c, i, n));
        visited := visited + [current];
      }
      assert visited == order[c + 1..] + order[..c + 1];
      EachOnce(order, visited, c);
    }

    /** The end of task_new: append, and start with the first task ever. */
    method Append(task: Task, ghost order: seq<Task>)
      requires Forward(order) && (order != [] ==> tail == order[|order| - 1])
      requires task !in order && task.next == null && task.prev == null
      modifies this, task`prev, (if tail != null then {tail} else {})`next
      ensures Forward(order + [task]) && tail == task
      ensures old(BackLinked(order)) ==> BackLinked(order + [task])
      ensures current == if order == [] then task else old(current)
      ensures task.prev == if order == [] then null else order[|order| - 1]
    {
      if head == null {
        head := task;
        tail := task;
        current := task;
        return;
      }
      ghost var after, last := order + [task], |order| - 1;
      assert forall i :: 0 <= i < |order| ==> after[i] == order[i] && order[i] != task;
      tail.next := task;
      task.prev := tail;
      tail := task;
    }

    /** task_list_remove. The forward order comes out without the task exactly when
        UnlinksCleanly holds. */
    method Remove(task: Task, ghost order: seq<Task>, ghost i: nat)
      requires Forward(order) && i < |order| && task == order[i]
      requires current != null
      modifies this, (if task.prev != null then {task.prev} else {})`next
      ensures Forward(Without(order, i)) <==> old(UnlinksCleanly(order, i))
      ensures old(BackLinked(order)) && i == |order| - 1 ==> BackLinked(Without(order, i))
      ensures head == if i > 0 then old(head) else old(task.next)
      ensures forall j :: 0 <= j < |order| ==>
                order[j].next == if old(task.prev) == order[j] then old(task.next) else old(order[j].next)
      ensures tail == if task == old(tail) then old(task.prev) else old(tail)
      ensures current ==
              if task != old(current) then old(current)
              else if |order| == 1 then null else order[Round(i, 1, |order|)]
    {
      ghost var clean, next := UnlinksCleanly(order, i), task.next;
      assert i + 1 < |order| ==> order[i].next == order[i + 1];
      Bypass(task, order);
      assert task.next == next;
      if task == head {
        head := task.next;
      }
      if task == tail {
        tail := task.prev;
      }
      if task == current {
        current := GetNext();
      }
      ForwardWithout(this, order, i, task.prev);
    }

    /** The first statement of task_list_remove. */
    method Bypass(task: Task, ghost order: seq<Task>)
      requires task in order
      modifies (if task.prev != null then {task.prev} else {})`next
      ensures forall j :: 0 <= j < |order| ==>
                order[j].next == if task.prev == order[j] then old(task.next) else old(order[j].next)
    {
      if task.prev != null {
        task.prev.next := task.next;
      }
    }
  }

  /** The `prev` of task `i` is what unlinking it needs: its predecessor, or for the head
      no other task of the list. */
  ghost predicate UnlinksCleanly(order: seq<Task>, i: nat)
    requires i < |order|
    reads order
  {
    if i > 0 then order[i].prev == order[i - 1]
    else forall j :: 1 <= j < |order| ==> order[i].prev != order[j]
  }

  /** Removing a middle task and then the one after it: the second removal follows
      a stale `prev`, and the first task still leads to the removed one. */
  method StaleRemoval(a: Task, b: Task, c: Task) returns (s: Scheduler)
    requires a != b && a != c && b != c
    requires forall t :: t in [a, b, c] ==> t.next == null && t.prev == null
    modifies a, b, c
    ensures !s.Forward([a]) && a.next == c
  {
    s := new Scheduler();
    s.Append(a, []);
    s.Append(b, [a]);
    s.Append(c, [a, b]);
    ghost var abc := [a, b] + [c];
    assert abc[0] == a && abc[1] == b && abc[2] == c;
    s.Remove(b, abc, 1);
    ghost var ac := Without(abc, 1);
    assert ac[0] == a && ac[1] == c;
    assert c.prev == b;
    s.Remove(c, ac, 1);
    assert Without(ac, 1) == [a];
  }

  /** A struct used again: `a` leaves, and the head `b` keeps a `prev` that points to it. A
      new task gets the same block and joins, then `e`. When `b` leaves, the write through
      its `prev` links `a` back to `c`: the two call each other for ever, `e` never runs. */
  method ReusedStruct(a: Task, b: Task, c: Task, e: Task) returns (s: Scheduler)
    requires a != b && a != c && b != c && e != a && e != b && e != c
    requires forall t :: t in [a, b, c, e] ==> t.next == null && t.prev == null
    modifies a, b, c, e
    ensures s.head == c && c.next == a && a.next == c && !s.Forward([c, a, e])
  {
    s := FirstLeaves(a, b, c);
    // kzalloc clears the block for the new task
    a.next, a.prev := null, null;
    ghost var bc := [b, c];
    assert bc[0] == b && bc[1] == c;
    s.Append(a, bc);
    assert bc + [a] == [b, c, a];
    s.Append(e, [b, c, a]);
    ghost var order := [b, c, a, e];
    assert [b, c, a] + [e] == order;
    assert order[0] == b && order[1] == c && order[2] == a && b.prev == a && b.next == c;
    s.Remove(b, order, 0);
    assert Without(order, 0) == [c, a, e];
  }

  /** The first step of that run: the new head still points back at the task that left. */
  method FirstLeaves(a: Task, b: Task, c: Task) returns (s: Scheduler)
    requires a != b && a != c && b != c
    requires forall t :: t in [a, b, c] ==> t.next == null && t.prev == null
    modifies a, b, c
    ensures fresh(s) && s.Forward([b, c]) && s.tail == c && s.current == b && b.prev == a
  {
    s := new Scheduler();
    s.Append(a, []);
    s.Append(b, [a]);
    s.Append(c, [a, b]);
    ghost var abc := [a, b] + [c];
    assert abc[0] == a && abc[1] == b && abc[2] == c;
    s.Remove(a, abc, 0);
    assert Without(abc, 0) == [b, c];
  }

  /** Task `i` is out of the order exactly when its `prev`, the one task whose `next` has
      been set to its successor, was its predecessor, or was no later task for the head. */
  lemma ForwardWithout(s: Scheduler, order: seq<Task>, i: nat, prev: Task?)
    requires i < |order|
    requires forall a, b :: 0 <= a < b < |order| ==> order[a] != order[b]
    requires forall a, b :: 0 <= a < b < |order| && b == a + 1 && order[a] != prev ==> order[a].next == order[b]
    requires order[|order| - 1] != prev ==> order[|order| - 1].next == null
    requires i + 1 < |order| ==> order[i].next == order[i + 1]
    requires i + 1 == |order| ==> order[i].next == null
    requires s.head == if i > 0 then order[0] else order[0].next
    requires forall j :: 0 <= j < |order| && order[j] == prev ==> order[j].next == order[i].next
    ensures s.Forward(Without(order, i)) <==>
      if i > 0 then prev == order[i - 1] else forall j :: 1 <= j < |order| ==> prev != order[j]
  {
    var after := Without(order, i);
    assert forall j :: 0 <= j < |after| ==> after[j] == order[if j < i then j else j + 1];
    if i > 0 {
      assert after[i - 1] == order[i - 1];
      assert i < |after| ==> order[i].next == order[i + 1] == after[i];
    }
    if s.Forward(after) && prev in order {
      var j :| 0 <= j < |order| && order[j] == prev;
      BypassedHere(order, after, i, j);
    }
  }

  /** In a forward list a task with the successor of task `i` is the one before it. */
  lemma BypassedHere(order: seq<Task>, after: seq<Task>, i: nat, j: nat)
    requires i < |order| && j < |order| && after == Without(order, i)
    requires forall a, b :: 0 <= a < b < |order| ==> order[a] != order[b]
    requires i + 1 < |order| ==> order[i].next == order[i + 1]
    requires i + 1 == |order| ==> order[i].next == null
    requires order[j].next == order[i].next
    requires after != [] ==> after[|after| - 1].next == null
    requires forall a, b :: 0 <= a < b < |after| && b == a + 1 ==> after[a].next == after[b]
    ensures j == i || j + 1 == i
  {
    if j != i {
      var m := if j < i then j else j - 1;
      assert after[m] == order[j];
      assert m + 1 < |after| ==> after[m].next == after[m + 1];
    }
  }

  lemma EachOnce(order: seq<Task>, visited: seq<Task>, c: nat)
    requires c < |order| && visited == order[c + 1..] + order[..c + 1]
    requires forall i, j :: 0 <= i < j < |order| ==> order[i] != order[j]
    ensures forall t :: t in order ==> multiset(visited)[t] == 1
  {
    assert order == order[..c + 1] + order[c + 1..];
    assert multiset(visited) == multiset(order);
    forall t | t in order ensures multiset(order)[t] == 1 {
      CountOne(order, t);
    }
  }

  lemma {:induction false} CountOne(order: seq<Task>, t: Task)
    requires forall i, j :: 0 <= i < j < |order| ==> order[i] != order[j]
    ensures multiset(order)[t] == if t in order then 1 else 0
  {
    if order != [] {
      assert order == [order[0]] + order[1..];
      CountOne(order[1..], t);
    }
  }
}
