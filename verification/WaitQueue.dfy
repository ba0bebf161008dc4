/** `task_wait_queue`: a circular doubly linked list of waiting tasks, oldest at the head. */
module WaitQueue {
  import opened RunQueues
  import opened TaskRings

  /** Node addresses are numbers; 0 is null. `nextNode` is where the next node is allocated. */
  datatype Queue = Queue(head: int, next: map<int, int>, prev: map<int, int>, task: map<int, int>, nextNode: int)

  predicate NodesOk(task: map<int, int>, nextNode: int, ring: seq<int>)
  {
    NoRepeats(ring) && 0 < nextNode && forall i :: 0 <= i < |ring| ==> 0 < ring[i] < nextNode && ring[i] in task
  }

  /** The pointers of the queue go round `ring`, starting at its head. */
  predicate QueueOk(q: Queue, ring: seq<int>)
  {
    q.head == StartOf(ring) && RingLinked(q.next, q.prev, ring) && NodesOk(q.task, q.nextNode, ring)
  }

  /** The tasks along the ring, oldest first. */
  function Tasks(task: map<int, int>, ring: seq<int>): (s: seq<int>)
    requires forall i :: 0 <= i < |ring| ==> ring[i] in task
    ensures |s| == |ring| && forall i :: 0 <= i < |ring| ==> s[i] == task[ring[i]]
  {
    seq(|ring|, i requires 0 <= i < |ring| => task[ring[i]])
  }

  /** `enqueue`: the newcomer goes before the head, which is the end of the ring. */
  method EnqueueNode(q: Queue, t: int, ghost ring: seq<int>) returns (q': Queue)
    requires QueueOk(q, ring)
    ensures QueueOk(q', ring + [q.nextNode]) && Tasks(q'.task, ring + [q.nextNode]) == Tasks(q.task, ring) + [t]
  {
    var a := q.nextNode;
    if q.head == 0 {
      assert ring == [];
      q' := Queue(a, q.next[a := a], q.prev[a := a], q.task[a := t], a + 1);
    } else {
      AppendLinked(q.next, q.prev, ring, a);
      var last := q.prev[q.head];
      q' := Queue(q.head, q.next[last := a][a := q.head], q.prev[a := last][q.head := a], q.task[a := t], a + 1);
    }
  }

  lemma RestOfNodes(task: map<int, int>, nextNode: int, ring: seq<int>)
    requires NodesOk(task, nextNode, ring) && ring != []
    ensures NodesOk(task, nextNode, ring[1..]) && Tasks(task, ring) == [task[ring[0]]] + Tasks(task, ring[1..])
    ensures StartOf(ring[1..]) == if NextOn(ring, 0) == ring[0] then 0 else NextOn(ring, 0)
  {
    var rest := ring[1..];
    assert forall i :: 0 <= i < |rest| ==> rest[i] == ring[i + 1];
  }

  /** The pointers without the head. */
  lemma HeadUnhooked(next: map<int, int>, prev: map<int, int>, ring: seq<int>)
    requires RingLinked(next, prev, ring) && ring != [] && NoRepeats(ring)
    ensures ring[0] in next && ring[0] in prev && next[ring[0]] == NextOn(ring, 0) && prev[ring[0]] == PrevOn(ring, 0)
    ensures RingLinked(next[PrevOn(ring, 0) := NextOn(ring, 0)], prev[NextOn(ring, 0) := PrevOn(ring, 0)], ring[1..])
  {
    UnhookLinked(next, prev, ring, 0, ring[1..]);
  }

  /** `dequeue`: the head leaves, and its neighbours close the ring. */
  method DequeueNode(q: Queue, ghost ring: seq<int>) returns (q': Queue, t: int)
    requires QueueOk(q, ring) && ring != []
    ensures QueueOk(q', ring[1..]) && Tasks(q.task, ring) == [t] + Tasks(q'.task, ring[1..])
  {
    HeadUnhooked(q.next, q.prev, ring);
    RestOfNodes(q.task, q.nextNode, ring);
    var h := q.head;
    t := q.task[h];
    var p, n := q.prev[h], q.next[h];
    q' := Queue(if n == h then 0 else n, q.next[p := n], q.prev[n := p], q.task, q.nextNode);
  }

  /** `dequeue_all`: the ring is cut open and walked from the head to its end. */
  method DequeueNodes(q: Queue, ghost ring: seq<int>) returns (q': Queue, tasks: seq<int>)
    requires QueueOk(q, ring) && ring != []
    ensures QueueOk(q', []) && tasks == Tasks(q.task, ring)
  {
    ghost var n := |ring|;
    assert q.prev[ring[0]] == PrevOn(ring, 0) == ring[n - 1];
    var next := q.next[q.prev[q.head] := 0];
    var head := q.head;
    tasks := [];
    ghost var i := 0;
    while head != 0
      invariant 0 <= i <= n && head == (if i < n then ring[i] else 0) && tasks == Tasks(q.task, ring)[..i]
      decreases n - i
    {
      tasks := tasks + [q.task[head]];
      assert q.next[ring[i]] == NextOn(ring, i);
      head := next[head];
      i := i + 1;
    }
    q' := q.(head := 0, next := next);
  }

  /** The first place of `t`, or the length. */
  function FirstOf(s: seq<int>, t: int): (k: int)
    ensures 0 <= k <= |s| && (forall i :: 0 <= i < k ==> s[i] != t) && (k < |s| ==> s[k] == t)
  {
    if s == [] then 0 else if s[0] == t then 0 else 1 + FirstOf(s[1..], t)
  }

  /** A queue without its task at place `k`. */
  function Dropped(s: seq<int>, k: int): seq<int>
  {
    if 0 <= k < |s| then s[..k] + s[k + 1..] else s
  }

  /** Once round the ring, looking for the task: its first node, or the head again. */
  method FindTask(q: Queue, t: int, ghost ring: seq<int>) returns (cur: int)
    requires QueueOk(q, ring) && ring != []
    ensures var k := FirstOf(Tasks(q.task, ring), t);
            cur == if k < |ring| then ring[k] else ring[0]
  {
    ghost var s := Tasks(q.task, ring);
    ghost var k := 0;
    cur := q.head;
    while q.task[cur] != t
      invariant 0 <= k < |ring| && cur == ring[k] && forall j :: 0 <= j < k ==> s[j] != t
      decreases |ring| - k
    {
      assert q.next[ring[k]] == NextOn(ring, k);
      cur := q.next[cur];
      k := k + 1;
      if cur == q.head {
        break;
      }
    }
  }

  /** Taking the node at place `k` out of the ring. */
  method UnhookNode(q: Queue, cur: int, ghost ring: seq<int>, ghost k: int) returns (q': Queue)
    requires QueueOk(q, ring) && 0 <= k < |ring| && cur == ring[k]
    ensures QueueOk(q', ring[..k] + ring[k + 1..]) && q'.task == q.task
  {
    UnhookLinked(q.next, q.prev, ring, k, ring[..k] + ring[k + 1..]);
    var p, n := q.prev[cur], q.next[cur];
    var head := if q.head == cur && n != cur then n else if q.head == cur then 0 else q.head;
    q' := q.(next := q.next[p := n], prev := q.prev[n := p], head := head);
  }

  /** `remove_task`: the first node of the task leaves, wherever it is; without one nothing changes. */
  method RemoveNode(q: Queue, t: int, ghost ring: seq<int>) returns (q': Queue)
    requires QueueOk(q, ring)
    ensures var s := Tasks(q.task, ring);
            var k := FirstOf(s, t);
            QueueOk(q', Dropped(ring, k)) && Tasks(q'.task, Dropped(ring, k)) == Dropped(s, k)
  {
    q' := q;
    if q.head == 0 {
      return;
    }
    var cur := FindTask(q, t, ring);
    if q.task[cur] == t {
      q' := UnhookNode(q, cur, ring, FirstOf(Tasks(q.task, ring), t));
    }
  }

  class TaskWaitQueue {
    var q: Queue
    ghost var ring: seq<int>

    ghost predicate Valid()
      reads this
    {
      QueueOk(q, ring)
    }

    /** Who waits, oldest first. */
    ghost function Waiting(): seq<int>
      reads this
      requires Valid()
    {
      Tasks(q.task, ring)
    }

    constructor ()
      ensures Valid() && Waiting() == []
    {
      q, ring := Queue(0, map[], map[], map[], 1), [];
    }

    method Empty() returns (e: bool)
      requires Valid()
      ensures e <==> Waiting() == []
    {
      e := q.head == 0;
    }

    method Enqueue(t: int)
      requires Valid()
      modifies this
      ensures Valid() && Waiting() == old(Waiting()) + [t]
    {
      var q' := EnqueueNode(q, t, ring);
      ring := ring + [q.nextNode];
      q := q';
    }

    method Dequeue() returns (t: int)
      requires Valid() && Waiting() != []
      modifies this
      ensures Valid() && old(Waiting()) == [t] + Waiting()
    {
      q, t := DequeueNode(q, ring);
      ring := ring[1..];
    }

    method DequeueAll() returns (tasks: seq<int>)
      requires Valid() && Waiting() != []
      modifies this
      ensures Valid() && tasks == old(Waiting()) && Waiting() == []
    {
      q, tasks := DequeueNodes(q, ring);
      ring := [];
    }

    method RemoveTask(t: int)
      requires Valid()
      modifies this
      ensures Valid() && Waiting() == Dropped(old(Waiting()), FirstOf(old(Waiting()), t))
    {
      var q' := RemoveNode(q, t, ring);
      ring := Dropped(ring, FirstOf(Tasks(q.task, ring), t));
      q := q';
    }
  }
}
