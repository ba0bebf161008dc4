/** Round robin: how long a ready task waits for its turn, and the order in which a fixed set of tasks is served. */
module RoundRobin {
  import opened RunQueues
  import opened RunQueueRuns

  // ----- the distance from the cursor

  /** How many places after `c` the task `t` stands on the ring. */
  function Distance(ring: seq<int>, c: int, t: int): int
    requires c in ring && t in ring
  {
    var i, j := IndexOf(ring, c), IndexOf(ring, t);
    if j >= i then j - i else j - i + |ring|
  }

  lemma IndexUnique(ring: seq<int>, i: int)
    requires NoRepeats(ring) && 0 <= i < |ring|
    ensures IndexOf(ring, ring[i]) == i
  {
  }

  /** The cursor moves on by at least one place and never past a runnable task. */
  lemma AdvanceApproaches(ring: seq<int>, states: map<int, ThreadState>, n: int, t: int)
    requires NoRepeats(ring) && n in ring && t in ring && t != n && Runnable(states, t) && 0 !in ring
    ensures var c := Advance(ring, states, n); c in ring && Distance(ring, c, t) < Distance(ring, n, t)
  {
    var i, d := IndexOf(ring, n), Distance(ring, n, t);
    assert ring[Around(i, d, |ring|)] == t;
    var e := Scan(ring, states, i, 1);
    assert e <= d;
    IndexUnique(ring, Around(i, e, |ring|));
  }

  lemma AppendDistance(ring: seq<int>, x: int, c: int, t: int)
    requires x !in ring && c in ring && t in ring
    ensures Distance(ring + [x], c, t) <= Distance(ring, c, t) + 1
  {
    AppendIndex(ring, x, c);
    AppendIndex(ring, x, t);
  }

  lemma AppendIndex(ring: seq<int>, x: int, t: int)
    requires t in ring
    ensures t in ring + [x] && IndexOf(ring + [x], t) == IndexOf(ring, t)
  {
    var i, j := IndexOf(ring, t), IndexOf(ring + [x], t);
    assert (ring + [x])[i] == t;
  }

  lemma WithoutIndex(ring: seq<int>, u: int, t: int)
    requires NoRepeats(ring) && u in ring && t in ring && t != u
    ensures t in Without(ring, u)
    ensures IndexOf(Without(ring, u), t) == if IndexOf(ring, t) < IndexOf(ring, u) then IndexOf(ring, t) else IndexOf(ring, t) - 1
  {
  }

  lemma WithoutDistance(ring: seq<int>, u: int, c: int, t: int)
    requires NoRepeats(ring) && u in ring && c in ring && t in ring && c != u && t != u
    ensures c in Without(ring, u) && t in Without(ring, u)
    ensures Distance(Without(ring, u), c, t) <= Distance(ring, c, t)
  {
    WithoutIndex(ring, u, c);
    WithoutIndex(ring, u, t);
  }

  // ----- a waiting task

  /** `t` is ready and not running. */
  predicate Waiting(v: View, t: int)
  {
    Queued(v, t) && t in v.states && v.states[t] == Ready && t != v.current
  }

  lemma WaitingLevel(v: View, t: int)
    requires Kept(v) && Waiting(v, t)
    ensures var p := v.priority[t];
            && v.cursors[p] in v.rings[p] && v.cursors[p] != v.current && v.cursors[p] != 0
            && RingOk(v.rings[p], p, v.states, v.priority)
  {
  }

  function Ahead(v: View, t: int): int
    requires Kept(v) && Waiting(v, t)
  {
    WaitingLevel(v, t);
    Distance(v.rings[v.priority[t]], v.cursors[v.priority[t]], t)
  }

  /** The level an operation picks its next task from, or -1. */
  function PickedLevel(v: View, op: Op): int
    requires Inv(v) && Enabled(v, op)
  {
    match op
    case Switch => Highest(v.cursors, LEVELS)
    case Kill(c) => Highest(KilledView(v, c).cursors, LEVELS)
    case _ => -1
  }

  function Picks(v: View, op: Op, p: int): int
    requires Inv(v) && Enabled(v, op)
  {
    if PickedLevel(v, op) == p then 1 else 0
  }

  function Inserts(op: Op, p: int): int
  {
    if op.Queue? && op.level == p then 1 else 0
  }

  lemma RescheduleApproaches(v: View, t: int)
    requires Kept(v) && Waiting(v, t) && Waiting(Reschedule(v), t)
    ensures Kept(Reschedule(v))
    ensures Ahead(Reschedule(v), t) + (if Highest(v.cursors, LEVELS) == v.priority[t] then 1 else 0) <= Ahead(v, t)
  {
    RescheduleKeeps(v);
    var p := v.priority[t];
    WaitingLevel(v, t);
    if Highest(v.cursors, LEVELS) == p {
      AdvanceApproaches(v.rings[p], v.states, v.cursors[p], t);
    }
  }

  lemma UnblockKeepsPlace(v: View, u: int, t: int)
    requires Kept(v) && Waiting(v, t) && Queued(v, u)
    ensures Kept(UnblockTask(v, u)) && Waiting(UnblockTask(v, u), t) && Ahead(UnblockTask(v, u), t) == Ahead(v, t)
  {
    UnblockKeeps(v, u);
    WaitingLevel(v, t);
  }

  lemma RemoveKeepsPlace(v: View, t: int)
    requires Inv(v) && Waiting(v, t) && Queued(v, v.current)
    ensures Kept(RemoveCurrent(v)) && Waiting(RemoveCurrent(v), t) && Ahead(RemoveCurrent(v), t) <= Ahead(v, t)
  {
    RemoveKeeps(v);
    WaitingLevel(v, t);
    var p := v.priority[t];
    if v.priority[v.current] == p {
      WithoutDistance(v.rings[p], v.current, v.cursors[p], t);
    }
  }

  lemma QueueSetsBackByOne(v: View, x: int, q: int, s: ThreadState, t: int)
    requires Inv(v) && Enabled(v, Queue(x, q, s)) && Waiting(v, t)
    ensures var v' := QueueTask(v, x, q, s);
            Kept(v') && Waiting(v', t) && Ahead(v', t) <= Ahead(v, t) + Inserts(Queue(x, q, s), v.priority[t])
  {
    var p := v.priority[t];
    QueueKeeps(v, x, q, s);
    WaitingLevel(v, t);
    if q == p {
      assert x !in v.rings[p];
      AppendDistance(v.rings[p], x, v.cursors[p], t);
    }
  }

  lemma BlockKeepsPlace(v: View, t: int)
    requires Inv(v) && Waiting(v, t) && Queued(v, v.current)
    ensures Kept(BlockCurrent(v)) && Waiting(BlockCurrent(v), t) && Ahead(BlockCurrent(v), t) == Ahead(v, t)
  {
    BlockKeeps(v);
    WaitingLevel(v, t);
  }

  lemma SuspendKeepsPlace(v: View, s: ThreadState, t: int)
    requires Inv(v) && Waiting(v, t) && Queued(v, v.current) && (s == Sleeping || s == WaitingForChild)
    ensures Kept(SuspendCurrent(v, s)) && Waiting(SuspendCurrent(v, s), t) &&
        Ahead(SuspendCurrent(v, s), t) == Ahead(v, t)
  {
    SuspendKeeps(v, s);
    WaitingLevel(v, t);
  }

  lemma KilledKeepsPlace(v: View, c: int, t: int)
    requires Inv(v) && Enabled(v, Kill(c)) && Waiting(v, t)
    ensures Waiting(KilledView(v, c), t) && KilledView(v, c).priority == v.priority
    ensures Ahead(KilledView(v, c), t) <= Ahead(v, t)
  {
    RemoveKeepsPlace(v, t);
    UnblockKeepsPlace(RemoveCurrent(v), c, t);
  }

  lemma KillApproaches(v: View, c: int, t: int)
    requires Inv(v) && Enabled(v, Kill(c)) && Waiting(v, t) && Waiting(Apply(v, Kill(c)), t)
    ensures v.priority[t] == Apply(v, Kill(c)).priority[t]
    ensures Ahead(Apply(v, Kill(c)), t) + Picks(v, Kill(c), v.priority[t]) <= Ahead(v, t)
  {
    KilledKeepsPlace(v, c, t);
    RescheduleApproaches(KilledView(v, c), t);
  }

  /**
   Each pick from its level brings a waiting task at least one place nearer; only a new task can set it back, by one.
   */
  lemma StepApproaches(v: View, op: Op, t: int)
    requires Inv(v) && Enabled(v, op) && Waiting(v, t) && Waiting(Apply(v, op), t)
    ensures v.priority[t] == Apply(v, op).priority[t]
    ensures Ahead(Apply(v, op), t) + Picks(v, op, v.priority[t]) <= Ahead(v, t) + Inserts(op, v.priority[t])
  {
    match op
    case Queue(x, q, s) => QueueSetsBackByOne(v, x, q, s, t);
    case Switch => RescheduleApproaches(v, t);
    case Block => BlockKeepsPlace(v, t);
    case Unblock(u) => UnblockKeepsPlace(v, u, t);
    case Suspend(s) => SuspendKeepsPlace(v, s, t);
    case Kill(c) => KillApproaches(v, c, t);
  }

  /** `t` waits, unpicked, through the whole run. */
  predicate WaitsThrough(v: View, ops: seq<Op>, t: int)
    requires Inv(v) && Legal(v, ops)
    decreases |ops|
  {
    Waiting(v, t) && (ops == [] || WaitsThrough(Apply(v, ops[0]), ops[1..], t))
  }

  function CountPicks(v: View, ops: seq<Op>, p: int): int
    requires Inv(v) && Legal(v, ops)
    decreases |ops|
  {
    if ops == [] then 0 else Picks(v, ops[0], p) + CountPicks(Apply(v, ops[0]), ops[1..], p)
  }

  function CountInserts(ops: seq<Op>, p: int): int
  {
    if ops == [] then 0 else Inserts(ops[0], p) + CountInserts(ops[1..], p)
  }

  /**
   In every run, a task that stays ready is passed over by its level at most as often as its distance from the
   cursor at the start, plus the tasks queued on that level meanwhile.
   */
  lemma {:induction false} WaitIsBounded(v: View, ops: seq<Op>, t: int)
    requires Inv(v) && Legal(v, ops) && WaitsThrough(v, ops, t)
    ensures CountPicks(v, ops, v.priority[t]) <= Ahead(v, t) + CountInserts(ops, v.priority[t])
    decreases |ops|
  {
    if ops == [] {
    } else {
      StepApproaches(v, ops[0], t);
      WaitIsBounded(Apply(v, ops[0]), ops[1..], t);
    }
  }

  // ----- a fixed set of runnable tasks

  /** The runnable tasks of a list, in order. */
  function RunnableOf(ring: seq<int>, states: map<int, ThreadState>): seq<int>
  {
    if ring == [] then []
    else if Runnable(states, ring[0]) then [ring[0]] + RunnableOf(ring[1..], states)
    else RunnableOf(ring[1..], states)
  }

  lemma {:induction false} RunnableMembers(ring: seq<int>, states: map<int, ThreadState>)
    ensures forall t :: t in RunnableOf(ring, states) <==> t in ring && Runnable(states, t)
  {
    if ring != [] {
      RunnableMembers(ring[1..], states);
      assert forall t :: t in ring <==> t == ring[0] || t in ring[1..];
    }
  }

  lemma {:induction false} RunnableConcat(a: seq<int>, b: seq<int>, states: map<int, ThreadState>)
    ensures RunnableOf(a + b, states) == RunnableOf(a, states) + RunnableOf(b, states)
  {
    if a == [] {
      assert a + b == b;
    } else {
      assert (a + b)[1..] == a[1..] + b;
      RunnableConcat(a[1..], b, states);
    }
  }

  lemma {:induction false} RunnableSame(ring: seq<int>, states: map<int, ThreadState>, states': map<int, ThreadState>)
    requires forall t :: t in ring ==> (Runnable(states, t) <==> Runnable(states', t))
    ensures RunnableOf(ring, states) == RunnableOf(ring, states')
  {
    if ring != [] {
      RunnableSame(ring[1..], states, states');
    }
  }

  lemma {:induction false} RunnableNoRepeats(ring: seq<int>, states: map<int, ThreadState>)
    requires NoRepeats(ring)
    ensures NoRepeats(RunnableOf(ring, states))
  {
    if ring != [] {
      RunnableNoRepeats(ring[1..], states);
      RunnableMembers(ring[1..], states);
      assert ring[0] !in ring[1..];
    }
  }

  function Rotate(s: seq<int>, i: int): seq<int>
    requires 0 <= i <= |s|
  {
    s[i..] + s[..i]
  }

  /** The runnable tasks in ring order, from the cursor on. */
  function Order(ring: seq<int>, states: map<int, ThreadState>, c: int): seq<int>
    requires c in ring
  {
    RunnableOf(Rotate(ring, IndexOf(ring, c)), states)
  }

  lemma OrderMembers(ring: seq<int>, states: map<int, ThreadState>, c: int)
    requires c in ring && NoRepeats(ring)
    ensures NoRepeats(Order(ring, states, c))
    ensures forall t :: t in Order(ring, states, c) <==> t in ring && Runnable(states, t)
  {
    var i := IndexOf(ring, c);
    RunnableNoRepeats(Rotate(ring, i), states);
    RunnableMembers(Rotate(ring, i), states);
    assert ring == ring[..i] + ring[i..];
    assert forall t :: t in ring <==> t in ring[..i] || t in ring[i..];
  }

  lemma RotateRotate(ring: seq<int>, i: int, e: int)
    requires 0 <= i < |ring| && 0 <= e <= |ring|
    ensures Rotate(Rotate(ring, i), e) == Rotate(ring, if i + e <= |ring| then i + e else i + e - |ring|)
  {
    var n, rot, j := |ring|, Rotate(ring, i), if i + e <= |ring| then i + e else i + e - |ring|;
    var a, b := Rotate(rot, e), Rotate(ring, j);
    forall f | 0 <= f < n ensures a[f] == b[f] {
      var x := if e + f < n then e + f else e + f - n;
      RotateAt(rot, e, f);
      RotateAt(ring, i, x);
      RotateAt(ring, j, f);
    }
  }

  lemma RotateAt(ring: seq<int>, i: int, f: int)
    requires 0 <= i <= |ring| && 0 <= f < |ring|
    ensures Rotate(ring, i)[f] == ring[Around(i, f, |ring|)]
  {
  }

  /** Going on to the next runnable place moves the head to the back of the order. */
  lemma HeadToBack(rot: seq<int>, states: map<int, ThreadState>, e: int)
    requires 0 < e <= |rot| && Runnable(states, rot[0])
    requires forall f :: 1 <= f < e ==> !Runnable(states, rot[f])
    ensures var o := RunnableOf(rot, states);
            o != [] && o[0] == rot[0] && RunnableOf(Rotate(rot, e), states) == Rotate(o, 1)
  {
    SkippedAreNone(rot, states, e);
    assert rot == rot[..e] + rot[e..];
    RunnableConcat(rot[..e], rot[e..], states);
    RunnableConcat(rot[e..], rot[..e], states);
  }

  /** Serving the task under the cursor moves it to the back of the order. */
  lemma AdvanceRotates(ring: seq<int>, states: map<int, ThreadState>, n: int)
    requires NoRepeats(ring) && n in ring && Runnable(states, n) && 0 !in ring
    ensures var c := Advance(ring, states, n);
            var o := Order(ring, states, n);
            c in ring && o != [] && o[0] == n && Order(ring, states, c) == Rotate(o, 1)
  {
    var i := IndexOf(ring, n);
    var e := Scan(ring, states, i, 1);
    var rot := Rotate(ring, i);
    assert rot[0] == n;
    forall f | 1 <= f < e ensures !Runnable(states, rot[f]) { RotateAt(ring, i, f); }
    HeadToBack(rot, states, e);
    RotateRotate(ring, i, e);
    var c := Advance(ring, states, n);
    IndexUnique(ring, Around(i, e, |ring|));
    assert IndexOf(ring, c) == Around(i, e, |ring|);
    RotateFull(ring);
  }

  lemma RotateFull(ring: seq<int>)
    ensures Rotate(ring, |ring|) == Rotate(ring, 0)
  {
  }

  lemma {:induction false} NoneRunnable(ring: seq<int>, states: map<int, ThreadState>)
    requires forall f :: 0 <= f < |ring| ==> !Runnable(states, ring[f])
    ensures RunnableOf(ring, states) == []
  {
    if ring != [] {
      NoneRunnable(ring[1..], states);
    }
  }

  /** If only the head of the first `e` places can run, only the head is served from there. */
  lemma SkippedAreNone(rot: seq<int>, states: map<int, ThreadState>, e: int)
    requires 0 < e <= |rot| && Runnable(states, rot[0])
    requires forall f :: 1 <= f < e ==> !Runnable(states, rot[f])
    ensures RunnableOf(rot[..e], states) == [rot[0]]
  {
    var rest := rot[..e][1..];
    NoneRunnable(rest, states);
  }

  function Reschedules(v: View, m: nat): (v': View)
    requires Kept(v)
    ensures Kept(v')
  {
    if m == 0 then v else
    RescheduleKeeps(Reschedules(v, m - 1));
    Reschedule(Reschedules(v, m - 1))
  }

  /** The order of the level that is served next. */
  function ServedOrder(v: View): seq<int>
    requires Kept(v) && Highest(v.cursors, LEVELS) >= 0
  {
    var p := Highest(v.cursors, LEVELS);
    Order(v.rings[p], v.states, v.cursors[p])
  }

  lemma RescheduleRotates(v: View)
    requires Kept(v) && Highest(v.cursors, LEVELS) >= 0
    ensures var v' := Reschedule(v);
            && Kept(v') && Highest(v'.cursors, LEVELS) == Highest(v.cursors, LEVELS)
            && ServedOrder(v) != [] && v'.current == ServedOrder(v)[0]
            && ServedOrder(v') == Rotate(ServedOrder(v), 1)
  {
    var v' := Reschedule(v);
    var p := Highest(v.cursors, LEVELS);
    var n := v.cursors[p];
    RescheduleKeeps(v);
    assert LevelOk(v.rings[p], n, v.states, v.current) && RingOk(v.rings[p], p, v.states, v.priority);
    AdvanceRotates(v.rings[p], v.states, n);
    AdvanceLands(v.rings[p], v.states, n);
    forall t | t in v.rings[p] ensures Runnable(v.states, t) <==> Runnable(v'.states, t) {
      SwitchFrame(v.states, v.current, n, t);
    }
    SameOrder(v.rings[p], v.states, v'.states, v'.cursors[p]);
    HighestSame(v.cursors, p, v'.cursors[p], LEVELS);
  }

  lemma SameOrder(ring: seq<int>, states: map<int, ThreadState>, states': map<int, ThreadState>, c: int)
    requires c in ring && forall t :: t in ring ==> (Runnable(states, t) <==> Runnable(states', t))
    ensures Order(ring, states, c) == Order(ring, states', c)
  {
    RunnableSame(Rotate(ring, IndexOf(ring, c)), states, states');
  }

  lemma {:induction false} HighestSame(cursors: seq<int>, p: int, c: int, m: int)
    requires 0 <= m <= |cursors| && Highest(cursors, m) == p >= 0 && c != 0
    ensures Highest(cursors[p := c], m) == p
  {
    if cursors[m - 1] == 0 {
      HighestSame(cursors, p, c, m - 1);
    }
  }

  /** `w` is reached from `v` after `m` picks of the same level. */
  predicate ServedSoFar(v: View, w: View, m: nat)
    requires Kept(v) && Highest(v.cursors, LEVELS) >= 0 && m <= |ServedOrder(v)|
  {
    && Kept(w) && Highest(w.cursors, LEVELS) == Highest(v.cursors, LEVELS)
    && (m > 0 ==> w.current == ServedOrder(v)[m - 1])
    && ServedOrder(w) == Rotate(ServedOrder(v), m)
  }

  lemma ServeNext(v: View, u: View, m: nat)
    requires Kept(v) && Highest(v.cursors, LEVELS) >= 0 && m < |ServedOrder(v)|
    requires ServedSoFar(v, u, m)
    ensures ServedSoFar(v, Reschedule(u), m + 1)
  {
    RescheduleRotates(u);
    RotateStep(ServedOrder(v), m + 1);
  }

  /**
   With nothing but reschedules, the n runnable tasks of the level being served are picked once each in every n
   picks, in ring order; after them the order is the same again.
   */
  lemma {:induction false} EachServedOnce(v: View, m: nat)
    requires Kept(v) && Highest(v.cursors, LEVELS) >= 0
    requires m <= |ServedOrder(v)|
    ensures ServedSoFar(v, Reschedules(v, m), m)
  {
    if m == 0 {
      assert Rotate(ServedOrder(v), 0) == ServedOrder(v);
    } else {
      EachServedOnce(v, m - 1);
      ServeNext(v, Reschedules(v, m - 1), m - 1);
    }
  }

  lemma RotateStep(o: seq<int>, m: int)
    requires 0 < m <= |o|
    ensures Rotate(o, m - 1)[0] == o[m - 1] && Rotate(Rotate(o, m - 1), 1) == Rotate(o, m)
  {
  }
}
