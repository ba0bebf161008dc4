/**
 The scheduler's run queues as values: ten rings of tasks, a cursor (`next_task`) in each, the state of every
 task and the current task. Each function below is one entry point of the scheduler; the class in
 `Scheduler` is proved to compute it on the linked rings. Task 0 is the null pointer.
 */
module RunQueues {

  const LEVELS := 10   // MAX_PRIORITY_LEVEL + 1

  datatype ThreadState = Ready | Running | Blocked | Sleeping | WaitingForChild | Killed

  datatype View = View(
    rings: seq<seq<int>>,
    states: map<int, ThreadState>,
    priority: map<int, int>,
    cursors: seq<int>,
    current: int,
    idle: int)

  predicate CanRun(s: ThreadState) { s == Ready || s == Running }

  predicate Runnable(states: map<int, ThreadState>, t: int)
  {
    t in states && CanRun(states[t])
  }

  // ----- the ring and its cursor

  /** The position `d` places after `i` on a ring of `n`. */
  function Around(i: int, d: int, n: int): int
  {
    if i + d < n then i + d else i + d - n
  }

  predicate NoRepeats(ring: seq<int>)
  {
    forall i, j :: 0 <= i < j < |ring| ==> ring[i] != ring[j]
  }

  function IndexOf(ring: seq<int>, t: int): (i: int)
    requires t in ring
    ensures 0 <= i < |ring| && ring[i] == t
    ensures forall j :: 0 <= j < i ==> ring[j] != t
  {
    if ring[0] == t then 0 else 1 + IndexOf(ring[1..], t)
  }

  /** How far from position `i`, starting at `d`, the first runnable task is; all the way round if there is none. */
  function Scan(ring: seq<int>, states: map<int, ThreadState>, i: int, d: int): (e: int)
    requires 0 <= i < |ring| && 0 < d <= |ring|
    ensures d <= e <= |ring|
    ensures e < |ring| ==> Runnable(states, ring[Around(i, e, |ring|)])
    ensures forall f :: d <= f < e ==> !Runnable(states, ring[Around(i, f, |ring|)])
    decreases |ring| - d
  {
    if d == |ring| || Runnable(states, ring[Around(i, d, |ring|)]) then d else Scan(ring, states, i, d + 1)
  }

  /** `update_priority_queue_next_task`: where the cursor goes from the task `n`. */
  function Advance(ring: seq<int>, states: map<int, ThreadState>, n: int): int
    requires n in ring
  {
    var i := IndexOf(ring, n);
    var t := ring[Around(i, Scan(ring, states, i, 1), |ring|)];
    if Runnable(states, t) then t else 0
  }

  // ----- the entry points

  /** The tasks of level `p`: each once, each known, each with that priority. */
  predicate RingOk(ring: seq<int>, p: int, states: map<int, ThreadState>, priority: map<int, int>)
  {
    && NoRepeats(ring) && 0 !in ring
    && forall t :: t in ring ==> t in states && t in priority && priority[t] == p
  }

  predicate Shape(v: View)
  {
    && |v.rings| == LEVELS && |v.cursors| == LEVELS
    && (forall p :: 0 <= p < LEVELS ==> RingOk(v.rings[p], p, v.states, v.priority))
    && (forall p :: 0 <= p < LEVELS && v.cursors[p] != 0 ==> v.cursors[p] in v.rings[p])
    && v.current in v.states && v.idle in v.states && v.idle !in v.priority && v.current != 0 && v.idle != 0
  }

  predicate Queued(v: View, t: int)
  {
    t in v.priority && 0 <= v.priority[t] < |v.rings| && t in v.rings[v.priority[t]]
  }

  /** The highest level below `p` whose cursor is set, or -1. */
  function Highest(cursors: seq<int>, p: int): (q: int)
    requires 0 <= p <= |cursors|
    ensures -1 <= q < p
    ensures q >= 0 ==> cursors[q] != 0
    ensures forall r :: q < r < p ==> cursors[r] == 0
  {
    if p == 0 then -1 else if cursors[p - 1] != 0 then p - 1 else Highest(cursors, p - 1)
  }

  /** The state changes of a switch from the current task to `n`. */
  function SwitchStates(states: map<int, ThreadState>, current: int, n: int): map<int, ThreadState>
    requires current in states
  {
    var left := if states[current] == Running then states[current := Ready] else states;
    left[n := Running]
  }

  function Reschedule(v: View): View
    requires Shape(v)
  {
    var p := Highest(v.cursors, LEVELS);
    if p >= 0 then
      var n := v.cursors[p];
      v.(cursors := v.cursors[p := Advance(v.rings[p], v.states, n)], current := n, states := SwitchStates(v.states, v.current, n))
    else
      var n := if v.states[v.current] == Running then v.current else v.idle;
      v.(current := n, states := SwitchStates(v.states, v.current, n))
  }

  /** `queue_task`: the new task goes to the end of its ring, just before the start. */
  function QueueTask(v: View, t: int, p: int, s: ThreadState): View
    requires |v.rings| == |v.cursors| && 0 <= p < |v.rings|
  {
    var c := if (v.cursors[p] == 0 || v.cursors[p] == v.current) && s == Ready then t else v.cursors[p];
    v.(rings := v.rings[p := v.rings[p] + [t]], cursors := v.cursors[p := c], states := v.states[t := s], priority := v.priority[t := p])
  }

  /** `block_task` of the current task. */
  function BlockCurrent(v: View): View
    requires Shape(v) && Queued(v, v.current)
  {
    if v.states[v.current] == Blocked then v else
    var p := v.priority[v.current];
    var states := v.states[v.current := Blocked];
    if v.cursors[p] == v.current
    then v.(states := states, cursors := v.cursors[p := Advance(v.rings[p], states, v.current)])
    else v.(states := states)
  }

  function UnblockTask(v: View, t: int): View
    requires Shape(v) && Queued(v, t)
  {
    if v.states[t] != Blocked && v.states[t] != Sleeping && v.states[t] != WaitingForChild then v else
    var p := v.priority[t];
    var c := if v.cursors[p] == 0 || v.cursors[p] == v.current then t else v.cursors[p];
    v.(states := v.states[t := Ready], cursors := v.cursors[p := c])
  }

  /** The part of `sleep` and `wait_for_child` before their reschedule. */
  function SuspendCurrent(v: View, s: ThreadState): View
    requires Shape(v) && Queued(v, v.current)
  {
    var p := v.priority[v.current];
    var c := if v.cursors[p] == v.current then 0 else v.cursors[p];
    v.(states := v.states[v.current := s], cursors := v.cursors[p := c])
  }

  function Without(ring: seq<int>, t: int): seq<int>
    requires t in ring
  {
    ring[..IndexOf(ring, t)] + ring[IndexOf(ring, t) + 1..]
  }

  /** The part of `kill_current_task` before it wakes the cleaner. */
  function RemoveCurrent(v: View): View
    requires Shape(v) && Queued(v, v.current)
  {
    var p := v.priority[v.current];
    var c := if v.cursors[p] == v.current then 0 else v.cursors[p];
    v.(rings := v.rings[p := Without(v.rings[p], v.current)], cursors := v.cursors[p := c], states := v.states[v.current := Killed])
  }

  /** The wake-up of one finished sleeper by the timer tick. */
  function WakeSleeper(v: View, t: int): View
    requires Shape(v) && Queued(v, t)
  {
    if v.states[t] != Sleeping then v else
    var p := v.priority[t];
    var c := if v.cursors[p] == 0 then t else v.cursors[p];
    v.(states := v.states[t := Ready], cursors := v.cursors[p := c])
  }

  // ----- what every entry point keeps

  /**
   The cursor is null exactly when nothing on the ring can run, rests on a runnable task otherwise, and rests
   on the current task only when no other task of the ring can run.
   */
  predicate LevelOk(ring: seq<int>, cursor: int, states: map<int, ThreadState>, current: int)
  {
    && (cursor != 0 ==> cursor in ring && Runnable(states, cursor))
    && (forall t :: t in ring && Runnable(states, t) ==> cursor != 0)
    && (cursor == current ==> forall t :: t in ring && Runnable(states, t) ==> t == current)
  }

  predicate OnlyCurrentRuns(states: map<int, ThreadState>, current: int)
  {
    forall t :: t in states && states[t] == Running ==> t == current
  }

  /** The invariant, also inside `kill_current_task`, where the current task is already off its ring. */
  predicate Kept(v: View)
  {
    && Shape(v)
    && (forall p :: 0 <= p < LEVELS ==> LevelOk(v.rings[p], v.cursors[p], v.states, v.current))
    && OnlyCurrentRuns(v.states, v.current)
    && CanRun(v.states[v.idle])
    && (v.current == v.idle || Queued(v, v.current) || v.states[v.current] == Killed)
  }

  /** The invariant between calls: the current task is the idle task or on its ring. */
  predicate Inv(v: View)
  {
    Kept(v) && (v.current == v.idle || Queued(v, v.current))
  }

  // ----- what an entry point touches

  /** No task but those of `ts` changes its state, none is forgotten, and no priority changes. */
  predicate StatesKept(v: View, v': View, ts: set<int>)
  {
    && (forall t :: t in v.states ==> t in v'.states && (t !in ts ==> v'.states[t] == v.states[t]))
    && (forall t :: t in v.priority ==> t in v'.priority && v'.priority[t] == v.priority[t])
  }

  /** Rings and cursors of the levels other than `p` are as they were. */
  predicate OtherLevelsKept(v: View, v': View, p: int)
  {
    && |v'.rings| == |v.rings| && |v'.cursors| == |v.cursors|
    && (forall q :: 0 <= q < |v.rings| && q != p ==> v'.rings[q] == v.rings[q])
    && (forall q :: 0 <= q < |v.cursors| && q != p ==> v'.cursors[q] == v.cursors[q])
  }

  /** `t` is gone from the ring, and the others are there in their order. */
  ghost predicate TakenOff(ring: seq<int>, ring': seq<int>, t: int)
  {
    t !in ring' && exists i :: 0 <= i <= |ring'| && ring == ring'[..i] + [t] + ring'[i..]
  }

  /** The change of state of one queued task, with the cursor of its level moved only off null or the current task. */
  predicate OneTaskChanged(v: View, v': View, t: int)
    requires t in v.priority
  {
    && v'.rings == v.rings && v'.current == v.current && v'.idle == v.idle
    && StatesKept(v, v', {t}) && OtherLevelsKept(v, v', v.priority[t])
    && (0 <= v.priority[t] < |v.cursors| && v.cursors[v.priority[t]] !in {0, v.current} ==> v'.cursors == v.cursors)
  }

  /** Where the cursor lands: on another runnable task if there is one, else on `n` if it can run, else nowhere. */
  lemma AdvanceLands(ring: seq<int>, states: map<int, ThreadState>, n: int)
    requires n in ring && NoRepeats(ring) && 0 !in ring
    ensures LevelOk(ring, Advance(ring, states, n), states, n)
  {
    var i := IndexOf(ring, n);
    var e := Scan(ring, states, i, 1);
    forall t | t in ring && Runnable(states, t) && t != n
      ensures e < |ring|
    {
      var j := IndexOf(ring, t);
      var f := if j > i then j - i else j - i + |ring|;
      assert ring[Around(i, f, |ring|)] == t;
    }
  }

  /** A level is untouched when none of its tasks changes between runnable and not. */
  lemma LevelFrame(ring: seq<int>, cursor: int, states: map<int, ThreadState>, states': map<int, ThreadState>,
      current: int, current': int)
    requires LevelOk(ring, cursor, states, current)
    requires forall t :: t in ring ==> (Runnable(states', t) <==> Runnable(states, t))
    requires current' == current || current' !in ring
    requires 0 !in ring
    ensures LevelOk(ring, cursor, states', current')
  {
  }

  lemma RingFrame(ring: seq<int>, p: int, states: map<int, ThreadState>, priority: map<int, int>,
                  states': map<int, ThreadState>, priority': map<int, int>)
    requires RingOk(ring, p, states, priority)
    requires forall t :: t in ring && t in states ==> t in states'
    requires forall t :: t in ring && t in priority ==> t in priority' && priority'[t] == priority[t]
    ensures RingOk(ring, p, states', priority')
  {
  }

  lemma SwitchFrame(states: map<int, ThreadState>, current: int, n: int, t: int)
    requires current in states && n in states && t in states
    requires CanRun(states[n]) || t != n
    ensures Runnable(SwitchStates(states, current, n), t) <==> Runnable(states, t)
  {
  }

  lemma SwitchRuns(states: map<int, ThreadState>, current: int, n: int)
    requires current in states && n in states && OnlyCurrentRuns(states, current)
    ensures OnlyCurrentRuns(SwitchStates(states, current, n), n)
  {
  }

  lemma RescheduleKeeps(v: View)
    requires Kept(v)
    ensures Inv(Reschedule(v))
  {
    var v' := Reschedule(v);
    var p := Highest(v.cursors, LEVELS);
    var n := v'.current;
    assert n in v.states && CanRun(v.states[n]) by {
      if p >= 0 { assert LevelOk(v.rings[p], v.cursors[p], v.states, v.current); }
    }
    SwitchRuns(v.states, v.current, n);
    forall q | 0 <= q < LEVELS
      ensures RingOk(v.rings[q], q, v'.states, v.priority)
      ensures LevelOk(v.rings[q], v'.cursors[q], v'.states, n)
    {
      assert RingOk(v.rings[q], q, v.states, v.priority);
      RingFrame(v.rings[q], q, v.states, v.priority, v'.states, v.priority);
      forall t | t in v.rings[q] ensures Runnable(v'.states, t) <==> Runnable(v.states, t) {
        SwitchFrame(v.states, v.current, n, t);
      }
      if q == p {
        AdvanceLands(v.rings[q], v.states, n);
        LevelFrame(v.rings[q], v'.cursors[q], v.states, v'.states, n, n);
      } else {
        assert n == v.current || n !in v.rings[q] by {
          if p >= 0 { assert RingOk(v.rings[p], p, v.states, v.priority); }
        }
        LevelFrame(v.rings[q], v.cursors[q], v.states, v'.states, v.current, n);
      }
    }
    SwitchFrame(v.states, v.current, n, v.idle);
    if p >= 0 {
      assert RingOk(v.rings[p], p, v.states, v.priority) && n in v.rings[p];
    }

  }

  /**
   What a reschedule touches: the task that left, if it was running, is ready again, the chosen one runs, and only the
   cursor of the level it was chosen from moves.
   */
  lemma RescheduleTouches(v: View)
    requires Kept(v)
    ensures var v' := Reschedule(v);
            && v'.rings == v.rings && v'.idle == v.idle && StatesKept(v, v', {v.current, v'.current})
            && v'.current in v'.states && v'.states[v'.current] == Running
            && (v'.current != v.current ==>
                  v'.states[v.current] == if v.states[v.current] == Running then Ready else v.states[v.current])
            && OtherLevelsKept(v, v', if Queued(v, v'.current) then v.priority[v'.current] else LEVELS)
  {
    var h := Highest(v.cursors, LEVELS);
    if h >= 0 {
      assert RingOk(v.rings[h], h, v.states, v.priority) && v.cursors[h] in v.rings[h];
    }
  }

  /** The idle task is chosen exactly when no queued task can run; otherwise a task of the highest runnable level is. */
  lemma RescheduleChoosesHighest(v: View)
    requires Kept(v)
    ensures var c := Reschedule(v).current;
            && (c == v.idle <==> forall p, t :: 0 <= p < LEVELS && t in v.rings[p] ==> !Runnable(v.states, t))
            && (c != v.idle ==> Queued(v, c) && Runnable(v.states, c)
                                && forall p, t :: v.priority[c] < p < LEVELS && t in v.rings[p] ==>
                                    !Runnable(v.states, t))
  {
    var c := Reschedule(v).current;
    var h := Highest(v.cursors, LEVELS);
    forall p, t | h < p < LEVELS && 0 <= p && t in v.rings[p]
      ensures !Runnable(v.states, t)
    {
      assert LevelOk(v.rings[p], v.cursors[p], v.states, v.current);
    }
    if h < 0 {
      if v.current != v.idle && v.states[v.current] == Running {
        assert v.current in v.rings[v.priority[v.current]] && Runnable(v.states, v.current);
      }
    } else {
      assert LevelOk(v.rings[h], c, v.states, v.current) && RingOk(v.rings[h], h, v.states, v.priority);
    }
  }

  lemma QueueKeeps(v: View, t: int, p: int, s: ThreadState)
    requires Kept(v) && 0 <= p < LEVELS && t != 0 && t !in v.states && t !in v.priority
    requires s == Ready || s == Blocked
    ensures Kept(QueueTask(v, t, p, s))
    ensures Inv(v) ==> Inv(QueueTask(v, t, p, s))
  {
    var v' := QueueTask(v, t, p, s);
    forall q | 0 <= q < LEVELS
      ensures RingOk(v'.rings[q], q, v'.states, v'.priority)
      ensures LevelOk(v'.rings[q], v'.cursors[q], v'.states, v.current)
    {
      assert RingOk(v.rings[q], q, v.states, v.priority) && LevelOk(v.rings[q], v.cursors[q], v.states, v.current);
      RingFrame(v.rings[q], q, v.states, v.priority, v'.states, v'.priority);
      if q != p {
        LevelFrame(v.rings[q], v.cursors[q], v.states, v'.states, v.current, v.current);
      }
    }
    if Queued(v, v.current) {
      assert v.current in v'.rings[v.priority[v.current]];
    }
  }

  /** A queued task is last on the ring of its level; nothing else moves but a cursor that had nobody else to name. */
  lemma QueueTouches(v: View, t: int, p: int, s: ThreadState)
    requires Kept(v) && 0 <= p < LEVELS && t != 0 && t !in v.states && t !in v.priority
    ensures var v' := QueueTask(v, t, p, s);
            && v'.current == v.current && v'.idle == v.idle && StatesKept(v, v', {}) && OtherLevelsKept(v, v', p)
            && t in v'.states && v'.states[t] == s && t in v'.priority && v'.priority[t] == p
            && |v'.rings[p]| == |v.rings[p]| + 1 && v'.rings[p][|v.rings[p]|] == t && v.rings[p] <= v'.rings[p]
            && (v'.cursors[p] == t <==> s == Ready && v.cursors[p] in {0, v.current})
            && (s != Ready || v.cursors[p] !in {0, v.current} ==> v'.cursors == v.cursors)
  {
    assert RingOk(v.rings[p], p, v.states, v.priority) && LevelOk(v.rings[p], v.cursors[p], v.states, v.current);
  }

  lemma BlockKeeps(v: View)
    requires Inv(v) && Queued(v, v.current)
    ensures Inv(BlockCurrent(v)) && BlockCurrent(v).states[v.current] == Blocked
    ensures OneTaskChanged(v, BlockCurrent(v), v.current)
  {
    var v' := BlockCurrent(v);
    var p := v.priority[v.current];
    assert LevelOk(v.rings[p], v.cursors[p], v.states, v.current);
    AdvanceLands(v.rings[p], v.states[v.current := Blocked], v.current);
    StateChangeKeeps(v, v', p);
  }

  /** An entry point that changes states, and one cursor, on the ring of level `p` only has to look at that level. */
  lemma StateChangeKeeps(v: View, v': View, p: int)
    requires Kept(v) && 0 <= p < LEVELS && |v'.cursors| == LEVELS
    requires v' == v.(states := v'.states, cursors := v.cursors[p := v'.cursors[p]])
    requires forall t :: t in v.states ==> t in v'.states
    requires forall t :: t in v.states && t !in v.rings[p] ==> v'.states[t] == v.states[t]
    requires OnlyCurrentRuns(v'.states, v.current)
    requires LevelOk(v.rings[p], v'.cursors[p], v'.states, v.current)
    requires v.current == v.idle || Queued(v, v.current) || v'.states[v.current] == Killed
    ensures Kept(v')
  {
    assert RingOk(v.rings[p], p, v.states, v.priority);
    forall q | 0 <= q < LEVELS
      ensures RingOk(v.rings[q], q, v'.states, v.priority)
      ensures LevelOk(v.rings[q], v'.cursors[q], v'.states, v.current)
    {
      assert RingOk(v.rings[q], q, v.states, v.priority) && LevelOk(v.rings[q], v.cursors[q], v.states, v.current);
      RingFrame(v.rings[q], q, v.states, v.priority, v'.states, v.priority);
      if q != p {
        LevelFrame(v.rings[q], v.cursors[q], v.states, v'.states, v.current, v.current);
      }
    }
  }

  lemma UnblockKeeps(v: View, t: int)
    requires Kept(v) && Queued(v, t)
    ensures Kept(UnblockTask(v, t)) && (Inv(v) ==> Inv(UnblockTask(v, t)))
    ensures OneTaskChanged(v, UnblockTask(v, t), t)
    ensures UnblockTask(v, t).states[t] == if v.states[t] in {Ready, Running, Killed} then v.states[t] else Ready
  {
    var p := v.priority[t];
    assert LevelOk(v.rings[p], v.cursors[p], v.states, v.current);
    StateChangeKeeps(v, UnblockTask(v, t), p);
  }

  lemma SuspendKeeps(v: View, s: ThreadState)
    requires Inv(v) && Queued(v, v.current)
    requires s == Sleeping || s == WaitingForChild
    ensures Inv(SuspendCurrent(v, s)) && SuspendCurrent(v, s).states[v.current] == s
    ensures OneTaskChanged(v, SuspendCurrent(v, s), v.current)
  {
  }

  lemma WithoutMembers(ring: seq<int>, t: int)
    requires t in ring && NoRepeats(ring)
    ensures forall u :: u in Without(ring, t) <==> u in ring && u != t
    ensures NoRepeats(Without(ring, t)) && TakenOff(ring, Without(ring, t), t)
  {
    var i, ring' := IndexOf(ring, t), Without(ring, t);
    assert ring == ring'[..i] + [t] + ring'[i..];
  }

  lemma RemoveKeeps(v: View)
    requires Inv(v) && Queued(v, v.current)
    ensures Kept(RemoveCurrent(v))
    ensures forall u :: Queued(v, u) && u != v.current ==> Queued(RemoveCurrent(v), u)
    ensures var v', p := RemoveCurrent(v), v.priority[v.current];
            && v'.current == v.current && v'.idle == v.idle && StatesKept(v, v', {v.current}) &&
                OtherLevelsKept(v, v', p)
            && v'.states[v.current] == Killed && TakenOff(v.rings[p], v'.rings[p], v.current)
            && (forall q :: 0 <= q < LEVELS ==> v.current !in v'.rings[q])
            && (v.cursors[p] != v.current ==> v'.cursors == v.cursors)
  {
    var p := v.priority[v.current];
    var v' := RemoveCurrent(v);
    assert RingOk(v.rings[p], p, v.states, v.priority);
    WithoutMembers(v.rings[p], v.current);
    forall q | 0 <= q < LEVELS
      ensures RingOk(v'.rings[q], q, v'.states, v.priority)
      ensures LevelOk(v'.rings[q], v'.cursors[q], v'.states, v.current)
    {
      assert RingOk(v.rings[q], q, v.states, v.priority) && LevelOk(v.rings[q], v.cursors[q], v.states, v.current);
      RingFrame(v.rings[q], q, v.states, v.priority, v'.states, v.priority);
      if q != p {
        LevelFrame(v.rings[q], v.cursors[q], v.states, v'.states, v.current, v.current);
      }
    }
  }
}
