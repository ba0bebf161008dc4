/** The scheduler's run queues in place: linked rings and cursors, proved against `RunQueues`. */
module Scheduler {
  import opened RunQueues
  import opened RunQueueRuns
  import opened TaskRings

  class Scheduler {
    var states: map<int, ThreadState>
    var priority: map<int, int>
    var next: map<int, int>
    var prev: map<int, int>
    var start: seq<int>
    var nextTask: seq<int>
    var current: int
    const idle: int
    const cleaner: int
    var killedTasks: seq<int>
    ghost var rings: seq<seq<int>>

    ghost function Abstract(): View
      reads this
    {
      View(rings, states, priority, nextTask, current, idle)
    }

    ghost predicate Valid()
      reads this
    {
      Kept(Abstract()) && Linked(next, prev, start, rings)
    }

    /** The state once the constructor has queued the cleaner and the init task behind the kernel's main thread. */
    constructor (main: int, idle: int, cleaner: int, init: int)
      requires 0 !in {main, idle, cleaner, init} && main != idle && cleaner !in {main, idle} &&
          init !in {main, idle, cleaner}
      ensures Valid() && Inv(Abstract()) && this.idle == idle && this.cleaner == cleaner
      ensures Abstract() == RunQueues.QueueTask(RunQueues.QueueTask(BootView(main, idle), cleaner, LEVELS - 1, Blocked), init, LEVELS - 1, Ready)
    {
      this.idle, this.cleaner, current := idle, cleaner, main;
      states := map[main := Running, idle := Ready][cleaner := Blocked][init := Ready];
      priority := map[main := LEVELS - 1][cleaner := LEVELS - 1][init := LEVELS - 1];
      next := map[main := cleaner, cleaner := init, init := main];
      prev := map[main := init, cleaner := main, init := cleaner];
      start := seq(LEVELS, p => if p == LEVELS - 1 then main else 0);
      nextTask := seq(LEVELS, p => if p == LEVELS - 1 then init else 0);
      killedTasks := [];
      ghost var v := RunQueues.QueueTask(RunQueues.QueueTask(BootView(main, idle), cleaner, LEVELS - 1, Blocked), init, LEVELS - 1, Ready);
      rings := v.rings;
      BootEstablishesInvariant(main, idle, cleaner, init);
      new;
      assert rings[LEVELS - 1] == [main, cleaner, init];
      assert nextTask == v.cursors;
      BootLinked(next, prev, main, cleaner, init);
    }

    method UpdatePriorityQueueNextTask(p: int) returns (n: int)
      requires Shape(Abstract()) && Linked(next, prev, start, rings) && 0 <= p < LEVELS && nextTask[p] != 0
      modifies this`nextTask
      ensures n == old(nextTask[p])
      ensures nextTask == old(nextTask)[p := Advance(rings[p], states, n)]
    {
      n := nextTask[p];
      assert RingOk(rings[p], p, states, priority) && RingLinked(next, prev, rings[p]);
      var c := ScanRing(next, states, n, prev, rings[p]);
      nextTask := nextTask[p := c];
    }

    method Reschedule()
      requires Valid()
      modifies this`states, this`nextTask, this`current
      ensures Valid() && Inv(Abstract())
      ensures Abstract() == RunQueues.Reschedule(old(Abstract()))
    {
      RescheduleKeeps(Abstract());
      ghost var v' := RunQueues.Reschedule(Abstract());
      var left := current;
      var p := HighestLevel(nextTask);
      var n;
      if p >= 0 {
        n := UpdatePriorityQueueNextTask(p);
      } else if states[left] == Running {
        n := left;
      } else {
        n := idle;
      }
      current := n;
      if states[left] == Running {
        states := states[left := Ready];
      }
      states := states[n := Running];
      assert Abstract() == v';
    }

    method QueueTask(t: int, p: int, s: ThreadState)
      requires Valid() && 0 <= p < LEVELS && t != 0 && t !in states && t !in priority && (s == Ready || s == Blocked)
      modifies this
      ensures Valid() && (old(Inv(Abstract())) ==> Inv(Abstract()))
      ensures Abstract() == RunQueues.QueueTask(old(Abstract()), t, p, s)
    {
      ghost var v := Abstract();
      ghost var v' := RunQueues.QueueTask(v, t, p, s);
      var next', prev', start' := HookIn(next, prev, start, t, p, v);
      var c := nextTask[p];
      if (c == 0 || c == current) && s == Ready {
        c := t;
      }
      next, prev, start, states, priority, nextTask := next', prev', start', states[t := s], priority[t := p], nextTask[p := c];
      rings := v'.rings;
      assert Abstract() == v';
      QueueKeeps(v, t, p, s);
    }

    /** `block_task`, which its callers apply to the current task. */
    method BlockTask()
      requires Valid() && Inv(Abstract()) && Queued(Abstract(), current)
      modifies this`states, this`nextTask
      ensures Valid() && Inv(Abstract())
      ensures Abstract() == RunQueues.BlockCurrent(old(Abstract()))
    {
      BlockKeeps(Abstract());
      var p := priority[current];
      if states[current] != Blocked {
        states := states[current := Blocked];
        if nextTask[p] == current {
          assert RingOk(rings[p], p, old(states), priority) && RingLinked(next, prev, rings[p]);
          var c := ScanRing(next, states, current, prev, rings[p]);
          nextTask := nextTask[p := c];
        }
      }
    }

    method UnblockTask(t: int)
      requires Valid() && Queued(Abstract(), t)
      modifies this`states, this`nextTask
      ensures Valid() && (old(Inv(Abstract())) ==> Inv(Abstract()))
      ensures Abstract() == RunQueues.UnblockTask(old(Abstract()), t)
    {
      UnblockKeeps(Abstract(), t);
      assert RingOk(rings[priority[t]], priority[t], states, priority);
      if states[t] == Blocked || states[t] == Sleeping || states[t] == WaitingForChild {
        states := states[t := Ready];
        var p := priority[t];
        if nextTask[p] == 0 || nextTask[p] == current {
          nextTask := nextTask[p := t];
        }
      }
    }

    /** The common part of `sleep` and `wait_for_child`. */
    method SuspendCurrent(s: ThreadState)
      requires Valid() && Inv(Abstract()) && Queued(Abstract(), current) && (s == Sleeping || s == WaitingForChild)
      modifies this`states, this`nextTask
      ensures Valid() && Inv(Abstract())
      ensures Abstract() == RunQueues.SuspendCurrent(old(Abstract()), s)
    {
      SuspendKeeps(Abstract(), s);
      states := states[current := s];
      var p := priority[current];
      if nextTask[p] == current {
        nextTask := nextTask[p := 0];
      }
    }

    /** `kill_current_task` up to the point where it wakes the cleaner. */
    method RemoveCurrent()
      requires Valid() && Inv(Abstract()) && Queued(Abstract(), current)
      modifies this
      ensures Valid()
      ensures Abstract() == RunQueues.RemoveCurrent(old(Abstract()))
      ensures killedTasks == old(killedTasks) + [current]
    {
      RemoveKeeps(Abstract());
      ghost var v' := RunQueues.RemoveCurrent(Abstract());
      var p := priority[current];
      next, prev, start := Unhook(next, prev, start, current, p, Abstract());
      killedTasks := killedTasks + [current];
      if nextTask[p] == current {
        nextTask := nextTask[p := 0];
      }
      states, rings := states[current := Killed], v'.rings;
      assert Abstract() == v';
    }

    /** The part of `kill_current_task` before its reschedule. */
    method RemoveAndWake()
      requires Valid() && Inv(Abstract()) && Queued(Abstract(), current) && Queued(Abstract(), cleaner) &&
          cleaner != current
      modifies this
      ensures Valid() && Abstract() == KilledView(old(Abstract()), cleaner)
      ensures killedTasks == old(killedTasks) + [old(current)]
    {
      CleanerStays(Abstract(), cleaner);
      RemoveCurrent();
      UnblockTask(cleaner);
    }

    method KillCurrentTask()
      requires Valid() && Inv(Abstract()) && Queued(Abstract(), current) && Queued(Abstract(), cleaner) &&
          cleaner != current
      modifies this
      ensures Valid() && Inv(Abstract())
      ensures Abstract() == RunQueues.Reschedule(KilledView(old(Abstract()), cleaner))
      ensures KilledAs(old(Abstract()), Abstract(), cleaner)
      ensures killedTasks == old(killedTasks) + [old(current)]
    {
      KillTouches(Abstract(), cleaner);
      RemoveAndWake();
      Reschedule();
    }
  }

  lemma CleanerStays(v: View, c: int)
    requires Inv(v) && Queued(v, v.current) && Queued(v, c) && c != v.current
    ensures Kept(RunQueues.RemoveCurrent(v)) && Queued(RunQueues.RemoveCurrent(v), c)
    ensures KilledView(v, c) == RunQueues.UnblockTask(RunQueues.RemoveCurrent(v), c)
  {
    RemoveKeeps(v);
  }

  lemma BootLinked(next: map<int, int>, prev: map<int, int>, main: int, cleaner: int, init: int)
    requires next == map[main := cleaner, cleaner := init, init := main] && prev == map[main := init, cleaner := main, init := cleaner]
    requires main != cleaner && init != main && init != cleaner
    ensures RingLinked(next, prev, [main, cleaner, init])
  {
  }
}
