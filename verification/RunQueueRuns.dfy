/** Runs of the scheduler: the invariant, who gets to run, and how long a ready task waits. */
module RunQueueRuns {
  import opened RunQueues

  datatype Op =
    | Queue(task: int, level: int, state: ThreadState)
    | Switch
    | Block
    | Unblock(task: int)
    | Suspend(state: ThreadState)
    | Kill(cleaner: int)

  predicate Enabled(v: View, op: Op)
    requires Inv(v)
  {
    match op
    case Queue(t, p, s) => 0 <= p < LEVELS && t != 0 && t !in v.states && t !in v.priority &&
        (s == Ready || s == Blocked)
    case Switch => true
    case Block => Queued(v, v.current)
    case Unblock(t) => Queued(v, t)
    case Suspend(s) => Queued(v, v.current) && (s == Sleeping || s == WaitingForChild)
    case Kill(c) => Queued(v, v.current) && Queued(v, c) && c != v.current
  }

  /** `kill_current_task` up to its reschedule. */
  function KilledView(v: View, cleaner: int): (v': View)
    requires Inv(v) && Queued(v, v.current) && Queued(v, cleaner) && cleaner != v.current
    ensures Kept(v')
  {
    RemoveKeeps(v);
    UnblockKeeps(RemoveCurrent(v), cleaner);
    UnblockTask(RemoveCurrent(v), cleaner)
  }

  /** What waking a task makes of its state. */
  function Woken(s: ThreadState): ThreadState
  {
    if s in {Blocked, Sleeping, WaitingForChild} then Ready else s
  }

  /** The current task is on no ring and marked killed, and everyone else is where they were. */
  ghost predicate OffTheRings(v: View, v': View)
    requires Inv(v) && Queued(v, v.current)
  {
    var t, p := v.current, v.priority[v.current];
    && |v'.rings| == LEVELS && (forall q :: 0 <= q < LEVELS ==> t !in v'.rings[q])
    && (forall q :: 0 <= q < LEVELS && q != p ==> v'.rings[q] == v.rings[q]) && TakenOff(v.rings[p], v'.rings[p], t)
    && v'.idle == v.idle && t in v'.states && v'.states[t] == Killed
  }

  /** A task of the highest level that can run runs, and the idle task if there is none. */
  ghost predicate HighestRuns(v: View)
  {
    && |v.rings| == LEVELS && v.current in v.states && v.states[v.current] == Running
    && (v.current == v.idle <==> forall q, u :: 0 <= q < LEVELS && u in v.rings[q] ==> !Runnable(v.states, u))
    && (v.current != v.idle ==>
          Queued(v, v.current) && forall q, u :: v.priority[v.current] < q < LEVELS && u in v.rings[q] ==>
              !Runnable(v.states, u))
  }

  /**
   What `kill_current_task` leaves: moreover the cleaner is awake, and no other state changed but the chosen task's.
   */
  ghost predicate KilledAs(v: View, v': View, cleaner: int)
    requires Inv(v) && Queued(v, v.current) && Queued(v, cleaner)
  {
    && OffTheRings(v, v') && HighestRuns(v') && StatesKept(v, v', {v.current, cleaner, v'.current})
    && cleaner in v'.states && v'.states[cleaner] == if cleaner == v'.current then Running else Woken(v.states[cleaner])
  }

  lemma KilledTouches(v: View, cleaner: int)
    requires Inv(v) && Queued(v, v.current) && Queued(v, cleaner) && cleaner != v.current
    ensures var v' := KilledView(v, cleaner);
            && OffTheRings(v, v') && v'.current == v.current && StatesKept(v, v', {v.current, cleaner})
            && cleaner in v'.states && v'.states[cleaner] == Woken(v.states[cleaner])
  {
    RemoveKeeps(v);
    UnblockKeeps(RemoveCurrent(v), cleaner);
  }

  lemma HighestAfter(v: View)
    requires Kept(v)
    ensures HighestRuns(Reschedule(v))
  {
    RescheduleTouches(v);
    RescheduleChoosesHighest(v);
    RescheduleKeeps(v);
    RunnableAfter(v);
  }

  lemma KillTouches(v: View, cleaner: int)
    requires Inv(v) && Queued(v, v.current) && Queued(v, cleaner) && cleaner != v.current
    ensures KilledAs(v, Reschedule(KilledView(v, cleaner)), cleaner)
  {
    var v2 := KilledView(v, cleaner);
    assert KilledNext(v2, Reschedule(v2)) by {
      RescheduleTouches(v2);
      ChosenCanRun(v2);
    }
    HighestAfter(v2);
    KilledTouches(v, cleaner);
    ThenChosen(v, v2, Reschedule(v2), cleaner);
  }

  /** The reschedule after the kill: it chooses a task that can run, and touches no other but the one it leaves. */
  ghost predicate KilledNext(v: View, v': View)
  {
    && v'.rings == v.rings && v'.idle == v.idle && StatesKept(v, v', {v.current, v'.current})
    && v'.current in v.states && CanRun(v.states[v'.current]) && v'.current in v'.states &&
        v'.states[v'.current] == Running
    && v.current in v.states
    && (v.states[v.current] == Killed ==> v.current in v'.states && v'.states[v.current] == Killed)
  }

  lemma ThenChosen(v: View, v2: View, v3: View, cleaner: int)
    requires Inv(v) && Queued(v, v.current) && Queued(v, cleaner) && cleaner != v.current
    requires OffTheRings(v, v2) && v2.current == v.current && StatesKept(v, v2, {v.current, cleaner})
    requires cleaner in v2.states && v2.states[cleaner] == Woken(v.states[cleaner])
    requires KilledNext(v2, v3) && HighestRuns(v3)
    ensures KilledAs(v, v3, cleaner)
  {
  }

  lemma ChosenCanRun(v: View)
    requires Kept(v)
    ensures Reschedule(v).current in v.states && CanRun(v.states[Reschedule(v).current])
  {
    RescheduleChoosesHighest(v);
  }

  /** A reschedule changes nobody's being able to run. */
  lemma RunnableAfter(v: View)
    requires Kept(v)
    ensures forall q, u :: 0 <= q < LEVELS && u in v.rings[q] ==> (Runnable(Reschedule(v).states, u) <==> Runnable(v.states, u))
  {
    RescheduleTouches(v);
    RescheduleChoosesHighest(v);
    forall q, u | 0 <= q < LEVELS && u in v.rings[q] ensures Runnable(Reschedule(v).states, u) <==> Runnable(v.states, u) {
      assert RingOk(v.rings[q], q, v.states, v.priority);
    }
  }

  function Apply(v: View, op: Op): (v': View)
    requires Inv(v) && Enabled(v, op)
    ensures Inv(v')
  {
    match op
    case Queue(t, p, s) => QueueKeeps(v, t, p, s); QueueTask(v, t, p, s)
    case Switch => RescheduleKeeps(v); Reschedule(v)
    case Block => BlockKeeps(v); BlockCurrent(v)
    case Unblock(t) => UnblockKeeps(v, t); UnblockTask(v, t)
    case Suspend(s) => SuspendKeeps(v, s); SuspendCurrent(v, s)
    case Kill(c) => RescheduleKeeps(KilledView(v, c)); Reschedule(KilledView(v, c))
  }

  predicate Legal(v: View, ops: seq<Op>)
    requires Inv(v)
    decreases |ops|
  {
    ops == [] || (Enabled(v, ops[0]) && Legal(Apply(v, ops[0]), ops[1..]))
  }

  function Run(v: View, ops: seq<Op>): (v': View)
    requires Inv(v) && Legal(v, ops)
    ensures Inv(v')
    decreases |ops|
  {
    if ops == [] then v else Run(Apply(v, ops[0]), ops[1..])
  }

  // ----- boot

  /** The state the constructor builds before it creates any task but the kernel's own thread. */
  function BootView(main: int, idle: int): View
  {
    View(seq(LEVELS, p => if p == LEVELS - 1 then [main] else []), map[main := Running, idle := Ready], map[main := LEVELS - 1],
         seq(LEVELS, p => 0), main, idle)
  }

  /**
   Before the first ready task is queued the top cursor is null although the main thread runs, so the invariant
   fails; it holds once the cleaner (blocked) and the init task (ready) are queued, which the constructor does
   before it registers the tick handler.
   */
  lemma BootEstablishesInvariant(main: int, idle: int, cleaner: int, init: int)
    requires FourTasks(main, idle, cleaner, init)
    ensures var v := QueueTask(BootView(main, idle), cleaner, LEVELS - 1, Blocked);
            !Kept(BootView(main, idle)) && !Kept(v) && Inv(QueueTask(v, init, LEVELS - 1, Ready))
  {
    var top := LEVELS - 1;
    var v0 := BootView(main, idle);
    var v1 := QueueTask(v0, cleaner, top, Blocked);
    var v2 := QueueTask(v1, init, top, Ready);
    assert main in v0.rings[top] && main in v1.rings[top];
    assert !LevelOk(v0.rings[top], v0.cursors[top], v0.states, main);
    assert !LevelOk(v1.rings[top], v1.cursors[top], v1.states, main);
    assert v2.rings[top] == [main, cleaner, init];
    assert RingOk(v2.rings[top], top, v2.states, v2.priority);
    assert LevelOk(v2.rings[top], v2.cursors[top], v2.states, main);
  }

  // ----- sleepers

  /**
   The tick's wake-up keeps the invariant exactly when the cursor of the sleeper's level does not rest on the
   current task: it moves a null cursor only.
   */
  lemma WakeKeepsIff(v: View, t: int)
    requires Inv(v) && Queued(v, t) && v.states[t] == Sleeping
    ensures Inv(WakeSleeper(v, t)) <==> v.cursors[v.priority[t]] != v.current
  {
    var p := v.priority[t];
    var v' := WakeSleeper(v, t);
    assert LevelOk(v.rings[p], v.cursors[p], v.states, v.current);
    if v.cursors[p] != v.current {
      StateChangeKeeps(v, v', p);
    } else {
      assert t in v.rings[p] && Runnable(v'.states, t);
      assert !LevelOk(v'.rings[p], v'.cursors[p], v'.states, v'.current);
    }
  }

  /**
   When it does rest there, the woken task can be lost: if the current task then goes to sleep and no other task
   can run, the idle task runs although the woken task is ready.
   */
  lemma WokenTaskLost(v: View, t: int)
    requires Inv(v) && Queued(v, t) && v.states[t] == Sleeping
    requires v.cursors[v.priority[t]] == v.current
    requires forall p, u :: 0 <= p < LEVELS && u in v.rings[p] && Runnable(v.states, u) ==> u == v.current
    ensures var woken := WakeSleeper(v, t);
            && Shape(woken) && Queued(woken, v.current)
            && Shape(SuspendCurrent(woken, Sleeping))
            && var after := Reschedule(SuspendCurrent(woken, Sleeping));
               after.current == v.idle && after.states[t] == Ready
  {
    var p := v.priority[t];
    var woken := WakeSleeper(v, t);
    assert LevelOk(v.rings[p], v.cursors[p], v.states, v.current);
    assert v.current in v.rings[p] &&
        v.priority[v.current] == p by { assert RingOk(v.rings[p], p, v.states, v.priority); }
    forall q | 0 <= q < LEVELS
      ensures RingOk(v.rings[q], q, woken.states, v.priority)
      ensures RingOk(v.rings[q], q, SuspendCurrent(woken, Sleeping).states, v.priority)
      ensures q != p ==> v.cursors[q] == 0
    {
      assert RingOk(v.rings[q], q, v.states, v.priority) && LevelOk(v.rings[q], v.cursors[q], v.states, v.current);
      RingFrame(v.rings[q], q, v.states, v.priority, woken.states, v.priority);
      RingFrame(v.rings[q], q, v.states, v.priority, woken.states[v.current := Sleeping], v.priority);
      if v.cursors[q] != 0 {
        assert v.cursors[q] in v.rings[q] && Runnable(v.states, v.cursors[q]);
        assert v.priority[v.current] == q;
      }
    }
  }

  /** The state at the end of the constructor, with the cleaner and the init task queued. */
  function Booted(main: int, idle: int, cleaner: int, init: int): View
  {
    QueueTask(QueueTask(BootView(main, idle), cleaner, LEVELS - 1, Blocked), init, LEVELS - 1, Ready)
  }

  predicate FourTasks(main: int, idle: int, cleaner: int, init: int)
  {
    0 !in {main, idle, cleaner, init} && main != idle && cleaner !in {main, idle} && init !in {main, idle, cleaner}
  }

  /** The state after a first switch, to the init task. */
  lemma InitRuns(main: int, idle: int, cleaner: int, init: int)
    requires FourTasks(main, idle, cleaner, init)
    ensures var v := Booted(main, idle, cleaner, init);
            && Inv(v) && Reschedule(v) == v.(cursors := v.cursors[LEVELS - 1 := main], current := init, states := SwitchStates(v.states, main, init))
  {
    BootEstablishesInvariant(main, idle, cleaner, init);
    var v, top := Booted(main, idle, cleaner, init), LEVELS - 1;
    var ring := v.rings[top];
    assert ring == [main, cleaner, init] && v.cursors[top] == init;
    assert ring[2] == init && IndexOf(ring, init) == 2;
    assert Around(2, 1, 3) == 0 && Runnable(v.states, ring[0]);
    assert Scan(ring, v.states, 2, 1) == 1;
  }

  /** A switch from a sleeping init task finds the main thread alone. */
  lemma MainRunsAlone(v: View, main: int, idle: int, cleaner: int, init: int)
    requires FourTasks(main, idle, cleaner, init) && Shape(v) && v.rings[LEVELS - 1] == [main, cleaner, init]
    requires v.cursors[LEVELS - 1] == main && v.current == init && init in v.states && cleaner in v.states
    requires v.states[init] == Sleeping && v.states[cleaner] == Blocked && Runnable(v.states, main)
    ensures Reschedule(v) == v.(current := main, states := v.states[main := Running])
  {
    var ring := v.rings[LEVELS - 1];
    assert IndexOf(ring, main) == 0;
    assert Around(0, 1, 3) == 1 && Around(0, 2, 3) == 2 && Around(0, 3, 3) == 0;
    assert Scan(ring, v.states, 0, 2) == Scan(ring, v.states, 0, 3) == 3;
    assert Scan(ring, v.states, 0, 1) == 3;
    assert v.cursors[LEVELS - 1 := main] == v.cursors;
  }

  lemma ThreeSteps(v: View, ops: seq<Op>)
    requires Inv(v) && |ops| == 3 && Enabled(v, ops[0]) && Enabled(Apply(v, ops[0]), ops[1])
    requires Enabled(Apply(Apply(v, ops[0]), ops[1]), ops[2])
    ensures Legal(v, ops) && Run(v, ops) == Apply(Apply(Apply(v, ops[0]), ops[1]), ops[2])
  {
    var v1 := Apply(v, ops[0]);
    var v2 := Apply(v1, ops[1]);
    var v3 := Apply(v2, ops[2]);
    assert ops[1..][0] == ops[1] && ops[1..][1..] == [ops[2]] && [ops[2]][1..] == [];
    assert Legal(v3, []) && Run(v3, []) == v3;
    assert Legal(v2, [ops[2]]) && Run(v2, [ops[2]]) == v3;
    assert Legal(v1, ops[1..]) && Run(v1, ops[1..]) == v3;
  }

  /** The loss is within reach of every boot: switch to the init task, let it sleep, switch back. */
  lemma LostFromBoot(main: int, idle: int, cleaner: int, init: int)
    requires FourTasks(main, idle, cleaner, init)
    ensures var v0, ops := Booted(main, idle, cleaner, init), [Switch, Suspend(Sleeping), Switch];
            && Inv(v0) && Legal(v0, ops)
            && var v := Run(v0, ops);
               && Queued(v, init) && v.states[init] == Sleeping && v.cursors[v.priority[init]] == v.current
               && forall p, u :: 0 <= p < LEVELS && u in v.rings[p] && Runnable(v.states, u) ==> u == v.current
  {
    var v0, ops := Booted(main, idle, cleaner, init), [Switch, Suspend(Sleeping), Switch];
    InitRuns(main, idle, cleaner, init);
    assert v0.rings[LEVELS - 1] == [main, cleaner, init];
    var v1 := Apply(v0, Switch);
    assert Queued(v1, v1.current);
    var v2 := Apply(v1, Suspend(Sleeping));
    MainRunsAlone(v2, main, idle, cleaner, init);
    var v3 := Apply(v2, Switch);
    ThreeSteps(v0, ops);
    assert forall p :: 0 <= p < LEVELS - 1 ==> |v3.rings[p]| == 0;
    assert v3.rings[LEVELS - 1] == [main, cleaner, init];
  }
}
