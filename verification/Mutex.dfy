/**
 `mutex`, as a state machine over the steps tasks can interleave at: each spinlock-protected section of `lock`,
 `try_lock`, `unlock` and of the wait queue is one step.
 */
module Mutex {

  /**
   Where a task is: `Seen` read the value as taken and has yet to queue; `Handing` saw a waiter, `Releasing` saw none.
   */
  datatype Pc = Outside | Locking | Seen | Waiting | Owner | Checking | Handing | Releasing

  /** `arrived` and `handed` record who ever queued and who was ever handed the mutex from the queue, in order. */
  datatype State = State(value: int, queue: seq<int>, pc: map<int, Pc>, arrived: seq<int>, handed: seq<int>)

  datatype Step =
    | Call(t: int)
    | TestValue(t: int)
    | Enqueue(t: int)
    | TryLock(t: int)
    | CallUnlock(t: int)
    | CheckQueue(t: int)
    | HandOver(t: int)
    | SetZero(t: int)

  predicate At(s: State, t: int, c: Pc)
  {
    t in s.pc && s.pc[t] == c
  }

  /** The task owns the mutex: from taking or being handed it until it hands it on or releases it. */
  predicate Holds(s: State, t: int)
  {
    t in s.pc && (s.pc[t] == Owner || s.pc[t] == Checking || s.pc[t] == Handing || s.pc[t] == Releasing)
  }

  /** When a task can take a step. Only the queue wakes a waiter. */
  predicate Enabled(s: State, a: Step)
  {
    match a
    case Call(t) => At(s, t, Outside)
    case TestValue(t) => At(s, t, Locking)
    case Enqueue(t) => At(s, t, Seen)
    case TryLock(t) => At(s, t, Outside)
    case CallUnlock(t) => At(s, t, Owner)
    case CheckQueue(t) => At(s, t, Checking)
    case HandOver(t) => At(s, t, Handing) && s.queue != []
    case SetZero(t) => At(s, t, Releasing)
  }

  function Move(s: State, t: int, c: Pc): State
  {
    s.(pc := s.pc[t := c])
  }

  function Apply(s: State, a: Step): State
    requires Enabled(s, a)
  {
    match a
    case Call(t) => Move(s, t, Locking)
    case TestValue(t) => if s.value == 0 then Move(s, t, Owner).(value := 1) else Move(s, t, Seen)
    case Enqueue(t) => Move(s, t, Waiting).(queue := s.queue + [t], arrived := s.arrived + [t])
    case TryLock(t) => if s.value == 0 then Move(s, t, Owner).(value := 1) else s
    case CallUnlock(t) => Move(s, t, Checking)
    case CheckQueue(t) => if s.queue != [] then Move(s, t, Handing) else Move(s, t, Releasing)
    case HandOver(t) => Move(Move(s, t, Outside), s.queue[0], Owner).(queue := s.queue[1..], handed := s.handed + [s.queue[0]])
    case SetZero(t) => Move(s, t, Outside).(value := 0)
  }

  predicate NoRepeats(q: seq<int>)
  {
    forall i, j :: 0 <= i < j < |q| ==> q[i] != q[j]
  }

  /** Nobody but `h` owns the mutex, and `h` does exactly when the value is 1. */
  ghost predicate OwnerOk(s: State, h: int)
  {
    (s.value == 0 || s.value == 1) && forall t :: Holds(s, t) <==> s.value == 1 && t == h
  }

  /** The queue is the waiting tasks, and a task about to hand over finds one there. */
  ghost predicate QueueOk(s: State)
  {
    && (forall t :: t in s.queue <==> At(s, t, Waiting)) && NoRepeats(s.queue)
    && (forall t :: At(s, t, Handing) ==> s.queue != [])
    && s.arrived == s.handed + s.queue
  }

  ghost predicate Inv(s: State, h: int)
  {
    OwnerOk(s, h) && QueueOk(s)
  }

  /** The mutex as constructed, with some tasks that have not touched it. */
  predicate Init(s: State)
  {
    s.value == 0 && s.queue == [] && s.arrived == [] && s.handed == [] && forall t :: t in s.pc ==> s.pc[t] == Outside
  }

  /** The owner after a step. */
  function NextOwner(s: State, a: Step, h: int): int
    requires Enabled(s, a)
  {
    match a
    case TestValue(t) => if s.value == 0 then t else h
    case TryLock(t) => if s.value == 0 then t else h
    case HandOver(t) => s.queue[0]
    case _ => h
  }

  lemma OwnerKept(s: State, a: Step, h: int)
    requires Inv(s, h) && Enabled(s, a)
    ensures OwnerOk(Apply(s, a), NextOwner(s, a, h))
  {
    var s', h' := Apply(s, a), NextOwner(s, a, h);
    assert Holds(s, a.t) <==> s.value == 1 && a.t == h;
    if a.HandOver? {
      assert s.queue[0] in s.queue;
    }
    forall u ensures Holds(s', u) <==> s'.value == 1 && u == h' {
      assert Holds(s, u) <==> s.value == 1 && u == h;
    }
  }

  lemma QueueKept(s: State, a: Step, h: int)
    requires Inv(s, h) && Enabled(s, a) && !a.Enqueue? && !a.HandOver?
    ensures QueueOk(Apply(s, a))
  {
    var s' := Apply(s, a);
    forall u ensures u in s'.queue <==> At(s', u, Waiting) {
      assert u in s.queue <==> At(s, u, Waiting);
    }
    forall u | At(s', u, Handing) ensures s'.queue != [] {
      assert At(s, u, Handing) || u == a.t;
    }
  }

  lemma EnqueueKeeps(s: State, t: int, h: int)
    requires Inv(s, h) && Enabled(s, Enqueue(t))
    ensures QueueOk(Apply(s, Enqueue(t)))
  {
    var s' := Apply(s, Enqueue(t));
    assert t in s.queue <==> At(s, t, Waiting);
    forall u ensures u in s'.queue <==> At(s', u, Waiting) {
      assert u in s.queue <==> At(s, u, Waiting);
    }
  }

  lemma HandOverKeeps(s: State, t: int, h: int)
    requires Inv(s, h) && Enabled(s, HandOver(t))
    ensures QueueOk(Apply(s, HandOver(t)))
  {
    var s', w := Apply(s, HandOver(t)), s.queue[0];
    var rest := s.queue[1..];
    assert s.queue == [w] + rest;
    forall u ensures u in rest <==> At(s', u, Waiting) {
      assert u in s.queue <==> At(s, u, Waiting);
      assert w in s.queue <==> At(s, w, Waiting);
      assert u in s.queue <==> u == w || u in rest;
    }
    assert Holds(s, t) && t == h;
    forall u ensures !At(s', u, Handing) {
      assert Holds(s, u) <==> s.value == 1 && u == h;
    }
  }

  lemma StepKeeps(s: State, a: Step, h: int)
    requires Inv(s, h) && Enabled(s, a)
    ensures Inv(Apply(s, a), NextOwner(s, a, h))
  {
    OwnerKept(s, a, h);
    if a.Enqueue? {
      EnqueueKeeps(s, a.t, h);
    } else if a.HandOver? {
      HandOverKeeps(s, a.t, h);
    } else {
      QueueKept(s, a, h);
    }
  }

  // ----- whole runs

  predicate Legal(s: State, steps: seq<Step>)
    decreases |steps|
  {
    steps == [] || (Enabled(s, steps[0]) && Legal(Apply(s, steps[0]), steps[1..]))
  }

  function Run(s: State, steps: seq<Step>): State
    requires Legal(s, steps)
    decreases |steps|
  {
    if steps == [] then s else Run(Apply(s, steps[0]), steps[1..])
  }

  lemma {:induction false} RunKeeps(s: State, steps: seq<Step>, h: int) returns (h': int)
    requires Inv(s, h) && Legal(s, steps)
    ensures Inv(Run(s, steps), h')
    decreases |steps|
  {
    h' := h;
    if steps != [] {
      StepKeeps(s, steps[0], h);
      h' := RunKeeps(Apply(s, steps[0]), steps[1..], NextOwner(s, steps[0], h));
    }
  }

  function Queuer(a: Step): seq<int> { if a.Enqueue? then [a.t] else [] }

  /** Who queued in a run, in order. */
  function Enqueuers(steps: seq<Step>): seq<int>
  {
    if steps == [] then []
    else Queuer(steps[0]) + Enqueuers(steps[1..])
  }

  lemma ArrivedStep(s: State, a: Step)
    requires Enabled(s, a)
    ensures Apply(s, a).arrived == s.arrived + Queuer(a)
  {
  }

  /** `arrived` is that. */
  lemma {:induction false} ArrivedInOrder(s: State, steps: seq<Step>)
    requires Legal(s, steps)
    ensures Run(s, steps).arrived == s.arrived + Enqueuers(steps)
    decreases |steps|
  {
    if steps == [] {
      assert s.arrived + Enqueuers(steps) == s.arrived;
    } else {
      var a, rest := steps[0], steps[1..];
      ArrivedStep(s, a);
      ArrivedInOrder(Apply(s, a), rest);
      assert (s.arrived + Queuer(a)) + Enqueuers(rest) == s.arrived + (Queuer(a) + Enqueuers(rest));
    }
  }

  /** In every interleaving: one owner at most, none while the value is 0, and waiters served in the order they came. */
  lemma MutualExclusion(s: State, steps: seq<Step>, t: int, u: int)
    requires Init(s) && Legal(s, steps)
    ensures var e := Run(s, steps);
            && (Holds(e, t) && Holds(e, u) ==> t == u)
            && (e.value == 0 ==> !Holds(e, t))
            && (At(e, t, Handing) ==> e.queue != [])
            && e.handed + e.queue == Enqueuers(steps)
  {
    var h := RunKeeps(s, steps, 0);
    ArrivedInOrder(s, steps);
    assert s.arrived + Enqueuers(steps) == Enqueuers(steps);
  }

  /** A task that finds nobody owning the mutex owns it from that step on; one that finds an owner does not. */
  lemma FreeIsTaken(s: State, before: seq<Step>, t: int)
    requires Init(s) && Legal(s, before)
    ensures var e := Run(s, before);
            var free := forall u :: !Holds(e, u);
            && (At(e, t, Locking) ==> At(Apply(e, TestValue(t)), t, if free then Owner else Seen))
            && (At(e, t, Outside) && free ==> At(Apply(e, TryLock(t)), t, Owner))
            && (At(e, t, Outside) && !free ==> Apply(e, TryLock(t)) == e)
  {
    var h := RunKeeps(s, before, 0);
    var e := Run(s, before);
    assert Holds(e, h) <==> e.value == 1 && h == h;
  }

  // ----- calls with nothing in between

  lemma FirstStep(s: State, a: Step, rest: seq<Step>)
    requires Enabled(s, a) && Legal(Apply(s, a), rest)
    ensures Legal(s, [a] + rest) && Run(s, [a] + rest) == Run(Apply(s, a), rest)
  {
    assert ([a] + rest)[1..] == rest;
  }

  lemma ThreeSteps(s: State, a: Step, b: Step, c: Step)
    requires Enabled(s, a) && Enabled(Apply(s, a), b) && Enabled(Apply(Apply(s, a), b), c)
    ensures Legal(s, [a, b, c]) && Run(s, [a, b, c]) == Apply(Apply(Apply(s, a), b), c)
  {
    FirstStep(Apply(Apply(s, a), b), c, []);
    FirstStep(Apply(s, a), b, [c]);
    FirstStep(s, a, [b, c]);
    assert [c] + [] == [c] && [b] + [c] == [b, c] && [a] + [b, c] == [a, b, c];
  }

  /** A call of `lock` while somebody owns the mutex waits behind everyone who waits. */
  lemma LockWaits(e: State, t: int, h: int)
    requires Inv(e, h) && At(e, t, Outside) && Holds(e, h)
    ensures Legal(e, [Call(t), TestValue(t), Enqueue(t)])
    ensures var e' := Run(e, [Call(t), TestValue(t), Enqueue(t)]);
            e'.queue == e.queue + [t] && e'.value == e.value && e'.pc == e.pc[t := Waiting]
  {
    ThreeSteps(e, Call(t), TestValue(t), Enqueue(t));
  }

  /** A call of `lock` and one of `unlock` with nobody else about leave a free mutex as it was. */
  lemma LockUnlock(e: State, t: int, h: int)
    requires Inv(e, h) && At(e, t, Outside) && e.queue == [] && !Holds(e, h)
    ensures Legal(e, [Call(t), TestValue(t), CallUnlock(t)])
    ensures var e' := Run(e, [Call(t), TestValue(t), CallUnlock(t)]);
            && e'.value == 1 && (forall u :: Holds(e', u) <==> u == t)
            && Legal(e', [CheckQueue(t), SetZero(t)]) && Run(e', [CheckQueue(t), SetZero(t)]) == e
  {
    assert e.value == 0;
    ThreeSteps(e, Call(t), TestValue(t), CallUnlock(t));
    var e' := Run(e, [Call(t), TestValue(t), CallUnlock(t)]);
    assert e'.pc == e.pc[t := Checking];
    forall u ensures Holds(e', u) <==> u == t {
      assert Holds(e, u) <==> e.value == 1 && u == h;
    }
    var e1 := Apply(e', CheckQueue(t));
    assert Apply(e1, SetZero(t)).pc == e.pc;
    FirstStep(e1, SetZero(t), []);
    assert [SetZero(t)] + [] == [SetZero(t)];
    FirstStep(e', CheckQueue(t), [SetZero(t)]);
    assert [CheckQueue(t)] + [SetZero(t)] == [CheckQueue(t), SetZero(t)];
  }

  // ----- a waiter that comes too late

  /** A task that saw the mutex taken can queue after the owner looked at the queue and before it resets the value. */
  lemma StrandedWaiter(s: State)
    requires s == State(1, [], map[1 := Checking, 2 := Seen], [], [])
    ensures var steps := [CheckQueue(1), Enqueue(2), SetZero(1)];
            Legal(s, steps) && Run(s, steps) == State(0, [2], map[1 := Outside, 2 := Waiting], [2], [])
  {
  }

  /** The state that scenario starts in is reached: 1 takes the mutex, 2 sees it taken, 1 starts to unlock. */
  lemma StrandingStarts(s: State)
    requires s == State(0, [], map[1 := Outside, 2 := Outside], [], [])
    ensures var steps := [TryLock(1), Call(2), TestValue(2), CallUnlock(1)];
            Init(s) && Legal(s, steps) && Run(s, steps) == State(1, [], map[1 := Checking, 2 := Seen], [], [])
  {
    var steps := [TryLock(1), Call(2), TestValue(2), CallUnlock(1)];
    var s1 := Apply(s, steps[0]);
    var s2 := Apply(s1, steps[1]);
    var s3 := Apply(s2, steps[2]);
    assert steps[1..] == [Call(2), TestValue(2), CallUnlock(1)] && steps[1..][1..] == [TestValue(2), CallUnlock(1)];
    assert steps[1..][1..][1..] == [CallUnlock(1)];
    assert s3.pc == map[1 := Owner, 2 := Seen];
    assert Apply(s3, CallUnlock(1)).pc == map[1 := Checking, 2 := Seen];
    assert Legal(s3, [CallUnlock(1)]) && Legal(s2, steps[1..][1..]) && Legal(s1, steps[1..]);
  }

  lemma {:induction false} SomeoneQueued(steps: seq<Step>)
    ensures Enqueuers(steps) != [] <==> exists i :: 0 <= i < |steps| && steps[i].Enqueue?
  {
    if steps != [] {
      SomeoneQueued(steps[1..]);
      if i :| 0 <= i < |steps[1..]| && steps[1..][i].Enqueue? {
        assert steps[i + 1].Enqueue?;
      }
      if i :| 0 < i < |steps| && steps[i].Enqueue? {
        assert steps[1..][i - 1].Enqueue?;
      }
    }
  }

  predicate StaysOut(steps: seq<Step>, t: int)
  {
    forall i :: 0 <= i < |steps| ==> steps[i].t != t
  }

  /** While its owner takes no step the mutex stays with it and nobody can hand over, so the queue only grows. */
  lemma HoldingStep(s: State, a: Step, t: int)
    requires Inv(s, t) && Holds(s, t) && Enabled(s, a) && a.t != t
    ensures Inv(Apply(s, a), t) && At(Apply(s, a), t, s.pc[t])
    ensures Apply(s, a).queue == s.queue + Queuer(a)
  {
    assert Holds(s, a.t) <==> s.value == 1 && a.t == t;
    StepKeeps(s, a, t);
  }

  lemma {:induction false} WhileHolding(s: State, steps: seq<Step>, t: int)
    requires Inv(s, t) && Holds(s, t) && Legal(s, steps) && StaysOut(steps, t)
    ensures Inv(Run(s, steps), t) && At(Run(s, steps), t, s.pc[t]) && Run(s, steps).queue == s.queue + Enqueuers(steps)
    decreases |steps|
  {
    if steps == [] {
      assert s.queue + Enqueuers(steps) == s.queue;
    } else {
      var a, rest := steps[0], steps[1..];
      assert a.t != t;
      HoldingStep(s, a, t);
      var s' := Apply(s, a);
      assert StaysOut(rest, t);
      WhileHolding(s', rest, t);
      assert Run(s, steps) == Run(s', rest);
      assert (s.queue + Queuer(a)) + Enqueuers(rest) == s.queue + (Queuer(a) + Enqueuers(rest));
    }
  }

  lemma OwnerLooks(s: State, before: seq<Step>, t: int)
    requires Init(s) && Legal(s, before) && At(Run(s, before), t, Checking)
    ensures var s0 := Run(s, before); Inv(s0, t) && Inv(Apply(s0, CheckQueue(t)), t) && Holds(Apply(s0, CheckQueue(t)), t)
  {
    var h := RunKeeps(s, before, 0);
    assert Holds(Run(s, before), t);
    StepKeeps(Run(s, before), CheckQueue(t), h);
  }

  /**
   In every run: an owner that found a waiter hands the mutex to the one that waited longest, whatever the others do in
   between; nobody else comes to own it, and the others keep their places in the queue.
   */
  lemma HandsToFirst(s: State, before: seq<Step>, t: int, steps: seq<Step>)
    requires Init(s) && Legal(s, before) && At(Run(s, before), t, Checking) && Run(s, before).queue != []
    requires Legal(Apply(Run(s, before), CheckQueue(t)), steps) && StaysOut(steps, t)
    ensures var queue := Run(s, before).queue;
            var e := Run(Apply(Run(s, before), CheckQueue(t)), steps);
            && Enabled(e, HandOver(t)) && var e' := Apply(e, HandOver(t));
            && At(e', t, Outside) && (forall w :: Holds(e', w) <==> w == queue[0])
            && e'.value == 1 && e'.queue == queue[1..] + Enqueuers(steps)
  {
    var s0 := Run(s, before);
    OwnerLooks(s, before, t);
    WhileHolding(Apply(s0, CheckQueue(t)), steps, t);
    var e := Run(Apply(s0, CheckQueue(t)), steps);
    assert e.queue == s0.queue + Enqueuers(steps);
    assert (s0.queue + Enqueuers(steps))[1..] == s0.queue[1..] + Enqueuers(steps);
    HandOverLeaves(e, t);
  }

  lemma HandOverLeaves(e: State, t: int)
    requires Inv(e, t) && At(e, t, Handing)
    ensures Enabled(e, HandOver(t))
    ensures var e' := Apply(e, HandOver(t));
            && At(e', t, Outside) && (forall w :: Holds(e', w) <==> w == e.queue[0]) && e'.value == 1 && e'.queue == e.queue[1..]
  {
    assert Holds(e, t);
    assert e.queue[0] in e.queue;
    StepKeeps(e, HandOver(t), t);
  }

  /**
   In every run: an owner that found the queue empty and then resets the value leaves waiting exactly the tasks that
   queued in between, so somebody is left behind if and only if somebody queued in between.
   */
  lemma StrandsIff(s: State, before: seq<Step>, t: int, steps: seq<Step>)
    requires Init(s) && Legal(s, before) && At(Run(s, before), t, Checking) && Run(s, before).queue == []
    requires Legal(Apply(Run(s, before), CheckQueue(t)), steps) && StaysOut(steps, t)
    ensures var e := Run(Apply(Run(s, before), CheckQueue(t)), steps);
            && Enabled(e, SetZero(t)) && Apply(e, SetZero(t)).value == 0 &&
                Apply(e, SetZero(t)).queue == Enqueuers(steps)
            && (forall w :: At(Apply(e, SetZero(t)), w, Waiting) <==> w in Enqueuers(steps))
            && ((exists w :: At(Apply(e, SetZero(t)), w, Waiting)) <==> exists i :: 0 <= i < |steps| && steps[i].Enqueue?)
  {
    var s0 := Run(s, before);
    OwnerLooks(s, before, t);
    WhileHolding(Apply(s0, CheckQueue(t)), steps, t);
    ReleaseLeaves(Run(Apply(s0, CheckQueue(t)), steps), t, steps);
  }

  lemma ReleaseLeaves(e: State, t: int, steps: seq<Step>)
    requires Inv(e, t) && At(e, t, Releasing) && e.queue == Enqueuers(steps)
    ensures var e' := Apply(e, SetZero(t));
            && e'.value == 0 && e'.queue == Enqueuers(steps) && (forall w :: At(e', w, Waiting) <==> w in Enqueuers(steps))
            && ((exists w :: At(e', w, Waiting)) <==> exists i :: 0 <= i < |steps| && steps[i].Enqueue?)
  {
    StepKeeps(e, SetZero(t), t);
    var e' := Apply(e, SetZero(t));
    assert e'.queue == Enqueuers(steps);
    SomeoneQueued(steps);
    if Enqueuers(steps) != [] {
      assert Enqueuers(steps)[0] in e'.queue;
      assert At(e', Enqueuers(steps)[0], Waiting);
    }
  }
}
