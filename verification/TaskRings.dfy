/** The doubly linked rings of task control blocks: what their pointers spell, and the loops that follow them. */
module TaskRings {
  import opened RunQueues

  // ----- linked rings

  function NextOn(ring: seq<int>, i: int): int
    requires 0 <= i < |ring|
  {
    ring[Around(i, 1, |ring|)]
  }

  function PrevOn(ring: seq<int>, i: int): int
    requires 0 <= i < |ring|
  {
    if i == 0 then ring[|ring| - 1] else ring[i - 1]
  }

  /** The `next` and `prev` pointers of the tasks on the ring go round it both ways. */
  predicate RingLinked(next: map<int, int>, prev: map<int, int>, ring: seq<int>)
  {
    && (forall t :: t in ring ==> t in next && t in prev)
    && (forall i {:trigger NextOn(ring, i)} :: 0 <= i < |ring| ==> next[ring[i]] == NextOn(ring, i))
    && (forall i {:trigger PrevOn(ring, i)} :: 0 <= i < |ring| ==> prev[ring[i]] == PrevOn(ring, i))
  }

  function StartOf(ring: seq<int>): int
  {
    if ring == [] then 0 else ring[0]
  }

  predicate Linked(next: map<int, int>, prev: map<int, int>, start: seq<int>, rings: seq<seq<int>>)
  {
    && |start| == |rings| == LEVELS
    && (forall p :: 0 <= p < LEVELS ==> start[p] == StartOf(rings[p]))
    && (forall p :: 0 <= p < LEVELS ==> RingLinked(next, prev, rings[p]))
  }

  /** Hook `t` in before the start of a ring that is not empty. */
  lemma AppendLinked(next: map<int, int>, prev: map<int, int>, ring: seq<int>, t: int)
    requires RingLinked(next, prev, ring) && ring != [] && NoRepeats(ring) && t !in ring
    ensures var last := ring[|ring| - 1];
            prev[ring[0]] == last && RingLinked(next[last := t][t := ring[0]], prev[t := last][ring[0] := t], ring + [t])
  {
    var n, last := |ring|, ring[|ring| - 1];
    var ring' := ring + [t];
    var next', prev' := next[last := t][t := ring[0]], prev[t := last][ring[0] := t];
    assert prev[ring[0]] == PrevOn(ring, 0);
    forall i | 0 <= i <= n
      ensures ring'[i] in next' && next'[ring'[i]] == NextOn(ring', i)
      ensures ring'[i] in prev' && prev'[ring'[i]] == PrevOn(ring', i)
    {
      if i < n {
        assert next[ring[i]] == NextOn(ring, i) && prev[ring[i]] == PrevOn(ring, i);
      }
    }
  }

  /** Unhook the task at place `k`: its neighbours point past it. */
  lemma UnhookLinked(next: map<int, int>, prev: map<int, int>, ring: seq<int>, k: int, ring': seq<int>)
    requires RingLinked(next, prev, ring) && 0 <= k < |ring| && NoRepeats(ring) && ring' == ring[..k] + ring[k + 1..]
    ensures ring[k] in next && ring[k] in prev && next[ring[k]] == NextOn(ring, k) && prev[ring[k]] == PrevOn(ring, k)
    ensures var next' := next[PrevOn(ring, k) := NextOn(ring, k)];
            var prev' := prev[NextOn(ring, k) := PrevOn(ring, k)];
            RingLinked(next', prev', ring')
  {
    var next' := next[PrevOn(ring, k) := NextOn(ring, k)];
    var prev' := prev[NextOn(ring, k) := PrevOn(ring, k)];
    assert next[ring[k]] == NextOn(ring, k) && prev[ring[k]] == PrevOn(ring, k);
    forall i | 0 <= i < |ring'|
      ensures ring'[i] in next' && next'[ring'[i]] == NextOn(ring', i)
      ensures ring'[i] in prev' && prev'[ring'[i]] == PrevOn(ring', i)
    {
      var o := if i < k then i else i + 1;
      assert ring'[i] == ring[o] && ring[o] in ring;
      assert next[ring[o]] == NextOn(ring, o) && prev[ring[o]] == PrevOn(ring, o);
      var n := |ring|;
      var pk, nk := if k == 0 then n - 1 else k - 1, Around(k, 1, n);
      assert NextOn(ring', i) == if o == pk then ring[nk] else NextOn(ring, o);
      assert PrevOn(ring', i) == if o == nk then ring[pk] else PrevOn(ring, o);
      assert o != pk ==> ring[o] != ring[pk];
      assert o != nk ==> ring[o] != ring[nk];
    }
  }

  // ----- the loops

  /** The loop of `update_priority_queue_next_task`: follow the ring from `n` to the next runnable task. */
  method ScanRing(next: map<int, int>, states: map<int, ThreadState>, n: int, ghost prev: map<int, int>,
      ghost ring: seq<int>)
    returns (c: int)
    requires RingLinked(next, prev, ring) && n in ring && NoRepeats(ring)
    requires forall t :: t in ring ==> t in states
    ensures c == Advance(ring, states, n)
  {
    ghost var i := IndexOf(ring, n);
    ghost var d := 1;
    c := n;
    assert next[ring[i]] == NextOn(ring, i);
    var t := next[n];
    while t != n
      invariant 0 < d <= |ring| && t == ring[Around(i, d, |ring|)]
      invariant c == n && Scan(ring, states, i, 1) == Scan(ring, states, i, d)
      decreases |ring| - d
    {
      if states[t] == Ready || states[t] == Running {
        c := t;
        break;
      }
      assert next[ring[Around(i, d, |ring|)]] == NextOn(ring, Around(i, d, |ring|));
      t := next[t];
      d := d + 1;
    }
    assert t == n ==> d == |ring|;
    if states[c] != Ready && states[c] != Running {
      c := 0;
    }
  }

  /** The loop of `get_next_task`: the highest level whose cursor is set. */
  method HighestLevel(cursors: seq<int>) returns (p: int)
    requires |cursors| == LEVELS
    ensures p == Highest(cursors, LEVELS)
  {
    p := LEVELS - 1;
    while p >= 0
      invariant -1 <= p < LEVELS
      invariant Highest(cursors, LEVELS) == Highest(cursors, p + 1)
    {
      if cursors[p] != 0 {
        return;
      }
      p := p - 1;
    }
  }

  // ----- relinkings seen from all the rings

  lemma AppendAllLinked(next: map<int, int>, prev: map<int, int>, start: seq<int>, v: View, t: int, p: int)
    requires Shape(v) && Linked(next, prev, start, v.rings) && 0 <= p < LEVELS && t != 0 && t !in v.priority
    ensures var ring := v.rings[p];
            if ring == [] then Linked(next[t := t], prev[t := t], start[p := t], v.rings[p := ring + [t]])
            else ring[0] in prev && prev[ring[0]] in next
                 && Linked(next[prev[ring[0]] := t][t := ring[0]], prev[t := prev[ring[0]]][ring[0] := t], start, v.rings[p := ring + [t]])
  {
    var ring := v.rings[p];
    var rings' := v.rings[p := ring + [t]];
    assert RingOk(ring, p, v.states, v.priority) && RingLinked(next, prev, ring);
    var next', prev' := next[t := t], prev[t := t];
    if ring == [] {
      assert NextOn([t], 0) == t && PrevOn([t], 0) == t;
      assert ring + [t] == [t];
    } else {
      AppendLinked(next, prev, ring, t);
      next', prev' := next[prev[ring[0]] := t][t := ring[0]], prev[t := prev[ring[0]]][ring[0] := t];
    }
    assert RingLinked(next', prev', rings'[p]);
    OthersLinked(next, prev, next', prev', v, p, t);
  }

  /** Pointers of other rings stay when only `t` and tasks of level `p` are rewritten. */
  lemma OthersLinked(next: map<int, int>, prev: map<int, int>, next': map<int, int>, prev': map<int, int>, v: View,
      p: int, t: int)
    requires Shape(v) && 0 <= p < LEVELS && (t in v.rings[p] || t !in v.priority)
    requires forall q :: 0 <= q < LEVELS ==> RingLinked(next, prev, v.rings[q])
    requires forall u :: u != t && u !in v.rings[p] && u in next ==> u in next' && next'[u] == next[u]
    requires forall u :: u != t && u !in v.rings[p] && u in prev ==> u in prev' && prev'[u] == prev[u]
    ensures forall q :: 0 <= q < LEVELS && q != p ==> RingLinked(next', prev', v.rings[q])
  {
  }

  lemma UnhookAllLinked(next: map<int, int>, prev: map<int, int>, start: seq<int>, v: View, t: int)
    requires Shape(v) && Linked(next, prev, start, v.rings) && Queued(v, t)
    ensures t in next && t in prev
    ensures var p := v.priority[t];
            var start' := if start[p] != t then start else start[p := if next[t] != t then next[t] else 0];
            Linked(next[prev[t] := next[t]], prev[next[t] := prev[t]], start', v.rings[p := Without(v.rings[p], t)])
  {
    var p := v.priority[t];
    var ring := v.rings[p];
    var k := IndexOf(ring, t);
    assert RingOk(ring, p, v.states, v.priority) && RingLinked(next, prev, ring);
    UnhookLinked(next, prev, ring, k, Without(ring, t));
    assert NextOn(ring, k) in ring && PrevOn(ring, k) in ring;
    var next', prev' := next[prev[t] := next[t]], prev[next[t] := prev[t]];
    OthersLinked(next, prev, next', prev', v, p, t);
    StartAfter(ring, k);
    var start' := if start[p] != t then start else start[p := if next[t] != t then next[t] else 0];
    RingsLinked(next', prev', start, start', v.rings, p, Without(ring, t));
  }

  /** Where a ring without its task at place `k` starts. */
  lemma StartAfter(ring: seq<int>, k: int)
    requires 0 <= k < |ring| && NoRepeats(ring) && 0 !in ring
    ensures StartOf(ring[..k] + ring[k + 1..]) ==
            if StartOf(ring) != ring[k] then StartOf(ring) else if NextOn(ring, k) != ring[k] then NextOn(ring, k) else 0
  {
    var ring' := ring[..k] + ring[k + 1..];
    if k == 0 {
      assert |ring| > 1 ==> ring'[0] == ring[1] && ring[0] != ring[1];
    } else {
      assert ring'[0] == ring[0] && ring[0] != ring[k];
    }
  }

  /** One ring relinked, the others as they were. */
  lemma RingsLinked(next: map<int, int>, prev: map<int, int>, start: seq<int>, start': seq<int>, rings: seq<seq<int>>,
      p: int, ring: seq<int>)
    requires |start| == |start'| == |rings| == LEVELS && 0 <= p < LEVELS && start'[p] == StartOf(ring) &&
        RingLinked(next, prev, ring)
    requires forall q :: 0 <= q < LEVELS && q != p ==>
        start'[q] == start[q] == StartOf(rings[q]) && RingLinked(next, prev, rings[q])
    ensures Linked(next, prev, start', rings[p := ring])
  {
  }

  /** Insert `t` into the ring of level `p`, before its start. */
  method HookIn(next: map<int, int>, prev: map<int, int>, start: seq<int>, t: int, p: int, ghost v: View)
    returns (next': map<int, int>, prev': map<int, int>, start': seq<int>)
    requires Shape(v) && Linked(next, prev, start, v.rings) && 0 <= p < LEVELS && t != 0 && t !in v.priority
    ensures Linked(next', prev', start', v.rings[p := v.rings[p] + [t]])
  {
    AppendAllLinked(next, prev, start, v, t, p);
    assert RingOk(v.rings[p], p, v.states, v.priority);
    var first := start[p];
    if first == 0 {
      start' := start[p := t];
      next', prev' := next[t := t], prev[t := t];
    } else {
      var last := prev[first];
      start' := start;
      next' := next[last := t][t := first];
      prev' := prev[t := last][first := t];
    }
  }

  /** Take `t` out of its ring and move the start off it. */
  method Unhook(next: map<int, int>, prev: map<int, int>, start: seq<int>, t: int, p: int, ghost v: View)
    returns (next': map<int, int>, prev': map<int, int>, start': seq<int>)
    requires Shape(v) && Linked(next, prev, start, v.rings) && Queued(v, t) && p == v.priority[t]
    ensures Linked(next', prev', start', v.rings[p := Without(v.rings[p], t)])
  {
    UnhookAllLinked(next, prev, start, v, t);
    start' := start;
    if start[p] == t && next[t] != t {
      start' := start[p := next[t]];
    } else if start[p] == t {
      start' := start[p := 0];
    }
    next', prev' := next[prev[t] := next[t]], prev[next[t] := prev[t]];
  }
}
