/** The sorted doubly linked list of `node.h`, as the deleted-keys list uses it. */
module KeyList {

  datatype Link = Link(value: int, prev: int, next: int)

  type Nodes = map<int, Link>

  function PrevIn(addrs: seq<int>, i: int): int { if 0 < i <= |addrs| then addrs[i - 1] else 0 }

  function NextIn(addrs: seq<int>, i: int): int { if -1 <= i < |addrs| - 1 then addrs[i + 1] else 0 }

  /** The node at place `i` is there and points both ways. */
  predicate NodeOk(heap: Nodes, addrs: seq<int>, i: int)
    requires 0 <= i < |addrs|
  {
    addrs[i] != 0 && addrs[i] in heap && heap[addrs[i]].prev == PrevIn(addrs, i) &&
        heap[addrs[i]].next == NextIn(addrs, i)
  }

  predicate Distinct(addrs: seq<int>)
  {
    forall i, j :: 0 <= i < j < |addrs| ==> addrs[i] != addrs[j]
  }

  /** From `head` the pointers spell the addresses `addrs`. */
  predicate Spells(heap: Nodes, head: int, addrs: seq<int>)
  {
    && head == NextIn(addrs, -1) && Distinct(addrs)
    && forall i {:trigger NodeOk(heap, addrs, i)} :: 0 <= i < |addrs| ==> NodeOk(heap, addrs, i)
  }

  /** The values along the list. */
  predicate Holds(heap: Nodes, addrs: seq<int>, keys: seq<int>)
  {
    |keys| == |addrs| && forall i :: 0 <= i < |addrs| ==> addrs[i] in heap && heap[addrs[i]].value == keys[i]
  }

  predicate Ascending(keys: seq<int>)
  {
    forall i, j :: 0 <= i < j < |keys| ==> keys[i] < keys[j]
  }

  function Inserted<A>(s: seq<A>, k: int, x: A): seq<A>
    requires 0 <= k <= |s|
  {
    s[..k] + [x] + s[k..]
  }

  /** The heap once node `a` is linked in at place `k`. */
  function Linked(heap: Nodes, addrs: seq<int>, k: int, a: int, v: int): Nodes
    requires 0 <= k <= |addrs| && (k > 0 ==> addrs[k - 1] in heap) && (k < |addrs| ==> addrs[k] in heap)
  {
    var h := heap[a := Link(v, PrevIn(addrs, k), NextIn(addrs, k - 1))];
    var h1 := if k > 0 then h[addrs[k - 1] := h[addrs[k - 1]].(next := a)] else h;
    if k < |addrs| then h1[addrs[k] := h1[addrs[k]].(prev := a)] else h1
  }

  lemma LinkedOk(heap: Nodes, head: int, addrs: seq<int>, keys: seq<int>, k: int, a: int, v: int)
    requires Spells(heap, head, addrs) && Holds(heap, addrs, keys) && 0 <= k <= |addrs| && a != 0 && a !in addrs
    requires (k > 0 ==> addrs[k - 1] in heap) && (k < |addrs| ==> addrs[k] in heap)
    ensures Spells(Linked(heap, addrs, k, a, v), if k == 0 then a else head, Inserted(addrs, k, a))
    ensures Holds(Linked(heap, addrs, k, a, v), Inserted(addrs, k, a), Inserted(keys, k, v))
  {
    var heap', addrs' := Linked(heap, addrs, k, a, v), Inserted(addrs, k, a);
    forall i | 0 <= i < |addrs'| ensures NodeOk(heap', addrs', i) {
      if i < k {
        assert NodeOk(heap, addrs, i);
      } else if i > k {
        assert NodeOk(heap, addrs, i - 1);
      }
    }
  }

  lemma InsertedAscends(keys: seq<int>, k: int, v: int)
    requires Ascending(keys) && 0 <= k <= |keys| && (k > 0 ==> keys[k - 1] < v) && (k < |keys| ==> v < keys[k])
    ensures Ascending(Inserted(keys, k, v))
  {
    forall i | 0 <= i < k ensures keys[i] < v { }
    forall i | k <= i < |keys| ensures v < keys[i] { }
  }

  /** `node::insert`: the walk stops before the first larger value, and the new node goes there. */
  method Insert(heap: Nodes, head: int, a: int, v: int, ghost addrs: seq<int>, ghost keys: seq<int>)
    returns (heap': Nodes, head': int, ghost addrs': seq<int>, ghost keys': seq<int>)
    requires Spells(heap, head, addrs) && Holds(heap, addrs, keys) && Ascending(keys) && addrs != [] && v !in keys
    requires a != 0 && a !in heap
    ensures Spells(heap', head', addrs') && Holds(heap', addrs', keys') && Ascending(keys')
    ensures forall x :: x in keys' <==> x == v || x in keys
    ensures heap'.Keys == heap.Keys + {a}
  {
    assert NodeOk(heap, addrs, 0);
    ghost var i := 0;
    if v < heap[head].value {
      heap' := heap[a := Link(v, 0, head)];
      heap' := heap'[head := heap'[head].(prev := a)];
      head' := a;
    } else {
      var cur := head;
      while heap[cur].next != 0 && heap[heap[cur].next].value < v
        invariant 0 <= i < |addrs| && cur == addrs[i] && keys[i] < v
        invariant NodeOk(heap, addrs, i) && (i + 1 < |addrs| ==> NodeOk(heap, addrs, i + 1))
        decreases |addrs| - i
      {
        cur := heap[cur].next;
        i := i + 1;
        assert i + 1 < |addrs| ==> NodeOk(heap, addrs, i + 1);
      }
      i := i + 1;
      var after := heap[cur].next;
      heap' := heap[a := Link(v, cur, after)];
      heap' := heap'[cur := heap'[cur].(next := a)];
      if after != 0 {
        heap' := heap'[after := heap'[after].(prev := a)];
      }
      head' := head;
    }
    addrs', keys' := Inserted(addrs, i, a), Inserted(keys, i, v);
    assert a !in addrs;
    LinkedOk(heap, head, addrs, keys, i, a, v);
    InsertedAscends(keys, i, v);
  }

  /** `node::remove` on the head itself, and its deletion. */
  method RemoveHead(heap: Nodes, head: int, ghost addrs: seq<int>, ghost keys: seq<int>)
    returns (heap': Nodes, head': int)
    requires Spells(heap, head, addrs) && Holds(heap, addrs, keys) && addrs != []
    ensures Spells(heap', head', addrs[1..]) && Holds(heap', addrs[1..], keys[1..])
    ensures heap'.Keys == heap.Keys - {head}
  {
    assert NodeOk(heap, addrs, 0);
    heap', head' := heap, heap[head].next;
    if head' != 0 {
      assert NodeOk(heap, addrs, 1);
      heap' := heap'[head' := heap'[head'].(prev := heap'[head].prev)];
    }
    heap' := heap' - {head};
    forall i | 0 <= i < |addrs[1..]| ensures NodeOk(heap', addrs[1..], i) {
      assert NodeOk(heap, addrs, i + 1);
    }
  }
}
