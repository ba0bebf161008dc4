/** `hash_map`: lookup, insertion with rehashing, and erasing, each against the finite map the chains hold. */
module HashTable {
  import opened HashChains

  // ----- lookup

  /** The walk that `at`, `erase` and `insert` share. */
  method FindNode<T>(chain: seq<Node<T>>, key: int) returns (found: bool, j: int)
    ensures found <==> HasKey(chain, key)
    ensures found ==> 0 <= j < |chain| && j == PlaceOf(chain, key)
  {
    j := 0;
    while j < |chain|
      invariant 0 <= j <= |chain|
      invariant forall l :: 0 <= l < j ==> chain[l].key != key
    {
      if chain[j].key == key {
        return true, j;
      }
      j := j + 1;
    }
    found := false;
  }

  /** What a chain holds under a key is what the map holds. */
  lemma ChainHolds<T>(t: Table<T>, m: map<int, T>, key: int)
    requires Rep(t, m) && 0 <= key
    ensures HasKey(ChainOf(t, key), key) <==> key in m
    ensures key in m ==> m[key] == ChainOf(t, key)[PlaceOf(ChainOf(t, key), key)].value
  {
    var i, chain := Bucket(key, t.bucketCount), ChainOf(t, key);
    if HasKey(chain, key) {
      var j := PlaceOf(chain, key);
      assert ChainOk(chain, i, t.bucketCount, m);
      assert InPlace(chain[j], i, j, t.bucketCount, m);
    }
  }

  /** `at`. */
  method At<T>(t: Table<T>, key: int, none: T, ghost m: map<int, T>) returns (v: T)
    requires Rep(t, m) && 0 <= key
    ensures v == if key in m then m[key] else none
  {
    ChainHolds(t, m, key);
    if t.size == 0 {
      assert key !in m;
      return none;
    }
    var chain := t.buckets[key % t.bucketCount];
    var found, j := FindNode(chain, key);
    if found {
      return chain[j].value;
    }
    v := none;
  }

  // ----- insertion

  lemma AppendChain<T>(chain: seq<Node<T>>, i: int, count: int, m: map<int, T>, key: int, value: T)
    requires 0 < count && ChainOk(chain, i, count, m) && key !in m && 0 <= key && Bucket(key, count) == i
    ensures ChainOk(chain + [Node(key, value, chain != [], false)], i, count, m[key := value])
  {
    var chain', m' := chain + [Node(key, value, chain != [], false)], m[key := value];
    forall j | 0 <= j < |chain'| ensures InPlace(chain'[j], i, j, count, m') {
      assert j < |chain| ==> InPlace(chain[j], i, j, count, m);
    }
    forall j, l | 0 <= j < l < |chain'| ensures chain'[j].key != chain'[l].key {
      assert InPlace(chain[j], i, j, count, m);
    }
  }

  lemma OtherChain<T>(chain: seq<Node<T>>, i: int, count: int, m: map<int, T>, key: int, value: T)
    requires 0 < count && ChainOk(chain, i, count, m) && key !in m
    ensures ChainOk(chain, i, count, m[key := value])
  {
    forall j | 0 <= j < |chain| ensures InPlace(chain[j], i, j, count, m[key := value]) {
      assert InPlace(chain[j], i, j, count, m);
    }
  }

  lemma StillThere<T>(chain: seq<Node<T>>, node: Node<T>, key: int)
    requires HasKey(chain, key)
    ensures HasKey(chain + [node], key)
  {
    var j :| 0 <= j < |chain| && chain[j].key == key;
    assert (chain + [node])[j].key == key;
  }

  /** Linking a new key adds exactly that binding. */
  lemma LinkNodeRep<T>(t: Table<T>, m: map<int, T>, key: int, value: T)
    requires Rep(t, m) && 0 <= key
    ensures key in m ==> LinkNode(t, key, value) == t
    ensures key !in m ==> Rep(LinkNode(t, key, value), m[key := value])
  {
    ChainHolds(t, m, key);
    if key !in m {
      var t', m', i := LinkNode(t, key, value), m[key := value], Bucket(key, t.bucketCount);
      AppendChain(t.buckets[i], i, t.bucketCount, m, key, value);
      forall h | 0 <= h < t.bucketCount ensures ChainOk(t'.buckets[h], h, t.bucketCount, m') {
        if h != i { OtherChain(t.buckets[h], h, t.bucketCount, m, key, value); }
      }
      forall k | k in m' ensures 0 <= k && HasKey(ChainOf(t', k), k) {
        if k == key {
          assert ChainOf(t', k)[|t.buckets[i]|].key == key;
        } else if Bucket(k, t.bucketCount) == i {
          StillThere(t.buckets[i], Node(key, value, t.buckets[i] != [], false), k);
        }
      }
    }
  }

  /** The part of `insert` before the load check. */
  method Link<T>(t: Table<T>, key: int, value: T) returns (t': Table<T>, inserted: bool)
    requires Shape(t)
    ensures t' == LinkNode(t, key, value) && (inserted <==> !HasKey(ChainOf(t, key), key))
  {
    var i := key % t.bucketCount;
    var found, j := FindNode(t.buckets[i], key);
    if found {
      return t, false;
    }
    t' := t.(buckets := t.buckets[i := t.buckets[i] + [Node(key, value, t.buckets[i] != [], false)]], size := t.size + 1);
    inserted := true;
  }

  // ----- rehashing

  lemma {:induction false} LinkAllShape<T>(t: Table<T>, nodes: seq<Node<T>>)
    requires Shape(t)
    ensures Shape(LinkAll(t, nodes)) && LinkAll(t, nodes).bucketCount == t.bucketCount
    decreases |nodes|
  {
    if nodes != [] {
      LinkAllShape(LinkNode(t, nodes[0].key, nodes[0].value), nodes[1..]);
    }
  }

  lemma {:induction false} LinkAllConcat<T>(t: Table<T>, a: seq<Node<T>>, b: seq<Node<T>>)
    requires Shape(t)
    ensures Shape(LinkAll(t, a)) && LinkAll(t, a + b) == LinkAll(LinkAll(t, a), b)
    decreases |a|
  {
    LinkAllShape(t, a);
    if a == [] {
      assert a + b == b;
    } else {
      assert (a + b)[1..] == a[1..] + b;
      LinkAllConcat(LinkNode(t, a[0].key, a[0].value), a[1..], b);
    }
  }

  /** One bucket of the old table, node by node. */
  method MoveChain<T>(chain: seq<Node<T>>, t: Table<T>) returns (t': Table<T>)
    requires Shape(t)
    ensures Shape(t') && t' == LinkAll(t, chain)
  {
    t' := t;
    var j := 0;
    assert chain[0..] == chain;
    while j < |chain|
      invariant 0 <= j <= |chain| && Shape(t') && LinkAll(t', chain[j..]) == LinkAll(t, chain)
    {
      assert chain[j..][1..] == chain[j + 1..];
      var inserted;
      t', inserted := Link(t', chain[j].key, chain[j].value);
      j := j + 1;
    }
  }

  /** `rehash`: every node of every chain is inserted into a table of `count` buckets. */
  method Rehash<T>(t: Table<T>, count: int) returns (t': Table<T>)
    requires Shape(t) && 0 < count
    ensures t' == Rehashed(t, count)
  {
    t' := Empty(count);
    var i := 0;
    while i < t.bucketCount
      invariant 0 <= i <= t.bucketCount && Shape(t') && LinkAll(t', NodesFrom(t, i)) == Rehashed(t, count)
    {
      LinkAllConcat(t', t.buckets[i], NodesFrom(t, i + 1));
      t' := MoveChain(t.buckets[i], t');
      i := i + 1;
    }
  }

  /** Nodes with distinct keys, each bound in `m` to its value. */
  ghost predicate Listed<T>(nodes: seq<Node<T>>, m: map<int, T>)
  {
    && (forall i :: 0 <= i < |nodes| ==> 0 <= nodes[i].key && nodes[i].key in m && m[nodes[i].key] == nodes[i].value)
    && forall i, j :: 0 <= i < j < |nodes| ==> nodes[i].key != nodes[j].key
  }

  /** A table holds a map whatever way the map is written. */
  lemma RepSame<T>(t: Table<T>, a: map<int, T>, b: map<int, T>)
    requires Rep(t, a)
    requires forall k :: k in a ==> k in b && b[k] == a[k]
    requires forall k :: k in b ==> k in a
    ensures Rep(t, b)
  {
    forall k: int ensures k in a <==> k in b { }
    assert a.Keys == b.Keys && |a.Keys| == |a| && |b.Keys| == |b|;
    forall i | 0 <= i < t.bucketCount ensures ChainOk(t.buckets[i], i, t.bucketCount, b) {
      assert ChainOk(t.buckets[i], i, t.bucketCount, a);
      forall j | 0 <= j < |t.buckets[i]| ensures InPlace(t.buckets[i][j], i, j, t.bucketCount, b) {
        assert InPlace(t.buckets[i][j], i, j, t.bucketCount, a);
      }
    }
  }

  /** Linking a list of nodes onto a table that holds the rest of the map. */
  lemma {:induction false} LinkAllRep<T>(t: Table<T>, m0: map<int, T>, nodes: seq<Node<T>>, m: map<int, T>)
    requires Rep(t, m0) && Listed(nodes, m)
    requires forall k :: k in m0 ==> k in m && m[k] == m0[k] && !HasKey(nodes, k)
    requires forall k :: k in m ==> k in m0 || HasKey(nodes, k)
    ensures Rep(LinkAll(t, nodes), m)
    decreases |nodes|
  {
    if nodes == [] {
      forall k | k in m ensures k in m0 {
        assert !HasKey(nodes, k);
      }
      RepSame(t, m0, m);
    } else {
      var node, rest := nodes[0], nodes[1..];
      assert HasKey(nodes, node.key);
      LinkNodeRep(t, m0, node.key, node.value);
      RestListed(nodes, m);
      LinkAllRep(LinkNode(t, node.key, node.value), m0[node.key := node.value], rest, m);
    }
  }

  lemma RestListed<T>(nodes: seq<Node<T>>, m: map<int, T>)
    requires Listed(nodes, m) && nodes != []
    ensures Listed(nodes[1..], m)
    ensures forall k :: HasKey(nodes, k) <==> k == nodes[0].key || HasKey(nodes[1..], k)
    ensures !HasKey(nodes[1..], nodes[0].key)
  {
    var rest := nodes[1..];
    assert forall i :: 0 <= i < |rest| ==> rest[i] == nodes[i + 1];
    forall k ensures HasKey(nodes, k) <==> k == nodes[0].key || HasKey(rest, k) {
      if HasKey(nodes, k) {
        var j := PlaceOf(nodes, k);
        assert j > 0 ==> rest[j - 1].key == k;
      }
      if HasKey(rest, k) {
        assert nodes[PlaceOf(rest, k) + 1].key == k;
      }
    }
  }

  /** The nodes of a table, bucket after bucket, are its map. */
  lemma {:induction false} NodesListed<T>(t: Table<T>, m: map<int, T>, i: int)
    requires Rep(t, m) && 0 <= i <= t.bucketCount
    ensures Listed(NodesFrom(t, i), m)
    ensures forall k :: HasKey(NodesFrom(t, i), k) <==> k in m && Bucket(k, t.bucketCount) >= i
    decreases t.bucketCount - i
  {
    if i < t.bucketCount {
      NodesListed(t, m, i + 1);
      var a, b := t.buckets[i], NodesFrom(t, i + 1);
      assert ChainOk(a, i, t.bucketCount, m);
      forall k ensures HasKey(a + b, k) <==> HasKey(a, k) || HasKey(b, k) {
        HasKeyConcat(a, b, k);
      }
      forall k ensures HasKey(a, k) <==> k in m && Bucket(k, t.bucketCount) == i {
        InBucket(t, m, i, k);
      }
      forall x | 0 <= x < |a| ensures 0 <= a[x].key && a[x].key in m && m[a[x].key] == a[x].value && HasKey(a, a[x].key) {
        assert InPlace(a[x], i, x, t.bucketCount, m);
      }
      forall y | 0 <= y < |b| ensures HasKey(b, b[y].key) { }
    } else {
      forall k | k in m ensures Bucket(k, t.bucketCount) < i { }
    }
  }

  lemma InBucket<T>(t: Table<T>, m: map<int, T>, i: int, k: int)
    requires Rep(t, m) && 0 <= i < t.bucketCount
    ensures HasKey(t.buckets[i], k) <==> k in m && Bucket(k, t.bucketCount) == i
  {
    var a := t.buckets[i];
    if HasKey(a, k) {
      var x := PlaceOf(a, k);
      assert ChainOk(a, i, t.bucketCount, m);
      assert InPlace(a[x], i, x, t.bucketCount, m);
    }
    assert k in m ==> HasKey(ChainOf(t, k), k);
  }

  lemma HasKeyConcat<T>(a: seq<Node<T>>, b: seq<Node<T>>, k: int)
    ensures HasKey(a + b, k) <==> HasKey(a, k) || HasKey(b, k)
  {
    if HasKey(a, k) { assert (a + b)[PlaceOf(a, k)].key == k; }
    if HasKey(b, k) { assert (a + b)[|a| + PlaceOf(b, k)].key == k; }
    if HasKey(a + b, k) {
      var j := PlaceOf(a + b, k);
      assert j < |a| ==> a[j].key == k;
      assert j >= |a| ==> b[j - |a|].key == k;
    }
  }

  lemma EmptyRep<T>(count: int)
    requires 0 < count
    ensures Rep(Empty<T>(count), map[]) && Tidy(Empty<T>(count)) && Apart(Empty<T>(count))
  {
  }

  /** Rehashing to any number of buckets keeps the map. */
  lemma RehashedRep<T>(t: Table<T>, m: map<int, T>, count: int)
    requires Rep(t, m) && 0 < count
    ensures Rep(Rehashed(t, count), m) && Rehashed(t, count).bucketCount == count
  {
    EmptyRep<T>(count);
    NodesListed(t, m, 0);
    LinkAllRep(Empty<T>(count), map[], NodesFrom(t, 0), m);
    LinkAllShape(Empty<T>(count), NodesFrom(t, 0));
  }

  lemma {:induction false} LinkAllTidy<T>(t: Table<T>, nodes: seq<Node<T>>)
    requires Tidy(t)
    ensures Tidy(LinkAll(t, nodes))
    decreases |nodes|
  {
    if nodes != [] {
      LinkAllTidy(LinkNode(t, nodes[0].key, nodes[0].value), nodes[1..]);
    }
  }

  /** A rehash separates keys that have a bucket each. */
  lemma RehashedApart<T>(t: Table<T>, m: map<int, T>, count: int)
    requires Rep(t, m) && 0 < count && Spread(m, count)
    ensures Apart(Rehashed(t, count))
  {
    var t' := Rehashed(t, count);
    RehashedRep(t, m, count);
    EmptyRep<T>(count);
    LinkAllTidy(Empty<T>(count), NodesFrom(t, 0));
    forall i | 0 <= i < count ensures |t'.buckets[i]| <= 1 && (t'.buckets[i] != [] ==> !t'.buckets[i][0].hasPrev) {
      if |t'.buckets[i]| > 1 { ShareBucket(t'.buckets[i], i, count, m); }
    }
  }

  /** Two nodes on one chain are two keys that share a bucket. */
  lemma ShareBucket<T>(chain: seq<Node<T>>, i: int, count: int, m: map<int, T>)
    requires 0 < count && ChainOk(chain, i, count, m) && |chain| > 1
    ensures !Spread(m, count)
  {
    assert chain[0].key != chain[1].key && InPlace(chain[0], i, 0, count, m) && InPlace(chain[1], i, 1, count, m);
  }

  /** `insert` adds exactly a new binding. */
  lemma InsertedRep<T>(t: Table<T>, m: map<int, T>, key: int, value: T)
    requires Rep(t, m) && 0 <= key
    ensures key in m ==> Inserted(t, key, value) == t
    ensures key !in m ==> Rep(Inserted(t, key, value), m[key := value])
    ensures key !in m ==> Inserted(t, key, value).bucketCount == if t.size + 1 > t.bucketCount then t.bucketCount * 2 else t.bucketCount
  {
    LinkNodeRep(t, m, key, value);
    var t1 := LinkNode(t, key, value);
    if key !in m && t1.size > t.bucketCount {
      RehashedRep(t1, m[key := value], t.bucketCount * 2);
    }
  }

  method Insert<T>(t: Table<T>, key: int, value: T, ghost m: map<int, T>) returns (t': Table<T>, inserted: bool)
    requires Rep(t, m) && 0 <= key
    ensures t' == Inserted(t, key, value)
    ensures inserted <==> key !in m
    ensures inserted ==> Rep(t', m[key := value])
    ensures inserted ==> t'.bucketCount == if t.size + 1 > t.bucketCount then t.bucketCount * 2 else t.bucketCount
    ensures !inserted ==> t' == t
  {
    ChainHolds(t, m, key);
    InsertedRep(t, m, key, value);
    t', inserted := Link(t, key, value);
    if inserted && t'.size > t'.bucketCount {
      t' := Rehash(t', t'.bucketCount * 2);
    }
  }

  /** A key linked to an empty bucket of a table whose chains are apart leaves them apart, and never makes it grow. */
  lemma InsertedApart<T>(t: Table<T>, m: map<int, T>, key: int, value: T)
    requires Rep(t, m) && Apart(t) && 0 <= key && ChainOf(t, key) == []
    requires t.size + 1 <= t.bucketCount
    ensures Apart(Inserted(t, key, value)) && Inserted(t, key, value) == LinkNode(t, key, value)
  {
  }

  // ----- erasing

  /** Where a node without a back pointer is: nowhere but first. */
  lemma NoBackIsFirst<T>(t: Table<T>, m: map<int, T>, key: int)
    requires Rep(t, m) && key in m && !HasBack(t, key)
    ensures PlaceOf(ChainOf(t, key), key) == 0
  {
    var i, chain := Bucket(key, t.bucketCount), ChainOf(t, key);
    var j := PlaceOf(chain, key);
    assert ChainOk(chain, i, t.bucketCount, m) && HasKey(chain, key);
    assert InPlace(chain[j], i, j, t.bucketCount, m);
  }

  lemma DropFirst<T>(chain: seq<Node<T>>, i: int, count: int, m: map<int, T>)
    requires 0 < count && ChainOk(chain, i, count, m) && chain != []
    ensures ChainOk(chain[1..], i, count, m - {chain[0].key})
  {
    var rest := chain[1..];
    forall j | 0 <= j < |rest| ensures InPlace(rest[j], i, j, count, m - {chain[0].key}) {
      assert InPlace(chain[j + 1], i, j + 1, count, m) && chain[0].key != chain[j + 1].key;
    }
    assert forall j :: 0 <= j < |rest| ==> rest[j] == chain[j + 1];
  }

  lemma WithoutOther<T>(chain: seq<Node<T>>, i: int, count: int, m: map<int, T>, key: int)
    requires 0 < count && ChainOk(chain, i, count, m) && Bucket(key, count) != i
    ensures ChainOk(chain, i, count, m - {key})
  {
    forall j | 0 <= j < |chain| ensures InPlace(chain[j], i, j, count, m - {key}) {
      assert InPlace(chain[j], i, j, count, m);
    }
  }

  /** Without a back pointer exactly the key leaves the map. */
  lemma ErasedRep<T>(t: Table<T>, m: map<int, T>, key: int)
    requires Rep(t, m) && key in m && !HasBack(t, key)
    ensures Rep(Erased(t, key), m - {key}) && Erased(t, key).bucketCount == t.bucketCount
  {
    var i, chain, m', t' := Bucket(key, t.bucketCount), ChainOf(t, key), m - {key}, Erased(t, key);
    assert HasKey(chain, key) && ChainOk(chain, i, t.bucketCount, m);
    NoBackIsFirst(t, m, key);
    assert m'.Keys == m.Keys - {key} && |m'.Keys| == |m'| && |m.Keys| == |m|;
    DropFirst(chain, i, t.bucketCount, m);
    forall h | 0 <= h < t.bucketCount ensures ChainOk(t'.buckets[h], h, t.bucketCount, m') {
      if h != i { WithoutOther(t.buckets[h], h, t.bucketCount, m, key); }
    }
    forall k | k in m' ensures 0 <= k && HasKey(ChainOf(t', k), k) {
      assert HasKey(ChainOf(t, k), k);
      if Bucket(k, t.bucketCount) == i {
        assert chain[1..][PlaceOf(chain, k) - 1].key == k;
      }
    }
  }

  /** With one, the freed node stays on its chain, and the table holds no map any more. */
  lemma ErasedDangles<T>(t: Table<T>, m: map<int, T>, key: int, m': map<int, T>)
    requires Rep(t, m) && key in m && HasBack(t, key)
    ensures HasKey(ChainOf(Erased(t, key), key), key) && !Rep(Erased(t, key), m')
  {
    var i, chain, t' := Bucket(key, t.bucketCount), ChainOf(t, key), Erased(t, key);
    var j := PlaceOf(chain, key);
    assert t'.buckets[i][j].key == key && t'.buckets[i][j].freed;
    FreedHoldsNoMap(t', i, j, m');
  }

  lemma FreedHoldsNoMap<T>(t: Table<T>, i: int, j: int, m: map<int, T>)
    requires Shape(t) && 0 <= i < t.bucketCount && 0 <= j < |t.buckets[i]| && t.buckets[i][j].freed
    ensures !Rep(t, m)
  {
    assert !InPlace(t.buckets[i][j], i, j, t.bucketCount, m);
    assert !ChainOk(t.buckets[i], i, t.bucketCount, m);
  }

  /**
   `erase` of any key: refused without one, done without a back pointer, and otherwise the node is freed on its chain.
   */
  method Erase<T>(t: Table<T>, key: int, ghost m: map<int, T>) returns (t': Table<T>, erased: bool)
    requires Rep(t, m) && 0 <= key
    ensures t' == Erased(t, key)
    ensures erased <==> key in m
    ensures !erased ==> t' == t
    ensures erased ==> (Rep(t', m - {key}) <==> !HasBack(t, key))
    ensures t'.bucketCount == t.bucketCount
  {
    ChainHolds(t, m, key);
    if t.size == 0 {
      assert key !in m;
      return t, false;
    }
    var i := key % t.bucketCount;
    var found, j := FindNode(t.buckets[i], key);
    if !found {
      return t, false;
    }
    if !HasBack(t, key) {
      ErasedRep(t, m, key);
    } else {
      ErasedDangles(t, m, key, m - {key});
    }
    t' := t.(buckets := t.buckets[i := Unlinked(t.buckets[i], j)], size := t.size - 1);
    erased := true;
  }

  lemma ErasedApart<T>(t: Table<T>, m: map<int, T>, key: int)
    requires Rep(t, m) && Apart(t) && 0 <= key
    ensures !HasBack(t, key) && Apart(Erased(t, key))
  {
  }

  // ----- runs

  datatype Op<T> = Put(key: int, value: T) | Del(key: int)

  function Step<T>(t: Table<T>, op: Op<T>): Table<T>
    requires Shape(t)
  {
    match op
    case Put(key, value) => Inserted(t, key, value)
    case Del(key) => Erased(t, key)
  }

  /** What the same operation does to a finite map. */
  function MapStep<T>(m: map<int, T>, op: Op<T>): map<int, T>
  {
    match op
    case Put(key, value) => if key in m then m else m[key := value]
    case Del(key) => m - {key}
  }

  /** The erase of a key in the table finds its back pointer unset. */
  predicate Safe<T>(t: Table<T>, op: Op<T>)
    requires Shape(t)
  {
    op.Del? ==> !HasBack(t, op.key)
  }

  lemma StepShape<T>(t: Table<T>, op: Op<T>)
    requires Shape(t)
    ensures Shape(Step(t, op))
  {
    if op.Put? {
      LinkAllShape(Empty<T>(t.bucketCount * 2), NodesFrom(LinkNode(t, op.key, op.value), 0));
    }
  }

  predicate SafeRun<T>(t: Table<T>, ops: seq<Op<T>>)
    requires Shape(t)
    decreases |ops|
  {
    if ops == [] then true
    else
      StepShape(t, ops[0]);
      Safe(t, ops[0]) && SafeRun(Step(t, ops[0]), ops[1..])
  }

  /** After every operation of the run the table holds the map the run should have made. */
  ghost predicate Refines<T>(t: Table<T>, m: map<int, T>, ops: seq<Op<T>>)
    requires Shape(t)
    decreases |ops|
  {
    && Rep(t, m)
    && (ops == [] || (StepShape(t, ops[0]); Refines(Step(t, ops[0]), MapStep(m, ops[0]), ops[1..])))
  }

  lemma StepRefinesIff<T>(t: Table<T>, m: map<int, T>, op: Op<T>)
    requires Rep(t, m) && 0 <= op.key
    ensures Rep(Step(t, op), MapStep(m, op)) <==> Safe(t, op)
  {
    match op
    case Put(key, value) => InsertedRep(t, m, key, value);
    case Del(key) =>
      ChainHolds(t, m, key);
      if key !in m {
        assert m - {key} == m;
      } else if HasBack(t, key) {
        ErasedDangles(t, m, key, m - {key});
      } else {
        ErasedRep(t, m, key);
      }
  }

  /** Over any run of inserts and erases the table is the finite map exactly when no erase met a back pointer. */
  lemma {:induction false} RunRefinesIff<T>(t: Table<T>, m: map<int, T>, ops: seq<Op<T>>)
    requires Rep(t, m) && forall i :: 0 <= i < |ops| ==> 0 <= ops[i].key
    ensures Refines(t, m, ops) <==> SafeRun(t, ops)
    decreases |ops|
  {
    if ops != [] {
      StepRefinesIff(t, m, ops[0]);
      StepShape(t, ops[0]);
      if Safe(t, ops[0]) {
        RunRefinesIff(Step(t, ops[0]), MapStep(m, ops[0]), ops[1..]);
      } else {
        assert !Rep(Step(t, ops[0]), MapStep(m, ops[0]));
      }
    }
  }

  /** Who gets a back pointer: a key linked to a bucket that was not empty. Linking it changes nobody else's. */
  lemma LinkSetsBack<T>(t: Table<T>, m: map<int, T>, key: int, value: T, other: int)
    requires Rep(t, m) && 0 <= key && key !in m
    ensures HasBack(LinkNode(t, key, value), other) <==> if other == key then ChainOf(t, key) != [] else HasBack(t, other)
  {
    ChainHolds(t, m, key);
    var chain, node := ChainOf(t, key), Node(key, value, ChainOf(t, key) != [], false);
    PlaceAfterAppend(chain, node, other);
  }

  lemma PlaceAfterAppend<T>(chain: seq<Node<T>>, node: Node<T>, key: int)
    ensures PlaceOf(chain + [node], key) == if HasKey(chain, key) then PlaceOf(chain, key) else if node.key == key then |chain| else |chain| + 1
  {
    var c := chain + [node];
    assert c[|chain|] == node && forall l :: 0 <= l < |chain| ==> c[l] == chain[l];
  }

  /** Erasing a key clears nobody's back pointer: the next node on the chain keeps the one it had. */
  lemma EraseKeepsBack<T>(t: Table<T>, m: map<int, T>, key: int, other: int)
    requires Rep(t, m) && key in m && !HasBack(t, key) && other != key
    ensures HasBack(Erased(t, key), other) <==> HasBack(t, other)
  {
    var chain := ChainOf(t, key);
    assert HasKey(chain, key);
    NoBackIsFirst(t, m, key);
    var rest := chain[1..];
    assert forall l :: 0 <= l < |rest| ==> rest[l] == chain[l + 1];
    if HasKey(chain, other) {
      assert rest[PlaceOf(chain, other) - 1].key == other;
    }
    if HasKey(rest, other) {
      assert chain[PlaceOf(rest, other) + 1].key == other;
    }
  }

  // ----- keys that never share a bucket

  lemma {:induction false} ResiduesFit(keys: set<int>, count: int, n: int)
    requires 0 < count && 0 <= n
    requires forall k :: k in keys ==> 0 <= Bucket(k, count) < n
    requires forall k, l :: k in keys && l in keys && k != l ==> Bucket(k, count) != Bucket(l, count)
    ensures |keys| <= n
    decreases n
  {
    if n == 0 {
      forall k ensures k !in keys { }
      assert keys == {};
    } else if exists k :: k in keys && Bucket(k, count) == n - 1 {
      var k :| k in keys && Bucket(k, count) == n - 1;
      ResiduesFit(keys - {k}, count, n - 1);
    } else {
      ResiduesFit(keys, count, n - 1);
    }
  }

  /** Keys with a bucket each are no more than the buckets. */
  lemma SpreadFits<T>(m: map<int, T>, count: int)
    requires 0 < count && Spread(m, count)
    ensures |m| <= count
  {
    ResiduesFit(m.Keys, count, count);
    assert |m.Keys| == |m|;
  }

  /** As long as no two keys share a bucket the chains stay apart. */
  lemma SpreadStep<T>(t: Table<T>, m: map<int, T>, op: Op<T>)
    requires Rep(t, m) && Apart(t) && 0 <= op.key && Spread(MapStep(m, op), t.bucketCount)
    ensures Safe(t, op) && Apart(Step(t, op)) && Rep(Step(t, op), MapStep(m, op)) &&
        Step(t, op).bucketCount == t.bucketCount
  {
    match op
    case Put(key, value) =>
      InsertedRep(t, m, key, value);
      if key !in m {
        SpreadFits(m[key := value], t.bucketCount);
        forall k ensures !HasKey(ChainOf(t, key), k) {
          InBucket(t, m, Bucket(key, t.bucketCount), k);
          assert k in m ==> k in m[key := value] && key in m[key := value];
        }
        NoKeysEmpty(ChainOf(t, key));
        InsertedApart(t, m, key, value);
      }
    case Del(key) =>
      ErasedApart(t, m, key);
      StepRefinesIff(t, m, op);
  }

  lemma NoKeysEmpty<T>(chain: seq<Node<T>>)
    requires forall k :: !HasKey(chain, k)
    ensures chain == []
  {
    assert chain != [] ==> HasKey(chain, chain[0].key);
  }

  /** Keys 0 and 16 in 16 buckets: the second node has its back pointer set, and keeps it when the first goes. */
  lemma CollidingNodes(a: int, b: int)
    ensures var t := Inserted(Inserted(Empty<int>(16), 0, a), 16, b);
            && Shape(t) && HasBack(t, 16) && !HasBack(t, 0)
            && Shape(Erased(t, 0)) && HasBack(Erased(t, 0), 16)
  {
    var t0 := Empty<int>(16);
    var t1 := Inserted(t0, 0, a);
    assert t0.buckets[0] == [] && Bucket(0, 16) == 0 && Bucket(16, 16) == 0;
    assert t1.buckets[0] == [Node(0, a, false, false)] && t1.size == 1;
    assert !HasKey(t1.buckets[0], 16);
    var t := Inserted(t1, 16, b);
    assert t.buckets[0] == [Node(0, a, false, false), Node(16, b, true, false)] && t.size == 2;
    assert t.buckets[0][0].key == 0 && PlaceOf(t.buckets[0], 0) == 0;
    assert t.buckets[0][1].key == 16 && PlaceOf(t.buckets[0], 16) == 1;
    var t' := Erased(t, 0);
    assert t'.buckets[0] == [Node(16, b, true, false)];
    assert t'.buckets[0][0].key == 16 && PlaceOf(t'.buckets[0], 16) == 0;
  }

  /**
   In sixteen buckets keys 0 and 16 collide: erasing 16 leaves its freed node, whether or not 0 was erased before it.
   */
  lemma CollidingErases(a: int, b: int)
    ensures var t0 := Empty<int>(16);
            && Shape(t0)
            && !SafeRun(t0, [Put(0, a), Put(16, b), Del(16)])
            && !SafeRun(t0, [Put(0, a), Put(16, b), Del(0), Del(16)])
  {
    CollidingNodes(a, b);
    var t := Inserted(Inserted(Empty<int>(16), 0, a), 16, b);
    var ops, ops' := [Put(0, a), Put(16, b), Del(16)], [Put(0, a), Put(16, b), Del(0), Del(16)];
    assert ops[1..] == [Put(16, b), Del(16)] && ops[1..][1..] == [Del(16)];
    assert ops'[1..] == [Put(16, b), Del(0), Del(16)] && ops'[1..][1..] == [Del(0), Del(16)] &&
        ops'[1..][1..][1..] == [Del(16)];
    assert !SafeRun(t, [Del(16)]) && !SafeRun(Erased(t, 0), [Del(16)]);
    assert !SafeRun(t, [Del(0), Del(16)]);
  }
}
