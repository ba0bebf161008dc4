/**
 The bucket chains of `hash_map` with the identity hash, what each operation does to them, and the finite map they
 hold.
 */
module HashChains {

  /**
   `hasPrev` is whether the node's back pointer is set; nothing ever clears one. `freed` marks a node that was deleted
   while its chain still leads to it.
   */
  datatype Node<T> = Node(key: int, value: T, hasPrev: bool, freed: bool)

  datatype Table<T> = Table(bucketCount: int, buckets: seq<seq<Node<T>>>, size: int)

  predicate Shape<T>(t: Table<T>)
  {
    0 < t.bucketCount == |t.buckets|
  }

  function Bucket(key: int, count: int): int
    requires 0 < count
  {
    key % count
  }

  /** The chain key `key` would be on. */
  function ChainOf<T>(t: Table<T>, key: int): seq<Node<T>>
    requires Shape(t)
  {
    t.buckets[Bucket(key, t.bucketCount)]
  }

  predicate HasKey<T>(chain: seq<Node<T>>, key: int)
  {
    exists j :: 0 <= j < |chain| && chain[j].key == key
  }

  /** The first place of a key on a chain, or the length. */
  function PlaceOf<T>(chain: seq<Node<T>>, key: int): (j: int)
    ensures 0 <= j <= |chain| && (j < |chain| <==> HasKey(chain, key))
    ensures (j < |chain| ==> chain[j].key == key) && forall l :: 0 <= l < j ==> chain[l].key != key
  {
    if chain == [] then 0
    else if chain[0].key == key then 0
    else
      assert forall l :: 0 <= l < |chain[1..]| ==> chain[1..][l] == chain[l + 1];
      assert forall l :: 1 <= l < |chain| ==> chain[l] == chain[1..][l - 1];
      1 + PlaceOf(chain[1..], key)
  }

  // ----- the operations

  function Empty<T>(count: int): Table<T>
    requires 0 < count
  {
    Table(count, seq(count, i => []), 0)
  }

  /** A new key goes to the end of its chain; its back pointer is set unless the chain was empty. */
  function LinkNode<T>(t: Table<T>, key: int, value: T): Table<T>
    requires Shape(t)
  {
    var i, chain := Bucket(key, t.bucketCount), ChainOf(t, key);
    if HasKey(chain, key) then t
    else t.(buckets := t.buckets[i := chain + [Node(key, value, chain != [], false)]], size := t.size + 1)
  }

  /** The nodes of the buckets from `i` on, chain after chain. */
  function NodesFrom<T>(t: Table<T>, i: int): seq<Node<T>>
    decreases |t.buckets| - i
  {
    if 0 <= i < |t.buckets| then t.buckets[i] + NodesFrom(t, i + 1) else []
  }

  function LinkAll<T>(t: Table<T>, nodes: seq<Node<T>>): Table<T>
    requires Shape(t)
    decreases |nodes|
  {
    if nodes == [] then t else LinkAll(LinkNode(t, nodes[0].key, nodes[0].value), nodes[1..])
  }

  function Rehashed<T>(t: Table<T>, count: int): Table<T>
    requires 0 < count
  {
    LinkAll(Empty(count), NodesFrom(t, 0))
  }

  /** `insert`: the load limit is one node per bucket. */
  function Inserted<T>(t: Table<T>, key: int, value: T): Table<T>
    requires Shape(t)
  {
    var t1 := LinkNode(t, key, value);
    if t1.size > t.size && t1.size > t.bucketCount then Rehashed(t1, t.bucketCount * 2) else t1
  }

  /** `erase` on one chain: a node without a back pointer is unlinked, any other is freed where it is. */
  function Unlinked<T>(chain: seq<Node<T>>, j: int): seq<Node<T>>
    requires 0 <= j < |chain|
  {
    if !chain[j].hasPrev then chain[j + 1..] else chain[j := chain[j].(freed := true)]
  }

  function Erased<T>(t: Table<T>, key: int): Table<T>
    requires Shape(t)
  {
    var i, chain := Bucket(key, t.bucketCount), ChainOf(t, key);
    if t.size == 0 || !HasKey(chain, key) then t
    else t.(buckets := t.buckets[i := Unlinked(chain, PlaceOf(chain, key))], size := t.size - 1)
  }

  // ----- the finite map

  /**
   The node at place `j` of bucket `i` belongs there and holds what the map holds. Past the first place the back pointer
   is set; at the first place it may be.
   */
  ghost predicate InPlace<T>(node: Node<T>, i: int, j: int, count: int, m: map<int, T>)
    requires 0 < count
  {
    && 0 <= node.key && Bucket(node.key, count) == i
    && node.key in m && m[node.key] == node.value
    && !node.freed && (j > 0 ==> node.hasPrev)
  }

  ghost predicate ChainOk<T>(chain: seq<Node<T>>, i: int, count: int, m: map<int, T>)
    requires 0 < count
  {
    && (forall j :: 0 <= j < |chain| ==> InPlace(chain[j], i, j, count, m))
    && (forall j, l :: 0 <= j < l < |chain| ==> chain[j].key != chain[l].key)
  }

  /** The table holds exactly the finite map `m`, in memory that was not freed. */
  ghost predicate Rep<T>(t: Table<T>, m: map<int, T>)
  {
    && Shape(t)
    && (forall i :: 0 <= i < t.bucketCount ==> ChainOk(t.buckets[i], i, t.bucketCount, m))
    && (forall k :: k in m ==> 0 <= k && HasKey(ChainOf(t, k), k))
    && t.size == |m|
  }

  /** The node of `key` has its back pointer set. */
  predicate HasBack<T>(t: Table<T>, key: int)
    requires Shape(t)
  {
    var chain := ChainOf(t, key);
    HasKey(chain, key) && chain[PlaceOf(chain, key)].hasPrev
  }

  /** No chain has ever had two nodes: at most one each, without a back pointer. */
  predicate Apart<T>(t: Table<T>)
  {
    Shape(t) && forall i :: 0 <= i < t.bucketCount ==> |t.buckets[i]| <= 1 && (t.buckets[i] != [] ==> !t.buckets[i][0].hasPrev)
  }

  /** No node of the table was ever unlinked: back pointers are set exactly past the first place. */
  predicate Tidy<T>(t: Table<T>)
  {
    Shape(t) && forall i, j :: 0 <= i < t.bucketCount && 0 <= j < |t.buckets[i]| ==> (t.buckets[i][j].hasPrev <==> j > 0)
  }

  /** No two keys of the map share a bucket. */
  ghost predicate Spread<T>(m: map<int, T>, count: int)
    requires 0 < count
  {
    forall k, l :: k in m && l in m && k != l ==> Bucket(k, count) != Bucket(l, count)
  }
}
