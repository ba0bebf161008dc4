/** The keys a unique map hands out: which are live, which deleted, and which is next. */
module UniqueKeys {
  import opened HashChains
  import opened HashTable
  import KeyList
  import Division

  /** Live and deleted keys partition `[0, counter)`, and there is a bucket for each of them. */
  ghost predicate Partition<T>(m: map<int, T>, deleted: seq<int>, counter: int, buckets: int)
  {
    && KeyList.Ascending(deleted) && 0 <= counter <= buckets
    && (forall k :: 0 <= k < counter <==> k in m || k in deleted)
    && (forall k :: !(k in m && k in deleted))
  }

  /** The key the next insertion takes. */
  function NextKey(deleted: seq<int>, counter: int): int
  {
    if deleted == [] then counter else deleted[0]
  }

  /** It is free, and every smaller key is live. */
  lemma NextKeyIsSmallest<T>(m: map<int, T>, deleted: seq<int>, counter: int, buckets: int)
    requires Partition(m, deleted, counter, buckets)
    ensures 0 <= NextKey(deleted, counter) <= counter && NextKey(deleted, counter) !in m
    ensures forall k :: 0 <= k < NextKey(deleted, counter) ==> k in m
  {
    if deleted != [] {
      assert deleted[0] in deleted;
      forall k | 0 <= k < deleted[0] ensures k in m {
        assert forall i :: 0 <= i < |deleted| ==> deleted[0] <= deleted[i];
      }
    }
  }

  /** There are as many keys below the counter as live and deleted ones together. */
  lemma {:induction false} KeysCount(live: set<int>, deleted: seq<int>, counter: int)
    requires 0 <= counter && KeyList.Ascending(deleted)
    requires forall k :: 0 <= k < counter <==> k in live || k in deleted
    requires forall k :: !(k in live && k in deleted)
    ensures |live| + |deleted| == counter
    decreases counter
  {
    assert deleted != [] ==> deleted[0] in deleted;
    if counter == 0 {
      forall k ensures k !in live && k !in deleted {
        assert !(0 <= k < counter);
      }
      assert live == {};
    } else if counter - 1 in live {
      KeysCount(live - {counter - 1}, deleted, counter - 1);
    } else {
      var n := |deleted|;
      var i :| 0 <= i < n && deleted[i] == counter - 1;
      assert forall a, b :: 0 <= a < b < n ==> deleted[a] < deleted[b];
      assert deleted[n - 1] in deleted;
      var rest := deleted[..n - 1];
      assert forall k :: k in deleted <==> k == counter - 1 || k in rest;
      KeysCount(live, rest, counter - 1);
    }
  }

  /** Taking a key never seen before: the table doubles exactly when the keys would outnumber the buckets. */
  lemma NewKeyPartition<T>(m: map<int, T>, counter: int, buckets: int, value: T)
    requires Partition(m, [], counter, buckets) && 0 < buckets
    ensures Partition(m[counter := value], [], counter + 1, if |m| + 1 > buckets then buckets * 2 else buckets)
  {
    KeysCount(m.Keys, [], counter);
    assert |m.Keys| == |m|;
  }

  lemma ReusedKeyPartition<T>(m: map<int, T>, deleted: seq<int>, counter: int, buckets: int, value: T)
    requires Partition(m, deleted, counter, buckets) && deleted != []
    ensures Partition(m[deleted[0] := value], deleted[1..], counter, buckets) && |m| + 1 <= buckets
  {
    KeysCount(m.Keys, deleted, counter);
    assert |m.Keys| == |m|;
    assert deleted[0] in deleted;
    assert forall i :: 0 <= i < |deleted[1..]| ==> deleted[1..][i] == deleted[i + 1];
    assert forall k :: k in deleted <==> k == deleted[0] || k in deleted[1..];
  }

  lemma ErasedPartition<T>(m: map<int, T>, deleted: seq<int>, deleted': seq<int>, counter: int, buckets: int, key: int)
    requires Partition(m, deleted, counter, buckets) && key in m && KeyList.Ascending(deleted')
    requires forall x :: x in deleted' <==> x == key || x in deleted
    ensures Partition(m - {key}, deleted', counter, buckets)
  {
  }

  /** What a unique map keeps, in all. */
  ghost predicate MapOk<T>(t: Table<T>, m: map<int, T>, counter: int, nodes: KeyList.Nodes, head: int, nextNode: int,
      addrs: seq<int>, deleted: seq<int>)
  {
    Rep(t, m) && Apart(t) && Partition(m, deleted, counter, t.bucketCount) &&
        ListOk(nodes, head, nextNode, addrs, deleted)
  }

  /** The deleted-keys list in memory, and room for another node. */
  predicate ListOk(nodes: KeyList.Nodes, head: int, nextNode: int, addrs: seq<int>, deleted: seq<int>)
  {
    && KeyList.Spells(nodes, head, addrs) && KeyList.Holds(nodes, addrs, deleted)
    && 0 < nextNode && forall a :: a in nodes ==> a < nextNode
  }

  /** The list says whether a key was deleted, and which one is smallest. */
  lemma ListHead(nodes: KeyList.Nodes, head: int, nextNode: int, addrs: seq<int>, deleted: seq<int>)
    requires ListOk(nodes, head, nextNode, addrs, deleted)
    ensures head == 0 <==> deleted == []
    ensures head != 0 ==> head in nodes && nodes[head].value == deleted[0]
  {
    if deleted != [] {
      assert KeyList.NodeOk(nodes, addrs, 0);
    }
  }

  /** A key put on the list. */
  method AddDeleted(nodes: KeyList.Nodes, head: int, nextNode: int, key: int, ghost addrs: seq<int>,
      ghost deleted: seq<int>)
    returns (nodes': KeyList.Nodes, head': int, ghost addrs': seq<int>, ghost deleted': seq<int>)
    requires ListOk(nodes, head, nextNode, addrs, deleted) && KeyList.Ascending(deleted) && key !in deleted
    ensures ListOk(nodes', head', nextNode + 1, addrs', deleted') && KeyList.Ascending(deleted')
    ensures forall x :: x in deleted' <==> x == key || x in deleted
  {
    ListHead(nodes, head, nextNode, addrs, deleted);
    if head == 0 {
      nodes', head' := nodes[nextNode := KeyList.Link(key, 0, 0)], nextNode;
      addrs', deleted' := [nextNode], [key];
      assert KeyList.NodeOk(nodes', addrs', 0);
    } else {
      nodes', head', addrs', deleted' := KeyList.Insert(nodes, head, nextNode, key, addrs, deleted);
    }
  }

  /** The smallest deleted key taken off the list. */
  method DropDeleted(nodes: KeyList.Nodes, head: int, nextNode: int, ghost addrs: seq<int>, ghost deleted: seq<int>)
    returns (nodes': KeyList.Nodes, head': int)
    requires ListOk(nodes, head, nextNode, addrs, deleted) && deleted != []
    ensures ListOk(nodes', head', nextNode, addrs[1..], deleted[1..])
  {
    nodes', head' := KeyList.RemoveHead(nodes, head, addrs, deleted);
  }

  /** Storing under the next key: it is new, or the smallest deleted one. */
  method StoreNext<T>(t: Table<T>, key: int, value: T, ghost m: map<int, T>, ghost deleted: seq<int>,
      ghost counter: int) returns (t': Table<T>, inserted: bool)
    requires Rep(t, m) && Apart(t) && Partition(m, deleted, counter, t.bucketCount) && key == NextKey(deleted, counter)
    ensures inserted && Rep(t', m[key := value]) && Apart(t') && key !in m && 0 <= key && (key == counter <==> deleted == [])
    ensures deleted == [] ==> Partition(m[key := value], deleted, counter + 1, t'.bucketCount)
    ensures deleted != [] ==> Partition(m[key := value], deleted[1..], counter, t'.bucketCount)
    ensures forall k :: 0 <= k < key ==> k in m
  {
    NextKeyIsSmallest(m, deleted, counter, t.bucketCount);
    if deleted == [] {
      NewKeyPartition(m, counter, t.bucketCount, value);
      KeysCount(m.Keys, [], counter);
      assert |m.Keys| == |m|;
    } else {
      assert deleted[0] in deleted;
      ReusedKeyPartition(m, deleted, counter, t.bucketCount, value);
    }
    assert forall k :: k in m ==> 0 <= k < counter;
    StoredApart(t, m, key, value, counter);
    t', inserted := Insert(t, key, value, m);
  }

  /** Keys below the number of buckets have one each. */
  lemma SmallKeysSpread<T>(m: map<int, T>, count: int)
    requires 0 < count && forall k :: k in m ==> 0 <= k < count
    ensures Spread(m, count)
  {
    forall k | k in m ensures Bucket(k, count) == k {
      Division.Quotient(count, 0, k);
    }
  }

  /** A key no larger than the number of buckets keeps the chains apart, by its own bucket or by the rehash. */
  lemma StoredApart<T>(t: Table<T>, m: map<int, T>, key: int, value: T, counter: int)
    requires Rep(t, m) && Apart(t) && 0 <= key <= counter <= t.bucketCount && key !in m
    requires (forall k :: k in m ==> 0 <= k < counter) && (key == t.bucketCount ==> |m| == t.bucketCount)
    ensures Apart(Inserted(t, key, value))
  {
    var m', count := m[key := value], t.bucketCount;
    if key < count {
      SmallKeysSpread(m', count);
      SpreadStep(t, m, Put(key, value));
    } else {
      LinkNodeRep(t, m, key, value);
      SmallKeysSpread(m', count * 2);
      RehashedApart(LinkNode(t, key, value), m', count * 2);
    }
  }

  /** Erasing from the table of a unique map. */
  method EraseLive<T>(t: Table<T>, key: int, ghost m: map<int, T>, ghost deleted: seq<int>, ghost counter: int)
    returns (t': Table<T>, erased: bool)
    requires Rep(t, m) && Apart(t) && Partition(m, deleted, counter, t.bucketCount) && 0 <= key
    ensures erased <==> key in m
    ensures Rep(t', m - {key}) && Apart(t') && t'.bucketCount == t.bucketCount
    ensures erased ==> key !in deleted
    ensures !erased ==> t' == t && m - {key} == m
  {
    ErasedApart(t, m, key);
    t', erased := Erase(t, key, m);
    if !erased {
      assert m - {key} == m;
    }
  }

  /** `erase`: off the table, and on the list of deleted keys. */
  method EraseEntry<T>(t: Table<T>, key: int, nodes: KeyList.Nodes, head: int, nextNode: int, ghost m: map<int, T>,
      ghost counter: int, ghost addrs: seq<int>, ghost deleted: seq<int>)
    returns (t': Table<T>, erased: bool, nodes': KeyList.Nodes, head': int, nextNode': int, ghost addrs': seq<int>, ghost deleted': seq<int>)
    requires MapOk(t, m, counter, nodes, head, nextNode, addrs, deleted) && 0 <= key
    ensures erased <==> key in m
    ensures MapOk(t', m - {key}, counter, nodes', head', nextNode', addrs', deleted')
  {
    nodes', head', nextNode', addrs', deleted' := nodes, head, nextNode, addrs, deleted;
    t', erased := EraseLive(t, key, m, deleted, counter);
    if erased {
      nodes', head', addrs', deleted' := AddDeleted(nodes, head, nextNode, key, addrs, deleted);
      nextNode' := nextNode + 1;
      ErasedPartition(m, deleted, deleted', counter, t.bucketCount, key);
    }
  }

  /** `insert_unique`: the value is stored before the key is taken. */
  method InsertEntry<T>(t: Table<T>, value: T, counter: int, nodes: KeyList.Nodes, head: int, nextNode: int,
      ghost m: map<int, T>,
      ghost addrs: seq<int>, ghost deleted: seq<int>)
    returns (key: int, t': Table<T>, inserted: bool, counter': int, nodes': KeyList.Nodes, head': int, ghost addrs': seq<int>, ghost deleted': seq<int>)
    requires MapOk(t, m, counter, nodes, head, nextNode, addrs, deleted)
    ensures inserted && key !in m && 0 <= key && forall k :: 0 <= k < key ==> k in m
    ensures MapOk(t', m[key := value], counter', nodes', head', nextNode, addrs', deleted')
  {
    ListHead(nodes, head, nextNode, addrs, deleted);
    counter', nodes', head', addrs', deleted' := counter, nodes, head, addrs, deleted;
    if head == 0 {
      key := counter;
    } else {
      key := nodes[head].value;
    }
    t', inserted := StoreNext(t, key, value, m, deleted, counter);
    if key == counter {
      counter' := counter + 1;
    } else {
      nodes', head' := DropDeleted(nodes, head, nextNode, addrs, deleted);
      addrs', deleted' := addrs[1..], deleted[1..];
    }
  }

  /** `emplace_unique`: the key is taken before the value is stored. */
  method EmplaceEntry<T>(t: Table<T>, value: T, counter: int, nodes: KeyList.Nodes, head: int, nextNode: int,
      ghost m: map<int, T>,
      ghost addrs: seq<int>, ghost deleted: seq<int>)
    returns (key: int, t': Table<T>, inserted: bool, counter': int, nodes': KeyList.Nodes, head': int, ghost addrs': seq<int>, ghost deleted': seq<int>)
    requires MapOk(t, m, counter, nodes, head, nextNode, addrs, deleted)
    ensures inserted && key !in m && 0 <= key && forall k :: 0 <= k < key ==> k in m
    ensures MapOk(t', m[key := value], counter', nodes', head', nextNode, addrs', deleted')
  {
    ListHead(nodes, head, nextNode, addrs, deleted);
    counter', nodes', head', addrs', deleted' := counter, nodes, head, addrs, deleted;
    if head == 0 {
      key, counter' := counter, counter + 1;
    } else {
      key := nodes[head].value;
      nodes', head' := DropDeleted(nodes, head, nextNode, addrs, deleted);
      addrs', deleted' := addrs[1..], deleted[1..];
    }
    t', inserted := StoreNext(t, key, value, m, deleted, counter);
  }
}
