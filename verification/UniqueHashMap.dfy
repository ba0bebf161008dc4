/** `unique_hash_map`: a hash map that hands out its own keys, smallest free one first. */
module UniqueHashMap {
  import opened HashChains
  import opened HashTable
  import opened UniqueKeys
  import KeyList

  class UniqueHashMap<T> {
    var table: Table<T>
    var counter: int
    var nodes: KeyList.Nodes
    var deletedKeys: int
    /** Where the next list node is allocated. */
    var nextNode: int
    ghost var m: map<int, T>
    ghost var deleted: seq<int>
    ghost var addrs: seq<int>

    ghost predicate Valid()
      reads this
    {
      MapOk(table, m, counter, nodes, deletedKeys, nextNode, addrs, deleted)
    }

    constructor (bucketCount: int)
      requires 0 < bucketCount
      ensures Valid() && m == map[]
    {
      new;
      table := Empty(bucketCount);
      EmptyRep<T>(bucketCount);
      counter, nodes, deletedKeys, nextNode := 0, map[], 0, 1;
      m, deleted, addrs := map[], [], [];
    }

    /** `insert_unique` always succeeds, and its key is the smallest that is free. */
    method InsertUnique(value: T) returns (key: int)
      requires Valid()
      modifies this
      ensures Valid() && key !in old(m) && m == old(m)[key := value]
      ensures 0 <= key && forall k :: 0 <= k < key ==> k in old(m)
    {
      var inserted;
      key, table, inserted, counter, nodes, deletedKeys, addrs, deleted :=
        InsertEntry(table, value, counter, nodes, deletedKeys, nextNode, m, addrs, deleted);
      m := m[key := value];
    }

    /** `emplace_unique`: the key is taken before the value is stored. */
    method EmplaceUnique(value: T) returns (key: int, inserted: bool)
      requires Valid()
      modifies this
      ensures Valid() && inserted && key !in old(m) && m == old(m)[key := value]
      ensures 0 <= key && forall k :: 0 <= k < key ==> k in old(m)
    {
      key, table, inserted, counter, nodes, deletedKeys, addrs, deleted :=
        EmplaceEntry(table, value, counter, nodes, deletedKeys, nextNode, m, addrs, deleted);
      m := m[key := value];
    }

    /** `erase` removes exactly the key, and only a live one. */
    method EraseKey(key: int) returns (erased: bool)
      requires Valid() && 0 <= key
      modifies this
      ensures Valid() && (erased <==> key in old(m)) && m == old(m) - {key}
    {
      table, erased, nodes, deletedKeys, nextNode, addrs, deleted :=
        EraseEntry(table, key, nodes, deletedKeys, nextNode, m, counter, addrs, deleted);
      m := m - {key};
    }

    /** `at`. */
    method Lookup(key: int, none: T) returns (v: T)
      requires Valid() && 0 <= key
      ensures v == if key in m then m[key] else none
    {
      v := At(table, key, none, m);
    }
  }
}
