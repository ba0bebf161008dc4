/** `virtual_allocator`: inserting, freeing and finding regions of the kernel's address range. */
module VirtualAllocator {
  import opened Division
  import opened VmaList

  const PAGE := 4096

  predicate Contains(c: Region, r: Region)
  {
    r.size > 0 && c.base <= r.base && End(r) <= End(c)
  }

  /** What a container node becomes when a region inside it is inserted. */
  function InsertedMid(c: Region, r: Region): seq<Region>
  {
    if c.base == r.base && c.size == r.size then [r]
    else if c.base == r.base then [r, c.(base := c.base + r.size, size := c.size - r.size)]
    else if End(c) == End(r) then [c.(size := c.size - r.size), r]
    else [c.(size := r.base - c.base), r, Region(End(r), End(c) - End(r), c.prot, c.used)]
  }

  /** The split covers the container, and only the region changes attributes. */
  lemma InsertedMidOk(c: Region, r: Region, x: int)
    requires Contains(c, r)
    ensures Tiled(InsertedMid(c, r), c.base, End(c))
    ensures InRegion(c, x) ==> AttrAt(InsertedMid(c, r), x) == if InRegion(r, x) then Attr(r) else Attr(c)
  {
    var mid := InsertedMid(c, r);
    if |mid| == 2 {
      assert mid[1..] == [mid[1]];
    } else if |mid| == 3 {
      var rest, last := [mid[1], mid[2]], [mid[2]];
      assert mid[1..] == rest && rest[1..] == last;
      assert Tiled(last, mid[2].base, End(mid[2])) && Tiled(rest, mid[1].base, End(mid[2]));
      assert AttrAt(rest, x) == if InRegion(mid[1], x) then Attr(mid[1]) else AttrAt(last, x);
    }
  }

  /** What a container node becomes when a region inside it is freed; the last case computes with the wrong sign. */
  function FreedMid(c: Region, r: Region): seq<Region>
  {
    var gone := Region(r.base, r.size, 0, false);
    if c.base == r.base && c.size == r.size then [gone]
    else if c.base == r.base then [gone, Region(End(r), c.size - r.size, c.prot, true)]
    else if End(c) == End(r) then [c.(size := c.size - r.size), gone]
    else
      var size := U64(c.base - r.base);
      [c.(size := size), gone, Region(End(r), U64(c.base + size - End(r)), c.prot, true)]
  }

  /** Freeing at the start, at the end, or all of a node. */
  lemma FreedMidOk(c: Region, r: Region, x: int)
    requires Contains(c, r) && c.used && (c.base == r.base || End(c) == End(r))
    ensures Tiled(FreedMid(c, r), c.base, End(c))
    ensures InRegion(c, x) ==> AttrAt(FreedMid(c, r), x) == if InRegion(r, x) then FREE else Attr(c)
  {
  }

  /** The nodes left by a free cover the container exactly when the freed region touches one of its ends. */
  lemma FreedMidTilesIff(c: Region, r: Region)
    requires Contains(c, r) && c.used && 0 <= c.base && End(c) < 0x1_0000_0000_0000_0000 &&
        c.size < 0x8000_0000_0000_0000
    ensures Tiled(FreedMid(c, r), c.base, End(c)) <==> c.base == r.base || End(c) == End(r)
  {
    if c.base == r.base || End(c) == End(r) {
      FreedMidOk(c, r, c.base);
    } else {
      var mid := FreedMid(c, r);
      assert mid[1..][0] == mid[1];
      assert mid[0].size == c.base - r.base + 0x1_0000_0000_0000_0000;
    }
  }

  /** `find_node` with `address_in_vma_region`. */
  method FindNode(list: seq<Region>, a: int) returns (found: bool, i: int)
    ensures found ==> 0 <= i < |list| && InRegion(list[i], a) && forall j :: 0 <= j < i ==> !InRegion(list[j], a)
    ensures !found ==> forall j :: 0 <= j < |list| ==> !InRegion(list[j], a)
  {
    i := 0;
    while i < |list|
      invariant 0 <= i <= |list| && forall j :: 0 <= j < i ==> !InRegion(list[j], a)
    {
      if InRegion(list[i], a) {
        return true, i;
      }
      i := i + 1;
    }
    found := false;
  }

  /** `check_for_vma_node_combination`: merging changes no attribute; `j` is where the node now is. */
  method Combine(list: seq<Region>, i: int, ghost lo: int, ghost hi: int) returns (list': seq<Region>, j: int)
    requires Tiled(list, lo, hi) && 0 <= i < |list|
    ensures Tiled(list', lo, hi) && Same(list, list', lo, hi) && 0 <= j < |list'|
    ensures i + 1 < |list| && Attr(list[i + 1]) != Attr(list[i]) ==> j + 1 < |list'| && list'[j + 1] == list[i + 1]
  {
    list', j := list, i;
    if i > 0 && Attr(list[i - 1]) == Attr(list[i]) {
      MergeSame(list, i - 1, lo, hi);
      list', j := Splice(list, i - 1, 2, [list[i - 1].(size := list[i - 1].size + list[i].size)]), i - 1;
    }
    if j + 1 < |list'| && Attr(list'[j + 1]) == Attr(list'[j]) {
      MergeSame(list', j, lo, hi);
      ghost var before := list';
      list' := Splice(list', j, 2, [list'[j].(size := list'[j].size + list'[j + 1].size)]);
      assert Same(before, list', lo, hi);
    }
  }

  /** `insert_vma_region` of a region inside one node. */
  method InsertRegion(list: seq<Region>, r: Region, ghost lo: int, ghost hi: int, ghost k: int)
    returns (list': seq<Region>)
    requires Tiled(list, lo, hi) && 0 <= k < |list| && Contains(list[k], r)
    ensures Tiled(list', lo, hi) && Changed(list, list', lo, hi, r.base, End(r), Attr(r))
  {
    var found, i := FindNode(list, r.base);
    OneContainer(list, i, k, lo, hi, r.base);
    var c := list[i];
    var list1 := Splice(list, i, 1, InsertedMid(c, r));
    InsertSplit(list, i, r, lo, hi);
    if |InsertedMid(c, r)| == 1 {
      return list1;
    }
    var j;
    list', j := Combine(list1, if c.base == r.base then i else i + 1, lo, hi);
  }

  /** Only one node holds an address. */
  lemma OneContainer(list: seq<Region>, i: int, k: int, lo: int, hi: int, a: int)
    requires Tiled(list, lo, hi) && 0 <= i < |list| && 0 <= k < |list| && InRegion(list[i], a) && InRegion(list[k], a)
    ensures i == k
  {
    if i < k {
      Before(list, i, k, lo, hi);
    } else if k < i {
      Before(list, k, i, lo, hi);
    }
  }

  lemma Before(list: seq<Region>, i: int, k: int, lo: int, hi: int)
    requires Tiled(list, lo, hi) && 0 <= i < k < |list|
    ensures End(list[i]) <= list[k].base
  {
    var tail := list[i + 1..];
    assert list[..i + 1] + tail == list;
    TiledSplit(list[..i + 1], tail, lo, hi);
    Around(list, i, 1, lo, hi);
    Around(tail, k - i - 1, 1, Seam(tail, hi), hi);
    Around(list, i, 2, lo, hi);
  }

  lemma InsertSplit(list: seq<Region>, i: int, r: Region, lo: int, hi: int)
    requires Tiled(list, lo, hi) && 0 <= i < |list| && Contains(list[i], r)
    ensures var list' := Splice(list, i, 1, InsertedMid(list[i], r));
            Tiled(list', lo, hi) && Changed(list, list', lo, hi, r.base, End(r), Attr(r))
  {
    var c := list[i];
    var list' := Splice(list, i, 1, InsertedMid(c, r));
    InsertedMidOk(c, r, c.base);
    ReplaceOne(list, i, InsertedMid(c, r), lo, hi);
    forall x | lo <= x < hi ensures AttrAt(list', x) == if r.base <= x < End(r) then Attr(r) else AttrAt(list, x) {
      InsertedMidOk(c, r, x);
      if InRegion(c, x) { AttrInside(list, i, lo, hi, x); }
    }
  }

  lemma FreeSplit(list: seq<Region>, i: int, r: Region, lo: int, hi: int)
    requires Tiled(list, lo, hi) && 0 <= i < |list| && Contains(list[i], r) && list[i].used
    requires list[i].base == r.base || End(list[i]) == End(r)
    ensures var list' := Splice(list, i, 1, FreedMid(list[i], r));
            Tiled(list', lo, hi) && Changed(list, list', lo, hi, r.base, End(r), FREE)
  {
    var c := list[i];
    var list' := Splice(list, i, 1, FreedMid(c, r));
    FreedMidOk(c, r, c.base);
    ReplaceOne(list, i, FreedMid(c, r), lo, hi);
    forall x | lo <= x < hi ensures AttrAt(list', x) == if r.base <= x < End(r) then FREE else AttrAt(list, x) {
      FreedMidOk(c, r, x);
      if InRegion(c, x) { AttrInside(list, i, lo, hi, x); }
    }
  }

  /** `free_vma_region` at an end of an allocated node; an address that is not allocated is refused. */
  method FreeRegion(list: seq<Region>, r: Region, ghost lo: int, ghost hi: int) returns (list': seq<Region>, ok: bool)
    requires Tiled(list, lo, hi)
    requires forall k :: 0 <= k < |list| && InRegion(list[k], r.base) && list[k].used ==>
               Contains(list[k], r) && (list[k].base == r.base || End(list[k]) == End(r))
    ensures Tiled(list', lo, hi)
    ensures ok <==> exists k :: 0 <= k < |list| && InRegion(list[k], r.base) && list[k].used
    ensures ok ==> Changed(list, list', lo, hi, r.base, End(r), FREE)
    ensures !ok ==> list' == list
  {
    var found, i := FindNode(list, r.base);
    if !found || !list[i].used {
      forall k | 0 <= k < |list| && InRegion(list[k], r.base) ensures !list[k].used {
        OneContainer(list, i, k, lo, hi, r.base);
      }
      return list, false;
    }
    FreeSplit(list, i, r, lo, hi);
    var list1 := Splice(list, i, 1, FreedMid(list[i], r));
    var j;
    list', j := Combine(list1, i, lo, hi);
    if |FreedMid(list[i], r)| > 1 {
      assert list1[i + 1] == FreedMid(list[i], r)[1];
      list', j := Combine(list', j + 1, lo, hi);
    }
    ok := true;
  }

  // ----- finding room

  function AlignUp(a: int): int { if a % PAGE == 0 then a else a + (PAGE - a % PAGE) }

  lemma AlignUpIsLeast(a: int, b: int)
    requires a <= b && b % PAGE == 0
    ensures a <= AlignUp(a) <= b && AlignUp(a) % PAGE == 0
  {
  }

  /** The lowest address a new region may have in a node: above the ignored region when the node starts with it. */
  function Floor(node: Region, ignore: Region): int
  {
    if node.base == ignore.base then End(ignore) else node.base
  }

  /** Page-aligned room for `size` bytes at `a` in a free node, clear of the ignored region. */
  predicate RoomAt(node: Region, size: int, ignore: Region, a: int)
  {
    !node.used && a % PAGE == 0 && Floor(node, ignore) <= a && a + size <= End(node)
  }

  /** The test of the search loop, as it is computed. */
  predicate Skipped(node: Region, size: int, ignore: Region)
  {
    || node.size < size + (AlignUp(node.base) - node.base)
    || node.used
    || (node.base == ignore.base && U64(node.size - ignore.size) < size + (AlignUp(End(ignore)) - End(ignore)))
  }

  /** A node is skipped exactly when it has no room, wherever that room might be. */
  lemma SkippedIff(node: Region, size: int, ignore: Region, a: int)
    requires 0 <= node.size < 0x1_0000_0000_0000_0000 && 0 <= size
    requires node.base == ignore.base ==> 0 <= ignore.size <= node.size
    ensures !Skipped(node, size, ignore) ==> RoomAt(node, size, ignore, AlignUp(Floor(node, ignore)))
    ensures RoomAt(node, size, ignore, a) ==> !Skipped(node, size, ignore)
  {
    AlignUpIsLeast(node.base, AlignUp(node.base));
    AlignUpIsLeast(End(ignore), AlignUp(End(ignore)));
    if RoomAt(node, size, ignore, a) {
      AlignUpIsLeast(Floor(node, ignore), a);
      AlignUpIsLeast(node.base, a);
    }
  }

  predicate ListFits(list: seq<Region>, ignore: Region)
  {
    forall i :: 0 <= i < |list| ==>
      0 <= list[i].size < 0x1_0000_0000_0000_0000 && (list[i].base == ignore.base ==> 0 <= ignore.size <= list[i].size)
  }

  /**
   `find_free_region`: the first free node with page-aligned room, or the empty region when there is none anywhere.
   */
  method FindFreeRegion(list: seq<Region>, size: int, prot: int, ignore: Region) returns (r: Region, ghost k: int)
    requires 0 < size && ListFits(list, ignore)
    ensures r.size == 0 || r.size == size
    ensures r.size != 0 ==> 0 <= k < |list| && RoomAt(list[k], size, ignore, r.base) && Attr(r) == (prot, true)
    ensures r.size != 0 ==> forall i, a :: 0 <= i < k ==> !RoomAt(list[i], size, ignore, a)
    ensures r.size != 0 ==> forall a :: RoomAt(list[k], size, ignore, a) ==> r.base <= a
    ensures r.size == 0 ==> forall i, a :: 0 <= i < |list| ==> !RoomAt(list[i], size, ignore, a)
  {
    var i := 0;
    while i < |list| && Skipped(list[i], size, ignore)
      invariant 0 <= i <= |list|
      invariant forall j, a :: 0 <= j < i ==> !RoomAt(list[j], size, ignore, a)
    {
      forall a ensures !RoomAt(list[i], size, ignore, a) {
        SkippedIff(list[i], size, ignore, a);
      }
      i := i + 1;
    }
    k := i;
    if i == |list| {
      return Region(0, 0, 0, false), k;
    }
    SkippedIff(list[i], size, ignore, 0);
    r := Region(AlignUp(if list[i].base == ignore.base then End(ignore) else list[i].base), size, prot, true);
    forall a | RoomAt(list[k], size, ignore, a) ensures r.base <= a {
      AlignUpIsLeast(Floor(list[k], ignore), a);
    }
  }

  /** Some free node holds a page-aligned stretch of `size` bytes. */
  ghost predicate HasRoom(list: seq<Region>, size: int)
  {
    exists i, a :: 0 <= i < |list| && RoomAt(list[i], size, Region(0, 0, 0, false), a)
  }

  /** No free node has room at a lower address. */
  ghost predicate LowestRoom(list: seq<Region>, size: int, base: int)
  {
    forall i, a :: 0 <= i < |list| && RoomAt(list[i], size, Region(0, 0, 0, false), a) ==> base <= a
  }

  /** Room in a later node is at a higher address. */
  lemma LaterIsHigher(list: seq<Region>, lo: int, hi: int, size: int, k: int, base: int)
    requires Tiled(list, lo, hi) && 0 < lo && 0 < size && 0 <= k < |list| &&
        RoomAt(list[k], size, Region(0, 0, 0, false), base)
    requires forall i, a :: 0 <= i < k ==> !RoomAt(list[i], size, Region(0, 0, 0, false), a)
    requires forall a :: RoomAt(list[k], size, Region(0, 0, 0, false), a) ==> base <= a
    ensures LowestRoom(list, size, base)
  {
    forall i, a | 0 <= i < |list| && RoomAt(list[i], size, Region(0, 0, 0, false), a) ensures base <= a {
      if i > k {
        Around(list, i, 1, lo, hi);
        Around(list[..i], k, 1, lo, list[i].base);
      }
    }
  }

  class Allocator {
    var list: seq<Region>
    const lo: int
    const hi: int

    ghost predicate Valid()
      reads this
    {
      0 < lo && hi <= 0x1_0000_0000_0000_0000 && Tiled(list, lo, hi)
    }

    /** `init`: one free region over the whole range. */
    constructor (start: int, size: int)
      requires 0 < start && 0 < size && start + size <= 0x1_0000_0000_0000_0000
      ensures Valid() && lo == start && hi == start + size && forall x :: lo <= x < hi ==> AttrAt(list, x) == FREE
    {
      list, lo, hi := [Region(start, size, 0, false)], start, start + size;
    }

    /**
     `allocate`: a page-aligned stretch that was free becomes allocated, and nothing else changes. It fails exactly for a
     size that is no number of pages and when no free node has room.
     */
    method Allocate(size: int, prot: int) returns (base: int)
      requires Valid() && 0 <= size
      modifies this
      ensures Valid()
      ensures base == 0 ==> list == old(list)
      ensures base == 0 <==> size == 0 || size % PAGE != 0 || !HasRoom(old(list), size)
      ensures base != 0 ==> base % PAGE == 0 && lo <= base && base + size <= hi
      ensures base != 0 ==> LowestRoom(old(list), size, base)
      ensures base != 0 ==> forall x :: base <= x < base + size ==> !AttrAt(old(list), x).1
      ensures base != 0 ==> Changed(old(list), list, lo, hi, base, base + size, (prot, true))
    {
      if size % PAGE != 0 || size == 0 {
        return 0;
      }
      var none := Region(0, 0, 0, false);
      ListIsOk(list, lo, hi, none);
      var r;
      ghost var k;
      r, k := FindFreeRegion(list, size, prot, none);
      if r.size == 0 {
        return 0;
      }
      Around(list, k, 1, lo, hi);
      forall x | r.base <= x < r.base + size ensures !AttrAt(list, x).1 {
        AttrInside(list, k, lo, hi, x);
      }
      LaterIsHigher(list, lo, hi, size, k, r.base);
      list := InsertRegion(list, r, lo, hi, k);
      base := r.base;
    }

    /** `free_vma_region`, on a region at one end of its node. */
    method Free(base: int, size: int) returns (ok: bool)
      requires Valid()
      requires forall k :: 0 <= k < |list| && InRegion(list[k], base) && list[k].used ==>
                 Contains(list[k], Region(base, size, 0, true)) && (list[k].base == base || End(list[k]) == base + size)
      modifies this
      ensures Valid()
      ensures ok <==> lo <= base < hi && AttrAt(old(list), base).1
      ensures ok ==> Changed(old(list), list, lo, hi, base, base + size, FREE)
      ensures !ok ==> list == old(list)
    {
      var r := Region(base, size, 0, true);
      UsedIff(list, lo, hi, base);
      list, ok := FreeRegion(list, r, lo, hi);
    }
  }

  lemma ListIsOk(list: seq<Region>, lo: int, hi: int, none: Region)
    requires Tiled(list, lo, hi) && 0 < lo && hi <= 0x1_0000_0000_0000_0000 && none.base == 0
    ensures ListFits(list, none)
  {
    forall i | 0 <= i < |list| ensures 0 <= list[i].size < 0x1_0000_0000_0000_0000 && list[i].base != 0 {
      Around(list, i, 1, lo, hi);
    }
  }

  /** An address is allocated exactly when a used node holds it. */
  lemma UsedIff(list: seq<Region>, lo: int, hi: int, a: int)
    requires Tiled(list, lo, hi)
    ensures (exists k :: 0 <= k < |list| && InRegion(list[k], a) && list[k].used) <==> lo <= a < hi && AttrAt(list, a).1
  {
    forall k | 0 <= k < |list| && InRegion(list[k], a) ensures lo <= a < hi && AttrAt(list, a) == Attr(list[k]) {
      AttrInside(list, k, lo, hi, a);
    }
    if lo <= a < hi {
      var k := NodeOf(list, lo, hi, a);
    }
  }

  lemma {:induction false} NodeOf(list: seq<Region>, lo: int, hi: int, a: int) returns (k: int)
    requires Tiled(list, lo, hi) && lo <= a < hi
    ensures 0 <= k < |list| && InRegion(list[k], a)
  {
    if InRegion(list[0], a) {
      k := 0;
    } else {
      k := NodeOf(list[1..], End(list[0]), hi, a);
      k := k + 1;
    }
  }
}
