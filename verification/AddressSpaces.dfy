/**
 The kernel's own `map_page`, which takes its tables from the structures buffer and gets a new one when that is short.
 */
module AddressSpaces {
  import opened PageTables
  import opened RecursiveSlot
  import opened TableSteps
  import opened PagingManager
  import opened PagePermissions

  const AREA_PAGES := 16

  /** `area` are the pages of the buffer's address range, and the tables above them are there. */
  ghost predicate AreaOk(mem: Memory, root: nat, base: int, area: seq<Path>)
  {
    && |area| == AREA_PAGES && BufferAt(base, AREA_PAGES * 4096, area)
    && forall k :: 0 <= k < |area| ==> PagePath(area[k]) && Follow(mem, root, area[k][..3]).Frame?
  }

  /** Nothing changed but the translations of pages in `area`. */
  ghost predicate AreaOnly(mem: Memory, mem': Memory, root: nat, area: seq<Path>)
  {
    && TablesOk(mem', root) && UnusedKept(mem, mem', root, 0, 0) && RightsKept(mem, mem', root, area)
    && forall q :: IsPath(q) && q !in area ==> Follow(mem', root, q) == Follow(mem, root, q)
  }

  /** Neighbouring pages have different paths. */
  lemma AreaDistinct(base: int, area: seq<Path>, i: int, k: int)
    requires |area| == AREA_PAGES && BufferAt(base, AREA_PAGES * 4096, area) && 0 <= i < k < |area|
    ensures area[i] != area[k]
  {
    assert PageNames(base, i, area[i]) && PageNames(base, k, area[k]);
    assert IndexAt(base + 4096 * i, 3) == area[i][3] && IndexAt(base + 4096 * k, 3) == area[k][3];
    var page := base / 4096;
    assert (base + 4096 * i) / 4096 == page + i && (base + 4096 * k) / 4096 == page + k;
  }

  lemma AreaStep(mem0: Memory, mem: Memory, mem': Memory, root: nat, base: int, area: seq<Path>, i: int)
    requires AreaOk(mem0, root, base, area) && AreaOnly(mem0, mem, root, area) && 0 <= i < |area| &&
        LeafOnly(mem, mem', root, area[i])
    ensures AreaOnly(mem0, mem', root, area) && AreaOk(mem', root, base, area)
  {
    LeafRights(mem, mem', root, area[i]);
    RightsThrough(mem0, mem, mem', root, area, [area[i]], area);
    forall q | IsPath(q) && q !in area ensures Follow(mem', root, q) == Follow(mem0, root, q) {
      assert q != area[i];
    }
    forall k | 0 <= k < |area| ensures PagePath(area[k]) && Follow(mem', root, area[k][..3]).Frame? {
      assert IsPath(area[k][..3]) && area[k][..3] !in area;
    }
  }

  /** `free_structures_buffer`: every page of the range is unmapped. */
  method FreeBuffer(mem: Memory, root: nat, base: int, ghost area: seq<Path>) returns (mem': Memory)
    requires TablesOk(mem, root) && AreaOk(mem, root, base, area)
    ensures AreaOnly(mem, mem', root, area) && AreaOk(mem', root, base, area)
    ensures forall k :: 0 <= k < |area| ==> Follow(mem', root, area[k]) == Missing
  {
    mem' := mem;
    for i := 0 to AREA_PAGES
      invariant AreaOnly(mem, mem', root, area) && AreaOk(mem', root, base, area)
      invariant forall k :: 0 <= k < i ==> Follow(mem', root, area[k]) == Missing
    {
      ghost var before := mem';
      assert PageNames(base, i, area[i]);
      mem' := UnmapFrom(mem', root, base + 4096 * i, area[i]);
      AreaStep(mem, before, mem', root, base, area, i);
      forall k | 0 <= k <= i ensures Follow(mem', root, area[k]) == Missing {
        if k < i { AreaDistinct(base, area, k, i); }
      }
    }
  }

  /** The pages are mapped to consecutive frames, for writing. */
  ghost predicate BufferPages(mem: Memory, root: nat, first: nat, pages: seq<Path>)
  {
    forall k :: 0 <= k < |pages| ==>
      pages[k] != [] && Follow(mem, root, pages[k]) == Frame(first + k) && EntryOf(mem, root, pages[k]).writable
  }

  lemma NextBufferPage(mem: Memory, mem': Memory, root: nat, base: int, area: seq<Path>, first: nat, i: int)
    requires AreaOk(mem, root, base, area) && 0 <= i < |area| && BufferPages(mem, root, first, area[..i])
    requires LeafOnly(mem, mem', root, area[i]) && Follow(mem', root, area[i]) == Frame(first + i) &&
        EntryOf(mem', root, area[i]).writable
    ensures BufferPages(mem', root, first, area[..i + 1])
  {
    forall k | 0 <= k <= i ensures Follow(mem', root, area[k]) == Frame(first + k) && EntryOf(mem', root, area[k]).writable {
      if k < i {
        AreaDistinct(base, area, k, i);
        assert area[..i][k] == area[k];
        assert PageNames(base, k, area[k]);
      }
    }
  }

  /** A page of the buffer is mapped, then made writable. */
  method PointWritable(mem: Memory, root: nat, va: int, index: nat, ghost path: Path) returns (mem': Memory)
    requires TablesOk(mem, root) && PagePath(path) && Names(va, path) && Follow(mem, root, path[..3]).Frame? &&
        index < FRAMES
    ensures LeafOnly(mem, mem', root, path) && Follow(mem', root, path) == Frame(index) &&
        EntryOf(mem', root, path).writable
  {
    var mem1 := PointPage(mem, root, va, index, path);
    assert IsPath(path[..3]) && path[..3] != path;
    mem' := SetPermissions(mem1, root, va, Flags(true, true, false), path);
  }

  /** `allocate_structures_buffer`: the range is mapped to consecutive frames, for writing. */
  method AllocateBuffer(mem: Memory, root: nat, base: int, first: nat, ghost area: seq<Path>) returns (mem': Memory)
    requires TablesOk(mem, root) && AreaOk(mem, root, base, area) && first + AREA_PAGES <= FRAMES
    ensures AreaOnly(mem, mem', root, area) && AreaOk(mem', root, base, area)
    ensures BufferPages(mem', root, first, area)
  {
    mem' := mem;
    for i := 0 to AREA_PAGES
      invariant AreaOnly(mem, mem', root, area) && AreaOk(mem', root, base, area)
      invariant BufferPages(mem', root, first, area[..i])
    {
      ghost var before := mem';
      assert PageNames(base, i, area[i]);
      mem' := PointWritable(mem', root, base + 4096 * i, first + i, area[i]);
      AreaStep(mem, before, mem', root, base, area, i);
      NextBufferPage(before, mem', root, base, area, first, i);
    }
    assert area[..AREA_PAGES] == area;
  }

  /** The pages of the range that `size` bytes of the buffer are left in. */
  function Rest(area: seq<Path>, size: int): seq<Path>
    requires |area| == AREA_PAGES && 0 <= size <= AREA_PAGES * 4096
  {
    area[AREA_PAGES - size / 4096..]
  }

  /** The buffer's unused part is mapped, from frame `frame` on, to frames that hold no table. */
  ghost predicate BufferState(mem: Memory, root: nat, base: int, area: seq<Path>, ptr: int, size: int, frame: nat)
  {
    && AreaOk(mem, root, base, area) && 0 <= size <= AREA_PAGES * 4096
    && BufferAt(ptr, size, Rest(area, size)) && BufferOk(mem, root, Rest(area, size), frame)
  }

  /** Pages beside `path` and the buffer's translate as before. */
  ghost predicate KeptBeside(mem: Memory, mem': Memory, root: nat, path: Path, area: seq<Path>)
  {
    forall q :: PagePath(q) && q != path && q !in area ==> Follow(mem', root, q) == Follow(mem, root, q)
  }

  /** The sixteen frames from `first` on hold no table and are none of the buffer's. */
  ghost predicate NewFrames(mem: Memory, root: nat, first: int, frame: nat, left: int)
  {
    && 0 <= first && first + AREA_PAGES <= FRAMES && (first + AREA_PAGES <= frame || frame + left <= first)
    && forall g :: first <= g < first + AREA_PAGES ==> Unused(mem, root, g)
  }

  lemma AreaKept(mem: Memory, mem': Memory, root: nat, base: int, area: seq<Path>)
    requires AreaOk(mem, root, base, area)
    requires Grown(mem, mem', root) || Tables(mem, mem', root)
    ensures AreaOk(mem', root, base, area)
  {
    forall k | 0 <= k < |area| ensures Follow(mem', root, area[k][..3]).Frame? {
      assert IsPath(area[k][..3]);
    }
  }

  /** Tables above pages outside the range are the same after a change inside it. */
  lemma SameTables(mem: Memory, mem': Memory, root: nat, path: Path, area: seq<Path>)
    requires AreaOnly(mem, mem', root, area) && PagePath(path) && path !in area
    requires forall k :: 0 <= k < |area| ==> |area[k]| == 4
    ensures MissingTables(mem', root, path) == MissingTables(mem, root, path) &&
        Follow(mem', root, path) == Follow(mem, root, path)
  {
    forall j | 0 <= j < 4 ensures Follow(mem', root, path[..j]) == Follow(mem, root, path[..j]) {
      assert IsPath(path[..j]) && path[..j] !in area;
    }
  }

  /** What is left of a buffer after a call that went through. */
  lemma StateAfter(mem: Memory, mem': Memory, root: nat, base: int, area: seq<Path>, path: Path, ptr: int, size: int,
      frame: nat,
      ptr': int, size': int)
    returns (frame': nat)
    requires BufferState(mem, root, base, area, ptr, size, frame) && PagePath(path) && path !in area &&
        Tables(mem, mem', root)
    requires BufferLeft(mem, mem', root, path, Rest(area, size), frame, ptr', size')
    requires size - size' == 4096 * MissingTables(mem, root, path)
    ensures BufferState(mem', root, base, area, ptr', size', frame')
  {
    AreaKept(mem, mem', root, base, area);
    var used := MissingTables(mem, root, path);
    assert size' / 4096 == size / 4096 - used;
    assert Rest(area, size)[used..] == Rest(area, size');
    assert path !in Rest(area, size);
    frame' := frame + used;
  }

  /** The old buffer goes, and sixteen new frames come if there are any. */
  method NewBuffer(mem: Memory, root: nat, base: int, ptr: int, size: int, first: int, ghost area: seq<Path>)
    returns (mem': Memory, ptr': int, size': int, ghost frame: nat)
    requires TablesOk(mem, root) && AreaOk(mem, root, base, area) && 0 <= size < 4096
    requires first < 0 || NewFrames(mem, root, first, 0, 0)
    ensures AreaOnly(mem, mem', root, area) && BufferState(mem', root, base, area, ptr', size', frame)
    ensures size' == (if first < 0 then size else AREA_PAGES * 4096) && (first >= 0 ==> frame == first)
  {
    mem' := FreeBuffer(mem, root, base, area);
    ptr', size', frame := ptr, size, 0;
    if first >= 0 {
      ghost var freed := mem';
      mem' := AllocateBuffer(mem', root, base, first, area);
      ptr', size', frame := base, AREA_PAGES * 4096, first;
      assert Rest(area, size') == area;
      assert BufferOk(mem', root, area, first);
    } else {
      assert Rest(area, size) == [];
    }
  }

  /** The second call of `map_page`, after the buffer was exchanged. */
  method Retry(mem: Memory, root: nat, va: int, index: nat, base: int, ptr: int, size: int, first: int,
      ghost path: Path, ghost area: seq<Path>)
    returns (ok: bool, mem': Memory, ptr': int, size': int, ghost frame': nat)
    requires TablesOk(mem, root) && AreaOk(mem, root, base, area) && 0 <= size < 4096
    requires PagePath(path) && Names(va, path) && path !in area
    requires first < 0 || NewFrames(mem, root, first, 0, 0)
    ensures TablesOk(mem', root) && BufferState(mem', root, base, area, ptr', size', frame')
    ensures ok <==> first >= 0 || MissingTables(mem, root, path) == 0
    ensures ok ==> Follow(mem', root, path) == Frame(index % 0x100_0000_0000) && Protected(mem', root, path)
    ensures !ok ==> Follow(mem', root, path) == Follow(mem, root, path)
    ensures KeptBeside(mem, mem', root, path, area) && RightsKept(mem, mem', root, area + [path])
  {
    var mem1, ptr1, size1;
    ghost var frame1;
    mem1, ptr1, size1, frame1 := NewBuffer(mem, root, base, ptr, size, first, area);
    SameTables(mem, mem1, root, path, area);
    ok, mem', ptr', size', frame' := MapFrom(mem1, root, va, index, base, ptr1, size1, path, area, frame1);
    RightsThrough(mem, mem1, mem', root, area, [path], area + [path]);
  }

  /** Where an empty buffer lies does not matter. */
  lemma NoFrames(mem: Memory, mem': Memory, root: nat, path: Path, n: int, at: nat, frame: nat)
    requires |path| == 4 && GaveUp(mem, mem', root, path, n, at) && (n != 0 ==> at == frame)
    ensures GaveUp(mem, mem', root, path, n, frame)
  {
    if n == 0 {
      forall g | Unused(mem, root, g) ensures Unused(mem', root, g) {
        assert !(at <= g < at + 0);
      }
    }
  }

  /** `map_page` with the structures buffer. */
  method MapFrom(mem: Memory, root: nat, va: int, index: nat, base: int, ptr: int, size: int,
      ghost path: Path, ghost area: seq<Path>, ghost frame: nat)
    returns (ok: bool, mem': Memory, ptr': int, size': int, ghost frame': nat)
    requires TablesOk(mem, root) && BufferState(mem, root, base, area, ptr, size, frame)
    requires PagePath(path) && Names(va, path) && path !in area
    ensures TablesOk(mem', root) && (ok <==> size / 4096 >= MissingTables(mem, root, path))
    ensures ok ==> Mapped(mem, mem', root, path, Frame(index % 0x100_0000_0000)) && Protected(mem', root, path)
    ensures ok ==> BufferState(mem', root, base, area, ptr', size', frame')
    ensures RightsKept(mem, mem', root, [path])
    ensures !ok ==> GaveUp(mem, mem', root, path, size / 4096, frame) && AreaOk(mem', root, base, area) && 0 <= size' < 4096
    ensures !ok && size < 4096 ==> BufferState(mem', root, base, area, ptr', size', frame')
  {
    ghost var pages := Rest(area, size);
    var at := FrameOf(mem, root, ptr, size, pages, frame);
    ok, mem', ptr', size' := MapInto(mem, root, va, index, ptr, size, at, path, pages);
    frame' := 0;
    if ok {
      frame' := StateAfter(mem, mem', root, base, area, path, ptr, size, at, ptr', size');
    } else {
      AreaKept(mem, mem', root, base, area);
      NoFrames(mem, mem', root, path, |pages|, at, frame);
      assert size < 4096 ==> Rest(area, size') == [] && size' == size;
    }
  }

  /** `get_physical_address` of the buffer, as the frame its first page is in. */
  method FrameOf(mem: Memory, root: nat, ptr: int, size: int, ghost pages: seq<Path>, ghost frame: nat)
    returns (at: nat)
    requires TablesOk(mem, root) && BufferAt(ptr, size, pages) && BufferOk(mem, root, pages, frame)
    ensures BufferOk(mem, root, pages, at) && (pages != [] ==> at == frame)
  {
    at := GetPhysicalAddress(mem, root, ptr) / 4096 % FRAMES;
    if pages != [] {
      assert PageNames(ptr, 0, pages[0]);
      NamesPath(ptr, pages[0]);
      assert Follow(mem, root, pages[0]) == Frame(frame + 0);
    }
  }

  /** The tables of one address space, the structures buffer, and the calls that change them. */
  class AddressSpace {
    var mem: Memory
    var ptr: int
    var size: int
    const root: nat
    const base: int
    ghost const area: seq<Path>
    ghost var frame: nat

    ghost predicate Valid()
      reads this
    {
      TablesOk(mem, root) && BufferState(mem, root, base, area, ptr, size, frame)
    }

    constructor (mem: Memory, root: nat, base: int, ghost area: seq<Path>)
      requires TablesOk(mem, root) && AreaOk(mem, root, base, area)
      ensures Valid() && this.mem == mem && this.root == root && this.area == area && size == 0
    {
      this.mem, this.root, this.base, this.area := mem, root, base, area;
      ptr, size, frame := base, 0, 0;
    }

    /**
     `map_page`: from the buffer, or from a new one when the buffer is empty or short. `first` is where
     `alloc_consecutive_pages` finds sixteen frames, negative when it finds none. It succeeds exactly when it gets a new
     buffer or the old one has a page for every missing table, and then only the page and the buffer's own pages
     translate otherwise; without a new buffer, the page alone.
     */
    method MapPage(va: int, index: nat, first: int) returns (ok: bool)
      requires Valid() && PagePath(PathOf(va)) && PathOf(va) !in area
      requires first < 0 || NewFrames(mem, root, first, frame, size / 4096)
      modifies `mem, `ptr, `size, `frame
      ensures Valid()
      ensures ok <==> first >= 0 || old(size) / 4096 >= MissingTables(old(mem), root, PathOf(va))
      ensures ok ==> Follow(mem, root, PathOf(va)) == Frame(index % 0x100_0000_0000) && Protected(mem, root, PathOf(va))
      ensures !ok ==> Follow(mem, root, PathOf(va)) == Follow(old(mem), root, PathOf(va))
      ensures KeptBeside(old(mem), mem, root, PathOf(va), area)
      ensures RightsKept(old(mem), mem, root, area + [PathOf(va)])
      ensures old(size) != 0 && old(size) / 4096 >= MissingTables(old(mem), root, PathOf(va)) ==>
                Mapped(old(mem), mem, root, PathOf(va), Frame(index % 0x100_0000_0000))
    {
      ghost var path, mem0 := PathOf(va), mem;
      NamesPath(va, path);
      if size != 0 {
        ok, mem, ptr, size, frame := MapFrom(mem, root, va, index, base, ptr, size, path, area, frame);
        RightsThrough(mem0, mem0, mem, root, [], [path], area + [path]);
        if ok {
          return;
        }
        assert Follow(mem, root, path) == Follow(mem0, root, path);
      }
      ok, mem, ptr, size, frame := Retry(mem, root, va, index, base, ptr, size, first, path, area);
    }

    /** `unmap_page` of a page outside the buffer. */
    method UnmapPage(va: int)
      requires Valid() && PagePath(PathOf(va)) && PathOf(va) !in area
      modifies `mem
      ensures Valid() && Mapped(old(mem), mem, root, PathOf(va), Missing)
    {
      ghost var path := PathOf(va);
      NamesPath(va, path);
      ghost var mem0 := mem;
      mem := UnmapFrom(mem, root, va, path);
      assert Tables(mem0, mem, root);
      AreaKept(mem0, mem, root, base, area);
      BufferAfterLeaf(mem0, mem, root, path, Rest(area, size), frame);
    }
  }
}
