/** `map_page` and `unmap_page`, working on the tables through the recursive slot. */
module PagingManager {
  import opened PageTables
  import opened RecursiveSlot
  import opened TableSteps

  /** Clear one frame, entry by entry. */
  method ClearFrame(mem: Memory, f: int) returns (mem': Memory)
    ensures Cleared(mem, mem', f)
  {
    mem' := mem;
    for i := 0 to ENTRIES
      invariant forall t, j :: Read(mem', t, j) == if t == f && 0 <= j < i then ZERO else Read(mem, t, j)
    {
      ghost var before := mem';
      mem' := mem'[(f, i) := ZERO];
      assert forall t, j :: Read(mem', t, j) == if t == f && j == i then ZERO else Read(before, t, j);
    }
  }

  // ----- access through the recursive slot

  /** Dereference the pointer to the entry of `va` at depth `k`. */
  method LoadEntry(mem: Memory, root: nat, va: int, k: int, ghost path: Path) returns (e: Entry)
    requires SelfMapped(mem, root) && 0 <= k < 4 && Names(va, path) && Follow(mem, root, path[..k]).Frame?
    ensures e == Read(mem, Follow(mem, root, path[..k]).frame, path[k]) == EntryOf(mem, root, path[..k + 1])
    ensures Follow(mem, root, path[..k + 1]) == if e.present then Frame(e.frame) else Missing
  {
    NamesPath(va, path);
    LoadIsEntry(mem, root, va, k);
    assert path[..k + 1][..k] == path[..k];
    e := Load(mem, root, Pointer(va, k));
  }

  /** Write through that pointer. */
  method StoreEntry(mem: Memory, root: nat, va: int, k: int, e: Entry, ghost path: Path) returns (mem': Memory)
    requires SelfMapped(mem, root) && 0 <= k < 4 && Names(va, path) && Follow(mem, root, path[..k]).Frame?
    ensures mem' == mem[(Follow(mem, root, path[..k]).frame, path[k]) := e]
  {
    NamesPath(va, path);
    PointerReachesEntry(mem, root, va, k);
    mem' := Store(mem, root, Pointer(va, k), e);
  }

  /** Clear the page at `ptr`. */
  method ClearPage(mem: Memory, root: nat, ptr: int, ghost page: Path) returns (mem': Memory)
    requires Names(ptr, page) && Follow(mem, root, page).Frame?
    ensures Cleared(mem, mem', Follow(mem, root, page).frame)
  {
    NamesPath(ptr, page);
    mem' := ClearFrame(mem, WalkTo(mem, root, ptr).frame);
  }

  /** The entry `map_page` writes above a new table: address, writable, present and executable; the rest stays. */
  function TableEntry(e: Entry, frame: nat): Entry
  {
    e.(frame := frame % 0x100_0000_0000, writable := true, present := true, noExecute := false)
  }

  /** The entry it writes for the page: read only and not executable. */
  function PageEntry(e: Entry, index: nat): Entry
  {
    e.(frame := index % 0x100_0000_0000, writable := false, present := true, noExecute := true)
  }

  /** The page's entry is present, read-only and not executable. */
  ghost predicate Protected(mem: Memory, root: nat, path: Path)
    requires |path| == 4
  {
    && Follow(mem, root, path[..3]).Frame?
    && var e := Read(mem, Follow(mem, root, path[..3]).frame, path[3]);
       e.present && !e.writable && e.noExecute
  }

  lemma TableEntryNames(e: Entry, frame: nat)
    requires frame < FRAMES && !e.present
    ensures TableEntry(e, frame).frame == frame && TableEntry(e, frame).present && EntryRights(e, TableEntry(e, frame))
  {
  }

  /** Clear the first page of the buffer and hang it on the absent entry of `va` at depth `k`. */
  method HangTable(mem: Memory, root: nat, va: int, k: int, ptr: int, frame: nat, e: Entry,
                   ghost mem0: Memory, ghost path: Path, ghost pages0: seq<Path>, ghost pages: seq<Path>, ghost frame0: nat)
    returns (mem': Memory)
    requires 0 <= k < 3 && PagePath(path) && Names(va, path) && pages != [] && Names(ptr, pages[0])
    requires Built(mem0, mem, root, path, k, pages0, pages, frame0, frame)
    requires Follow(mem, root, path[..k + 1]) == Missing && e == EntryOf(mem, root, path[..k + 1])
    ensures Built(mem0, mem', root, path, k + 1, pages0, pages[1..], frame0, frame + 1)
  {
    assert Follow(mem, root, pages[0]) == Frame(frame + 0);
    TableEntryNames(e, frame);
    var mem1 := ClearPage(mem, root, ptr, pages[0]);
    ghost var grown := BuildGrown(mem0, mem, mem1, root, path, k, pages0, pages, frame0, frame, TableEntry(e, frame));
    mem' := StoreEntry(mem1, root, va, k, TableEntry(e, frame), path);
  }

  /**
   The buffer of `pages` whole pages from `frame` on was short: `map_page` gave up with tables still missing, having
   used every page. What was there stays, and so do the frames it did not have.
   */
  ghost predicate GaveUp(mem0: Memory, mem: Memory, root: nat, path: Path, pages: int, frame: nat)
    requires |path| == 4
  {
    && TablesOk(mem, root) && SamePages(mem0, mem, root) && Grown(mem0, mem, root) &&
        UnusedKept(mem0, mem, root, frame, frame + pages)
    && MissingTables(mem0, root, path) - MissingTables(mem, root, path) == pages && MissingTables(mem, root, path) > 0
    && RightsKept(mem0, mem, root, [])
  }

  lemma BuiltShort(mem0: Memory, mem: Memory, root: nat, path: Path, k: int, pages0: seq<Path>, pages: seq<Path>,
      frame0: nat, frame: nat)
    requires PagePath(path) && 0 <= k < 3 && Built(mem0, mem, root, path, k, pages0, pages, frame0, frame)
    requires pages == [] && Follow(mem, root, path[..k + 1]) == Missing
    ensures GaveUp(mem0, mem, root, path, |pages0|, frame0) && |pages0| < MissingTables(mem0, root, path)
  {
  }

  lemma BuiltAll(mem0: Memory, mem: Memory, root: nat, path: Path, pages0: seq<Path>, pages: seq<Path>, frame0: nat,
      frame: nat)
    requires PagePath(path) && Built(mem0, mem, root, path, 3, pages0, pages, frame0, frame)
    ensures MissingTables(mem, root, path) == 0 && |pages0| - |pages| == MissingTables(mem0, root, path)
  {
    forall j | 0 < j <= 3 ensures Follow(mem, root, path[..j]).Frame? {
      if Follow(mem, root, path[..j]) == Missing {
        assert path[..3][..j] == path[..j];
        MissingBeyond(mem, root, path[..j], path[..3]);
      }
    }
  }

  /** Of a buffer at `ptr0` with `pages0`, `pages` are left at `ptr`. */
  predicate Used(ptr0: int, size0: int, pages0: seq<Path>, ptr: int, size: int, pages: seq<Path>)
  {
    BufferAt(ptr, size, pages) && ptr - ptr0 == size0 - size == 4096 * (|pages0| - |pages|)
  }

  /** A page is taken off the buffer and hung. */
  method TakeTable(mem: Memory, root: nat, va: int, k: int, ptr: int, size: int, frame: nat, e: Entry,
                   ghost mem0: Memory, ghost path: Path, ghost pages0: seq<Path>, ghost pages: seq<Path>, ghost frame0: nat)
    returns (mem': Memory, ghost pages': seq<Path>)
    requires 0 <= k < 3 && PagePath(path) && Names(va, path) && BufferAt(ptr, size, pages) && size >= 4096
    requires Built(mem0, mem, root, path, k, pages0, pages, frame0, frame)
    requires Follow(mem, root, path[..k + 1]) == Missing && e == EntryOf(mem, root, path[..k + 1])
    ensures Built(mem0, mem', root, path, k + 1, pages0, pages', frame0, frame + 1)
    ensures |pages| == |pages'| + 1 && BufferAt(ptr + 4096, size - 4096, pages')
  {
    BufferRest(ptr, size, pages);
    pages' := pages[1..];
    mem' := HangTable(mem, root, va, k, ptr, frame, e, mem0, path, pages0, pages, frame0);
  }

  /**
   One of the three table steps of `map_page`: if the entry of `va` at depth `k` is absent, take a page off the
   buffer, clear it and hang it there; fail, changing nothing, if the buffer has no whole page.
   */
  method EnsureTable(mem: Memory, root: nat, va: int, k: int, ptr: int, size: int, frame: nat, ghost mem0: Memory,
      ghost path: Path, ghost ptr0: int, ghost size0: int, ghost pages0: seq<Path>, ghost pages: seq<Path>, ghost frame0: nat)
    returns (ok: bool, mem': Memory, ptr': int, size': int, frame': nat, ghost pages': seq<Path>)
    requires 0 <= k < 3 && PagePath(path) && Names(va, path) && Used(ptr0, size0, pages0, ptr, size, pages)
    requires Built(mem0, mem, root, path, k, pages0, pages, frame0, frame)
    ensures ok <==> Follow(mem, root, path[..k + 1]).Frame? || size >= 4096
    ensures ok ==> Built(mem0, mem', root, path, k + 1, pages0, pages', frame0, frame')
    ensures Used(ptr0, size0, pages0, ptr', size', pages')
    ensures Follow(mem, root, path[..k + 1]).Frame? || !ok ==> mem' == mem && ptr' == ptr && size' == size
    ensures !ok ==> GaveUp(mem0, mem', root, path, |pages0|, frame0) && |pages0| < MissingTables(mem0, root, path) && pages' == []
  {
    ok, mem', ptr', size', frame', pages' := true, mem, ptr, size, frame, pages;
    var e := LoadEntry(mem, root, va, k, path);
    if e.present {
      BuildPresent(mem0, mem, root, path, k, pages0, pages, frame0, frame);
      return;
    }
    if size < 4096 {
      BuiltShort(mem0, mem, root, path, k, pages0, pages, frame0, frame);
      ok := false;
      return;
    }
    mem', pages' := TakeTable(mem, root, va, k, ptr, size, frame, e, mem0, path, pages0, pages, frame0);
    ptr', size', frame' := ptr + 4096, size - 4096, frame + 1;
  }

  /** The first two table steps of `map_page`: the PDPT and the PD. */
  method BuildUpper(mem: Memory, root: nat, va: int, ptr: int, size: int, frame: nat, ghost path: Path,
      ghost pages: seq<Path>)
    returns (ok: bool, mem': Memory, ptr': int, size': int, frame': nat, ghost pages': seq<Path>)
    requires TablesOk(mem, root) && PagePath(path) && Names(va, path)
    requires BufferAt(ptr, size, pages) && BufferOk(mem, root, pages, frame)
    ensures ok ==> Built(mem, mem', root, path, 2, pages, pages', frame, frame')
    ensures Used(ptr, size, pages, ptr', size', pages')
    ensures !ok ==> GaveUp(mem, mem', root, path, |pages|, frame) && |pages| < MissingTables(mem, root, path) && pages' == []
  {
    BuildStart(mem, root, path, pages, frame);
    ok, mem', ptr', size', frame', pages' := EnsureTable(mem, root, va, 0, ptr, size, frame, mem, path, ptr, size, pages, pages, frame);
    if ok {
      ok, mem', ptr', size', frame', pages' :=
        EnsureTable(mem', root, va, 1, ptr', size', frame', mem, path, ptr, size, pages, pages', frame);
    }
  }

  /** The table steps of `map_page`, from the PDPT down to the PT. */
  method BuildTables(mem: Memory, root: nat, va: int, ptr: int, size: int, frame: nat, ghost path: Path,
      ghost pages: seq<Path>)
    returns (ok: bool, mem': Memory, ptr': int, size': int, frame': nat, ghost pages': seq<Path>)
    requires TablesOk(mem, root) && PagePath(path) && Names(va, path)
    requires BufferAt(ptr, size, pages) && BufferOk(mem, root, pages, frame)
    ensures ok <==> |pages| >= MissingTables(mem, root, path)
    ensures ok ==> Built(mem, mem', root, path, 3, pages, pages', frame, frame') && |pages| - |pages'| == MissingTables(mem, root, path)
    ensures Used(ptr, size, pages, ptr', size', pages')
    ensures !ok ==> GaveUp(mem, mem', root, path, |pages|, frame) && pages' == []
  {
    ok, mem', ptr', size', frame', pages' := BuildUpper(mem, root, va, ptr, size, frame, path, pages);
    if ok {
      ok, mem', ptr', size', frame', pages' :=
        EnsureTable(mem', root, va, 2, ptr', size', frame', mem, path, ptr, size, pages, pages', frame);
    }
    if ok {
      BuiltAll(mem, mem', root, path, pages, pages', frame, frame');
    }
  }

  /** What `map_page` leaves of a buffer that had a page for every missing table. */
  ghost predicate BufferLeft(mem: Memory, mem': Memory, root: nat, path: Path, pages: seq<Path>, frame: nat, ptr: int,
      size: int)
    requires |path| == 4
  {
    var used := MissingTables(mem, root, path);
    && 0 <= used <= |pages| && BufferAt(ptr, size, pages[used..])
    && (path !in pages ==> BufferOk(mem', root, pages[used..], frame + used))
    && UnusedKept(mem, mem', root, frame, frame + used)
  }

  lemma LeftAfterLeaf(mem: Memory, built: Memory, mem': Memory, root: nat, path: Path, pages: seq<Path>,
      pages': seq<Path>,
      frame: nat, frame': nat, ptr: int, size: int)
    requires PagePath(path) && Built(mem, built, root, path, 3, pages, pages', frame, frame') &&
        LeafOnly(built, mem', root, path)
    requires |pages| - |pages'| == MissingTables(mem, root, path) && BufferAt(ptr, size, pages')
    ensures BufferLeft(mem, mem', root, path, pages, frame, ptr, size)
  {
    if path !in pages {
      assert path !in pages';
      BufferAfterLeaf(built, mem', root, path, pages', frame');
    }
    assert pages' == pages[MissingTables(mem, root, path)..];
    UnusedAfterLeaf(mem, built, mem', root, path, frame, frame');
  }

  lemma UnusedAfterLeaf(mem: Memory, built: Memory, mem': Memory, root: nat, path: Path, lo: int, hi: int)
    requires UnusedKept(mem, built, root, lo, hi) && LeafOnly(built, mem', root, path)
    ensures UnusedKept(mem, mem', root, lo, hi)
  {
    forall g | Unused(mem, root, g) && !(lo <= g < hi) ensures Unused(mem', root, g) {
      assert Unused(built, root, g);
    }
  }

  lemma TablesAfterLeaf(mem: Memory, built: Memory, mem': Memory, root: nat, path: Path)
    requires Grown(mem, built, root) && LeafOnly(built, mem', root, path) && |path| == 4
    ensures Tables(mem, mem', root)
  {
  }

  /** Every table that was there is there still. */
  ghost predicate Tables(mem: Memory, mem': Memory, root: nat)
  {
    forall q :: IsPath(q) && |q| <= 3 && Follow(mem, root, q).Frame? ==> Follow(mem', root, q) == Follow(mem, root, q)
  }

  /**
   `map_page` with a buffer. It succeeds exactly when the buffer has a page for every missing table; then only the
   page's own translation changes, and the rest of the buffer serves the next call. Otherwise no translation changes, and
   the tables it could build stay.
   */
  method MapInto(mem: Memory, root: nat, va: int, index: nat, ptr: int, size: int, frame: nat, ghost path: Path,
      ghost pages: seq<Path>)
    returns (ok: bool, mem': Memory, ptr': int, size': int)
    requires TablesOk(mem, root) && PagePath(path) && Names(va, path)
    requires BufferAt(ptr, size, pages) && BufferOk(mem, root, pages, frame)
    ensures ok <==> |pages| >= MissingTables(mem, root, path)
    ensures ok ==> Mapped(mem, mem', root, path, Frame(index % 0x100_0000_0000)) && Protected(mem', root, path)
    ensures ok ==> ptr' - ptr == size - size' == 4096 * MissingTables(mem, root, path)
    ensures ok ==> BufferLeft(mem, mem', root, path, pages, frame, ptr', size') && Tables(mem, mem', root)
    ensures ok && MissingTables(mem, root, path) == 0 ==> LeafOnly(mem, mem', root, path)
    ensures ok ==> RightsKept(mem, mem', root, [path]) && EntryOf(mem', root, path).user == EntryOf(mem, root, path).user
    ensures !ok ==> GaveUp(mem, mem', root, path, |pages|, frame)
    ensures !ok ==> ptr' - ptr == size - size' == 4096 * |pages| && 0 <= size' < 4096
  {
    var built, frame';
    ghost var pages';
    ok, built, ptr', size', frame', pages' := BuildTables(mem, root, va, ptr, size, frame, path, pages);
    mem' := built;
    if !ok {
      return;
    }
    mem' := PointPage(built, root, va, index, path);
    MappedAfter(mem, built, mem', root, path, Frame(index % 0x100_0000_0000));
    LeftAfterLeaf(mem, built, mem', root, path, pages, pages', frame, frame', ptr', size');
    TablesAfterLeaf(mem, built, mem', root, path);
    LeafRights(built, mem', root, path);
    RightsThrough(mem, built, mem', root, [], [path], [path]);
    assert EntryRights(EntryOf(mem, root, path), EntryOf(built, root, path));
  }

  /** The last step of `map_page`: the page's own entry. */
  method PointPage(mem: Memory, root: nat, va: int, index: nat, ghost path: Path) returns (mem': Memory)
    requires TablesOk(mem, root) && PagePath(path) && Names(va, path) && Follow(mem, root, path[..3]).Frame?
    ensures LeafOnly(mem, mem', root, path) && Mapped(mem, mem', root, path, Frame(index % 0x100_0000_0000))
    ensures Protected(mem', root, path) && EntryOf(mem', root, path).user == EntryOf(mem, root, path).user
  {
    assert path[..4] == path;
    var e := LoadEntry(mem, root, va, 3, path);
    LeafStore(mem, root, path, PageEntry(e, index));
    mem' := StoreEntry(mem, root, va, 3, PageEntry(e, index), path);
    assert IsPath(path[..3]) && path[..3] != path;
  }

  /** The test of the three upper levels, from the top. */
  method TableThere(mem: Memory, root: nat, va: int, ghost path: Path) returns (there: bool)
    requires TablesOk(mem, root) && PagePath(path) && Names(va, path)
    ensures there <==> Follow(mem, root, path[..3]).Frame?
    ensures !there ==> Follow(mem, root, path) == Missing
  {
    assert path[..0] == [] && path[..4] == path;
    var e0 := LoadEntry(mem, root, va, 0, path);
    if !e0.present {
      MissingBeyond(mem, root, path[..1], path);
      assert path[..3][..1] == path[..1];
      MissingBeyond(mem, root, path[..1], path[..3]);
      return false;
    }
    var e1 := LoadEntry(mem, root, va, 1, path);
    if !e1.present {
      MissingBeyond(mem, root, path[..2], path);
      assert path[..3][..2] == path[..2];
      MissingBeyond(mem, root, path[..2], path[..3]);
      return false;
    }
    var e2 := LoadEntry(mem, root, va, 2, path);
    if !e2.present {
      MissingBeyond(mem, root, path[..3], path);
    }
    there := e2.present;
  }

  /** `unmap_page`: clear the page's entry if its table exists. */
  method UnmapFrom(mem: Memory, root: nat, va: int, ghost path: Path) returns (mem': Memory)
    requires TablesOk(mem, root) && PagePath(path) && Names(va, path)
    ensures Mapped(mem, mem', root, path, Missing) && LeafOnly(mem, mem', root, path)
    ensures EntryOf(mem', root, path) == if Follow(mem, root, path[..3]).Frame? then ZERO else EntryOf(mem, root, path)
  {
    mem' := mem;
    var there := TableThere(mem, root, va, path);
    if there {
      LeafStore(mem, root, path, ZERO);
      mem' := StoreEntry(mem, root, va, 3, ZERO, path);
    }
  }

  /** A failed call and another one, with a buffer of its own, map the page as one call would have. */
  method MapTwice(mem: Memory, root: nat, va: int, index: nat, ptr: int, size: int, frame: nat, ptr2: int, size2: int,
      frame2: nat,
      ghost path: Path, ghost pages: seq<Path>, ghost pages2: seq<Path>)
    returns (ok: bool, mem': Memory)
    requires TablesOk(mem, root) && PagePath(path) && Names(va, path)
    requires BufferAt(ptr, size, pages) && BufferOk(mem, root, pages, frame)
    requires BufferAt(ptr2, size2, pages2) && BufferOk(mem, root, pages2, frame2)
    requires frame + |pages| <= frame2 || frame2 + |pages2| <= frame
    ensures ok <==> |pages| + |pages2| >= MissingTables(mem, root, path)
    ensures |pages2| >= 3 ==> ok
    ensures ok ==> Mapped(mem, mem', root, path, Frame(index % 0x100_0000_0000)) && Protected(mem', root, path)
    ensures ok ==> RightsKept(mem, mem', root, [path])
  {
    var ptr', size';
    ok, mem', ptr', size' := MapInto(mem, root, va, index, ptr, size, frame, path, pages);
    if !ok {
      var mem1 := mem';
      OtherBuffer(mem, mem1, root, path, |pages|, frame, pages2, frame2);
      ok, mem', ptr', size' := MapInto(mem1, root, va, index, ptr2, size2, frame2, path, pages2);
      if ok {
        MappedAfter(mem, mem1, mem', root, path, Frame(index % 0x100_0000_0000));
        RightsThrough(mem, mem1, mem', root, [], [path], [path]);
      }
    }
  }

  lemma OtherBuffer(mem: Memory, mem1: Memory, root: nat, path: Path, used: int, frame: nat, pages2: seq<Path>,
      frame2: nat)
    requires PagePath(path) && GaveUp(mem, mem1, root, path, used, frame) && BufferOk(mem, root, pages2, frame2)
    requires frame + used <= frame2 || frame2 + |pages2| <= frame
    ensures BufferOk(mem1, root, pages2, frame2)
  {
  }
}
