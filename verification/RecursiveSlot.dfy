/** The virtual addresses at which the recursive slot shows each level's entries, and what the hardware finds there. */
module RecursiveSlot {
  import opened PageTables

  const WORD := 0x1_0000_0000_0000_0000   // 64-bit addresses wrap here

  function Index4(va: int): int { (va / 0x80_0000_0000) % 512 }
  function Index3(va: int): int { (va / 0x4000_0000) % 512 }
  function Index2(va: int): int { (va / 0x20_0000) % 512 }
  function Index1(va: int): int { (va / 0x1000) % 512 }
  function Offset(va: int): int { va % 0x1000 }

  /** The indices the hardware takes from an address; bits 48 and up do not matter to it. */
  function PathOf(va: int): (p: Path)
    ensures |p| == 4 && Indices(p)
  {
    [Index4(va), Index3(va), Index2(va), Index1(va)]
  }

  /** The frame an address translates to. */
  function WalkTo(mem: Memory, root: nat, va: int): Frame
  {
    Follow(mem, root, PathOf(va))
  }

  // ----- the address arithmetic of paging_manager

  function GetPml4e(va: int): int
  {
    (0xffff_ffff_ffff_f000 + 8 * Index4(va)) % WORD
  }

  function GetPdpe(va: int): int
  {
    (0xffff_ffff_ffe0_0000 + 0x1000 * Index4(va) + 8 * Index3(va)) % WORD
  }

  function GetPde(va: int): int
  {
    (0xffff_ffff_c000_0000 + 0x20_0000 * Index4(va) + 0x1000 * Index3(va) + 8 * Index2(va)) % WORD
  }

  function GetPte(va: int): int
  {
    (0xffff_ff80_0000_0000 + 0x4000_0000 * Index4(va) + 0x20_0000 * Index3(va) + 0x1000 * Index2(va) + 8 * Index1(va)) % WORD
  }

  /** The pointer the kernel uses for the entry of `va` at depth `k` (0 is the PML4's entry, 3 the page's). */
  function Pointer(va: int, k: int): int
    requires 0 <= k < 4
  {
    if k == 0 then GetPml4e(va) else if k == 1 then GetPdpe(va) else if k == 2 then GetPde(va) else GetPte(va)
  }

  lemma Peel1(q: int, i: int, o: int)
    requires 0 <= q && 0 <= i < 512 && 0 <= o < 0x1000
    ensures Index1(0x20_0000 * q + 0x1000 * i + o) == i && Offset(0x20_0000 * q + 0x1000 * i + o) == o
  {
  }

  lemma Peel2(q: int, i: int, r: int)
    requires 0 <= q && 0 <= i < 512 && 0 <= r < 0x20_0000
    ensures Index2(0x4000_0000 * q + 0x20_0000 * i + r) == i
  {
    assert (0x4000_0000 * q + 0x20_0000 * i + r) / 0x20_0000 == 0x200 * q + i;
  }

  lemma Peel3(q: int, i: int, r: int)
    requires 0 <= q && 0 <= i < 512 && 0 <= r < 0x4000_0000
    ensures Index3(0x80_0000_0000 * q + 0x4000_0000 * i + r) == i
  {
    assert (0x80_0000_0000 * q + 0x4000_0000 * i + r) / 0x4000_0000 == 0x200 * q + i;
  }

  lemma Peel4(q: int, i: int, r: int)
    requires 0 <= q && 0 <= i < 512 && 0 <= r < 0x80_0000_0000
    ensures Index4(0x1_0000_0000_0000 * q + 0x80_0000_0000 * i + r) == i
  {
    assert (0x1_0000_0000_0000 * q + 0x80_0000_0000 * i + r) / 0x80_0000_0000 == 0x200 * q + i;
  }

  function Join(high: int, a: int, b: int, c: int, d: int, o: int): int
  {
    0x1_0000_0000_0000 * high + 0x80_0000_0000 * a + 0x4000_0000 * b + 0x20_0000 * c + 0x1000 * d + o
  }

  /** An address put together from its indices comes apart into them. */
  lemma Split(high: int, a: int, b: int, c: int, d: int, o: int)
    requires 0 <= high && 0 <= a < 512 && 0 <= b < 512 && 0 <= c < 512 && 0 <= d < 512 && 0 <= o < 0x1000
    ensures PathOf(Join(high, a, b, c, d, o)) == [a, b, c, d] && Offset(Join(high, a, b, c, d, o)) == o
  {
    Split12(high, a, b, c, d, o);
    Split34(high, a, b, c, d, o);
  }

  lemma Split12(high: int, a: int, b: int, c: int, d: int, o: int)
    requires 0 <= high && 0 <= a < 512 && 0 <= b < 512 && 0 <= c < 512 && 0 <= d < 512 && 0 <= o < 0x1000
    ensures var va := Join(high, a, b, c, d, o); Index2(va) == c && Index1(va) == d && Offset(va) == o
  {
    var q2 := 0x4_0000 * high + 0x200 * a + b;
    var q1 := 0x200 * q2 + c;
    var r := 0x1000 * d + o;
    assert Join(high, a, b, c, d, o) == 0x20_0000 * q1 + 0x1000 * d + o;
    assert Join(high, a, b, c, d, o) == 0x4000_0000 * q2 + 0x20_0000 * c + r;
    Peel1(q1, d, o);
    Peel2(q2, c, r);
  }

  lemma Split34(high: int, a: int, b: int, c: int, d: int, o: int)
    requires 0 <= high && 0 <= a < 512 && 0 <= b < 512 && 0 <= c < 512 && 0 <= d < 512 && 0 <= o < 0x1000
    ensures var va := Join(high, a, b, c, d, o); Index4(va) == a && Index3(va) == b
  {
    var q3 := 0x200 * high + a;
    var r3 := 0x20_0000 * c + 0x1000 * d + o;
    var r4 := 0x4000_0000 * b + r3;
    assert Join(high, a, b, c, d, o) == 0x80_0000_0000 * q3 + 0x4000_0000 * b + r3;
    assert Join(high, a, b, c, d, o) == 0x1_0000_0000_0000 * high + 0x80_0000_0000 * a + r4;
    Peel3(q3, b, r3);
    Peel4(high, a, r4);
  }

  lemma PointersJoin(va: int)
    ensures GetPml4e(va) == Join(0xffff, SELF, SELF, SELF, SELF, 8 * Index4(va))
    ensures GetPdpe(va) == Join(0xffff, SELF, SELF, SELF, Index4(va), 8 * Index3(va))
    ensures GetPde(va) == Join(0xffff, SELF, SELF, Index4(va), Index3(va), 8 * Index2(va))
    ensures GetPte(va) == Join(0xffff, SELF, Index4(va), Index3(va), Index2(va), 8 * Index1(va))
  {
  }

  lemma PointerPaths(va: int)
    ensures PathOf(GetPml4e(va)) == [SELF, SELF, SELF, SELF] && Offset(GetPml4e(va)) == 8 * Index4(va)
    ensures PathOf(GetPdpe(va)) == [SELF, SELF, SELF, Index4(va)] && Offset(GetPdpe(va)) == 8 * Index3(va)
    ensures PathOf(GetPde(va)) == [SELF, SELF, Index4(va), Index3(va)] && Offset(GetPde(va)) == 8 * Index2(va)
    ensures PathOf(GetPte(va)) == [SELF, Index4(va), Index3(va), Index2(va)] && Offset(GetPte(va)) == 8 * Index1(va)
  {
    PointersJoin(va);
    Split(0xffff, SELF, SELF, SELF, SELF, 8 * Index4(va));
    Split(0xffff, SELF, SELF, SELF, Index4(va), 8 * Index3(va));
    Split(0xffff, SELF, SELF, Index4(va), Index3(va), 8 * Index2(va));
    Split(0xffff, SELF, Index4(va), Index3(va), Index2(va), 8 * Index1(va));
  }

  /** A step through the recursive slot leads back to the PML4. */
  lemma {:induction false} SelfStep(mem: Memory, root: nat, p: Path)
    requires SelfMapped(mem, root)
    ensures Follow(mem, root, [SELF] + p) == Follow(mem, root, p)
  {
    if p == [] {
      assert ([SELF] + p)[..0] == [];
    } else {
      assert ([SELF] + p)[..|p|] == [SELF] + p[..|p| - 1];
      SelfStep(mem, root, p[..|p| - 1]);
    }
  }

  /** The pointer's own path: through the recursive slot often enough to stop one level early. */
  lemma PointerPath(va: int, k: int)
    requires 0 <= k < 4
    ensures PathOf(Pointer(va, k)) == [SELF, SELF, SELF, SELF][..4 - k] + PathOf(va)[..k]
    ensures Offset(Pointer(va, k)) == 8 * PathOf(va)[k]
  {
    PointerPaths(va);
  }

  lemma {:induction false} SelfSteps(mem: Memory, root: nat, n: nat, p: Path)
    requires SelfMapped(mem, root) && n <= 4
    ensures Follow(mem, root, [SELF, SELF, SELF, SELF][..n] + p) == Follow(mem, root, p)
  {
    if n == 0 {
      assert [SELF, SELF, SELF, SELF][..n] + p == p;
    } else {
      assert [SELF, SELF, SELF, SELF][..n] + p == [SELF] + ([SELF, SELF, SELF, SELF][..n - 1] + p);
      SelfStep(mem, root, [SELF, SELF, SELF, SELF][..n - 1] + p);
      SelfSteps(mem, root, n - 1, p);
    }
  }

  /**
   For every address, at every depth: walking the pointer reaches a frame exactly when the walk of the address gets
   as far as that table, the frame is that table's, and the offset picks the entry the walk of the address uses.
   */
  lemma PointerReachesEntry(mem: Memory, root: nat, va: int, k: int)
    requires SelfMapped(mem, root) && 0 <= k < 4
    ensures WalkTo(mem, root, Pointer(va, k)) == Follow(mem, root, PathOf(va)[..k])
    ensures Offset(Pointer(va, k)) == 8 * PathOf(va)[k]
  {
    PointerPath(va, k);
    SelfSteps(mem, root, 4 - k, PathOf(va)[..k]);
  }

  // ----- access through the pointers

  /** The entry an address names; dereferencing it faults unless the walk gets there. */
  function Load(mem: Memory, root: nat, ptr: int): Entry
    requires WalkTo(mem, root, ptr).Frame?
  {
    Read(mem, WalkTo(mem, root, ptr).frame, Offset(ptr) / 8)
  }

  function Store(mem: Memory, root: nat, ptr: int, e: Entry): Memory
    requires WalkTo(mem, root, ptr).Frame?
  {
    mem[(WalkTo(mem, root, ptr).frame, Offset(ptr) / 8) := e]
  }

  /** Through its pointer, the kernel reads the entry the hardware would read there. */
  lemma LoadIsEntry(mem: Memory, root: nat, va: int, k: int)
    requires SelfMapped(mem, root) && 0 <= k < 4
    ensures WalkTo(mem, root, Pointer(va, k)) == Follow(mem, root, PathOf(va)[..k])
    ensures WalkTo(mem, root, Pointer(va, k)).Frame? ==>
              Load(mem, root, Pointer(va, k)) == Read(mem, Follow(mem, root, PathOf(va)[..k]).frame, PathOf(va)[k])
    ensures WalkTo(mem, root, Pointer(va, k)).Frame? && Load(mem, root, Pointer(va, k)).present ==>
              Follow(mem, root, PathOf(va)[..k + 1]) == Frame(Load(mem, root, Pointer(va, k)).frame)
    ensures WalkTo(mem, root, Pointer(va, k)).Frame? && !Load(mem, root, Pointer(va, k)).present ==>
              Follow(mem, root, PathOf(va)[..k + 1]) == Missing
  {
    PointerReachesEntry(mem, root, va, k);
    assert PathOf(va)[..k + 1][..k] == PathOf(va)[..k];
  }

  /** The presence checks of `get_physical_address` down to depth `k`, top first; no pointer they dereference faults. */
  function SoftWalk(mem: Memory, root: nat, va: int, k: int): (f: Frame)
    requires SelfMapped(mem, root) && 0 <= k <= 4
    ensures f == Follow(mem, root, PathOf(va)[..k])
  {
    if k == 0 then Frame(root)
    else if SoftWalk(mem, root, va, k - 1) == Missing then
      MissingBeyond(mem, root, PathOf(va)[..k - 1], PathOf(va)[..k]);
      Missing
    else
      LoadIsEntry(mem, root, va, k - 1);
      var e := Load(mem, root, Pointer(va, k - 1));
      if e.present then Frame(e.frame) else Missing
  }

  /** `get_physical_address` is the hardware's translation, with 0 for an address that has none. */
  function GetPhysicalAddress(mem: Memory, root: nat, va: int): (pa: int)
    requires SelfMapped(mem, root)
    ensures pa == match WalkTo(mem, root, va) case Missing => 0 case Frame(f) => f * 4096 + Offset(va)
  {
    assert PathOf(va)[..4] == PathOf(va);
    match SoftWalk(mem, root, va, 4)
    case Missing => 0
    case Frame(f) => f * 4096 + Offset(va)
  }

  // ----- addresses and their paths

  function IndexAt(va: int, k: int): int
  {
    if k == 0 then Index4(va) else if k == 1 then Index3(va) else if k == 2 then Index2(va) else Index1(va)
  }

  /** `path` is the one the hardware takes for `va`. */
  predicate Names(va: int, path: Path)
  {
    |path| == 4 && forall k {:trigger IndexAt(va, k)} :: 0 <= k < 4 ==> path[k] == IndexAt(va, k)
  }

  lemma NamesPath(va: int, path: Path)
    ensures Names(va, path) <==> path == PathOf(va)
  {
    assert IndexAt(va, 0) == Index4(va) && IndexAt(va, 1) == Index3(va) && IndexAt(va, 2) == Index2(va) &&
        IndexAt(va, 3) == Index1(va);
  }

  predicate PageNames(ptr: int, k: int, path: Path)
  {
    Names(ptr + 4096 * k, path)
  }

  /** `pages` are the paths of the whole pages of a buffer. */
  predicate BufferAt(ptr: int, size: int, pages: seq<Path>)
  {
    && 0 <= size && |pages| == size / 4096
    && forall k {:trigger PageNames(ptr, k, pages[k])} :: 0 <= k < |pages| ==> PageNames(ptr, k, pages[k])
  }

  lemma BufferRest(ptr: int, size: int, pages: seq<Path>)
    requires BufferAt(ptr, size, pages) && 4096 <= size
    ensures Names(ptr, pages[0]) && BufferAt(ptr + 4096, size - 4096, pages[1..])
  {
    var ptr', pages' := ptr + 4096, pages[1..];
    forall k | 0 <= k < |pages'|
      ensures PageNames(ptr', k, pages'[k])
    {
      assert PageNames(ptr, k + 1, pages[k + 1]);
    }
    assert PageNames(ptr, 0, pages[0]);
  }
}
