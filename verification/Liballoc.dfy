/**
 liballoc: `kmalloc`, `kfree` and `krealloc` over the linked records of `HeapRecords`.
 Pointers are integers and 0 is NULL. The page hook is a parameter: the address `liballoc_alloc` would
 return if this call asked for pages. A header is read from memory like anything else: what `kfree` and `krealloc` do
 with a magic number that no live header holds is outside the model, and they say so.
 */
module Liballoc {
  import opened HeapView
  import opened HeapRecords
  import opened HeapImage
  import opened HeapSearch
  import opened Sums

  /** The low bytes of the magic survived, so the header was probably overrun by a few bytes. */
  predicate LooksOverrun(magic: int)
  {
    || magic % 0x1000000 == MAGIC % 0x1000000
    || magic % 0x10000 == MAGIC % 0x10000
    || magic % 0x100 == MAGIC % 0x100
  }

  lemma PlaceLinked(m: Memory, root: int, bet: int, runs: seq<Run>, k: int, j: int, b: Block)
    returns (m': Memory, runs': seq<Run>)
    requires LinkedState(m, root, bet, runs) && 0 <= k < |runs| && PlacedIn(runs[k], j, b)
    ensures m' == PlacedMemory(m, runs[k].base, PrevAddr(runs[k].blocks, j), NextAddr(runs[k].blocks, j), b)
    ensures runs' == InsertBlock(runs, k, j, b)
    ensures LinkedState(m', root, bet, runs')
  {
    m' := InsertedMemory(m, runs[k], j, b);
    runs' := InsertBlock(runs, k, j, b);
    InsertRepresents(m, runs, k, j, b);
    InsertKeeps(runs, k, j, b);
    ListKept(runs, k, InsertAt(runs[k], j, b), bet);
  }

  /**
   Cases 2 to 4: follow the minors of `maj` and stop at the first gap of at least `need` bytes, which
   starts at `addr` and lies between the minors `prev` and `next`.
   */
  method FindGap(m: Memory, maj: int, need: int, ghost r: Run)
    returns (found: bool, prev: int, next: int, addr: int, ghost j: int)
    requires MinorsSpell(m.minors, r.base, r.blocks) && Distinct(r.blocks) && r.base == maj && maj in m.majors
    requires m.majors[maj].first == NextAddr(r.blocks, 0) && m.majors[maj].size == RunSize(r)
    requires m.majors[maj].usage == Usage(r) && RunSize(r) - Usage(r) >= need
    ensures found <==> Fits(r, need)
    ensures found ==> FirstGap(r, j, need) && addr == GapStart(r, j)
    ensures found ==> prev == PrevAddr(r.blocks, j) && next == NextAddr(r.blocks, j)
  {
    var bs := r.blocks;
    prev, next, addr, j := 0, 0, maj + MAJOR_SIZE, 0;
    var first := m.majors[maj].first;
    if first == 0 {
      // a brand new block
      assert bs == [];
      assert GapFits(r, 0, need);
      found := true;
      return;
    }
    next := first;
    if first - maj - MAJOR_SIZE >= need {
      // enough space before the first minor
      assert GapFits(r, 0, need);
      found := true;
      return;
    }
    var min := first;
    while min != 0
      invariant 0 <= j <= |bs|
      invariant min == NextAddr(bs, j)
      invariant forall i :: 0 <= i <= j ==> !GapFits(r, i, need)
      decreases |bs| - j
    {
      assert m.minors[bs[j].addr] == MinorRecord(r.base, bs, j);
      prev, addr := min, min + MINOR_SIZE + m.minors[min].size;
      next := m.minors[min].next;
      var stop := if next == 0 then maj + m.majors[maj].size else next;
      j := j + 1;
      assert next == 0 <==> j == |bs|;
      if stop - addr >= need {
        assert GapFits(r, j, need);
        found := true;
        return;
      }
      min := next;
    }
    assert j == |bs|;
    found := false;
  }

  /** Serving a request writes no byte but the distance in front of the new pointer. */
  predicate SameButSlot(bytes: map<int, int>, bytes': map<int, int>, p: int)
  {
    bytes' == bytes || (p != 0 && p - ALIGN_INFO in bytes' && bytes' == bytes[p - ALIGN_INFO := bytes'[p - ALIGN_INFO]])
  }

  /** The majors' headers once the new major follows the last one (or is the first). */
  function GrownList(majors: map<int, Major>, last: int, hook: int, pages: int): map<int, Major>
    requires last != 0 ==> last in majors
  {
    var majors1 := majors[hook := NewMajor(pages)];
    if last == 0 then majors1 else AppendMajor(majors1, last, hook)
  }

  lemma GrowLinked(m: Memory, root: int, bet: int, runs: seq<Run>, hook: int, size: int)
    requires LinkedState(m, root, bet, runs) && 0 <= size && FreshRun(runs, NewRun(hook, size))
    ensures var r := NewRun(hook, size);
            var last := RunAddr(runs, |runs| - 1);
            && (last != 0 ==> last in m.majors)
            && LinkedState(m.(majors := GrownList(m.majors, last, hook, r.pages)), if root == 0 then hook else root, bet, runs + [r])
            && InUse(runs + [r]) == InUse(runs)
            && Allocated(runs + [r]) == Allocated(runs) + r.pages * 4096
  {
    var r := NewRun(hook, size);
    var last := RunAddr(runs, |runs| - 1);
    BasesDistinct(runs);
    assert forall l :: 0 <= l < |runs| ==> runs[l].base != hook by {
      forall l | 0 <= l < |runs| ensures runs[l].base != hook {
        assert Apart(runs[l], r) && RunOk(runs[l]);
      }
    }
    assert last == 0 <==> runs == [];
    AppendSpells(m.majors, runs, r);
    AppendRepresents(m, GrownList(m.majors, last, hook, r.pages), runs, r);
    ExtendKeeps(runs, r);
    if OnList(runs, bet) {
      var k :| 0 <= k < |runs| && runs[k].base == bet;
      assert (runs + [r])[k].base == bet;
    }
  }

  /** What placing the block comes to. */
  lemma FinishAt(runs0: seq<Run>, runs: seq<Run>, k: int, j: int, grown: bool, startedBet: bool, start: int,
      hook: int, req: int, addr: int)
    returns (after: seq<Run>)
    requires WellFormed(runs) && 0 <= req && Searching(runs0, runs, k, grown, startedBet, start, hook, SizeFor(req))
    requires FirstGap(runs[k], j, SizeFor(req) + MINOR_SIZE) && addr == GapStart(runs[k], j)
    ensures PlacedIn(runs[k], j, Block(addr, SizeFor(req), req)) &&
        after == InsertBlock(runs, k, j, Block(addr, SizeFor(req), req))
    ensures UserPtr(addr) != 0 && NoEmptyRun(after) && Served(runs0, after, req, hook, UserPtr(addr))
    ensures !grown ==> ServedFromGap(runs0, after, req, UserPtr(addr), k, j)
    ensures InUse(after) == InUse(runs) + SizeFor(req) && Allocated(after) == Allocated(runs)
  {
    after := InsertBlock(runs, k, j, NewBlock(addr, req));
    Finish(runs0, runs, k, j, grown, startedBet, start, hook, req);
    InsertKeeps(runs, k, j, NewBlock(addr, req));
  }

  /** The records of block (k, j) and of its major are where the layout says. */
  predicate FreeReady(m: Memory, runs: seq<Run>, k: int, j: int)
    requires At(runs, k, j)
  {
    var a, b := runs[k].blocks[j].addr, runs[k].blocks[j];
    && a in m.minors && runs[k].base in m.majors
    && m.minors[a].block == runs[k].base && m.minors[a].size == b.size && m.minors[a].reqSize == b.req
  }

  lemma FreeLinked(m: Memory, root: int, bet: int, runs: seq<Run>, k: int, j: int)
    requires LinkedState(m, root, bet, runs) && At(runs, k, j)
    ensures FreeReady(m, runs, k, j)
    ensures RemovedMemory(m, runs[k].blocks[j].addr).majors[runs[k].base].first == 0 <==> |runs[k].blocks| == 1
  {
    assert RunSpelled(m, runs[k]);
    assert m.minors[runs[k].blocks[j].addr] == MinorRecord(runs[k].base, runs[k].blocks, j);
    assert m.majors[runs[k].base] == MajorRecord(runs, k);
    RunDistinct(runs, k);
  }

  lemma FreeKeepsMajor(m: Memory, root: int, bet: int, runs: seq<Run>, k: int, j: int) returns (runs': seq<Run>)
    requires LinkedState(m, root, bet, runs) && NoEmptyRun(runs) && At(runs, k, j) && |runs[k].blocks| > 1
    ensures runs' == RemoveBlock(runs, k, j) && NoEmptyRun(runs')
    ensures var a := runs[k].blocks[j].addr;
            a in m.minors && m.minors[a].block in m.majors && LinkedState(RemovedMemory(m, a), root, bet, runs')
    ensures InUse(runs') == InUse(runs) - runs[k].blocks[j].size && Allocated(runs') == Allocated(runs)
  {
    runs' := RemoveBlock(runs, k, j);
    RemoveRepresents(m, runs, k, j);
    RemoveKeeps(runs, k, j);
    ListKept(runs, k, RemoveAt(runs[k], j), bet);
  }

  lemma FreeDropsMajor(m: Memory, root: int, bet: int, runs: seq<Run>, k: int) returns (runs': seq<Run>)
    requires LinkedState(m, root, bet, runs) && NoEmptyRun(runs) && At(runs, k, 0) && |runs[k].blocks| == 1
    ensures runs' == RemoveBlock(runs, k, 0) && NoEmptyRun(runs')
    ensures var a := runs[k].blocks[0].addr;
            && a in m.minors && m.minors[a].block in m.majors && runs[k].base in m.majors
            && LinkedState(DroppedMemory(m, a), if root == runs[k].base then m.majors[runs[k].base].next else root,
                           if bet == runs[k].base then 0 else bet, runs')
    ensures InUse(runs') == InUse(runs) - runs[k].blocks[0].size &&
        Allocated(runs') == Allocated(runs) - RunSize(runs[k])
  {
    runs' := RemoveBlock(runs, k, 0);
    DropRepresents(m, runs, k);
    RemoveKeeps(runs, k, 0);
    BasesDistinct(runs);
    assert m.majors[runs[k].base] == MajorRecord(runs, k);
    ListAfterDrop(runs, k, bet);
  }

  /** From the pointer given for the header at `a`, a second `kfree` finds the header again and sees it dead. */
  ghost predicate SeenDead(m: Memory, a: int)
  {
    HeaderAt(m, UserPtr(a)) == a && MagicRead(m, a) == DEAD
  }

  lemma FreedAgain(m: Memory, runs: seq<Run>, k: int, j: int)
    requires WellFormed(runs) && Represents(m, runs) && At(runs, k, j) && |runs[k].blocks| > 1
    ensures var a := runs[k].blocks[j].addr; a in m.minors && m.minors[a].block in m.majors && SeenDead(RemovedMemory(m, a), a)
  {
    var a := runs[k].blocks[j].addr;
    RemoveRepresents(m, runs, k, j);
    assert RunSpelled(m, runs[k]);
    var m' := RemovedMemory(m, a);
    assert LeftBy(m', runs, k, j, m.bytes, m.minors[a]);
    DeadRead(m', runs, k, j, m.bytes, m.minors[a]);
  }

  lemma ListAfterDrop(runs: seq<Run>, k: int, a: int)
    requires DistinctBases(runs) && 0 <= k < |runs|
    ensures var runs' := runs[..k] + runs[k + 1..];
            && (OnList(runs, a) && a != runs[k].base ==> OnList(runs', a))
            && RunAddr(runs', 0) == if RunAddr(runs, 0) == runs[k].base then RunAddr(runs, k + 1) else RunAddr(runs, 0)
  {
    var runs' := runs[..k] + runs[k + 1..];
    if OnList(runs, a) && a != runs[k].base {
      var l :| 0 <= l < |runs| && runs[l].base == a;
      assert runs'[if l < k then l else l - 1].base == a;
    }
  }

  /** Freeing a block changes no byte but those of its dead header. */
  ghost predicate OnlyHeader(bytes: map<int, int>, bytes': map<int, int>, a: int)
  {
    forall x :: !(a <= x < a + 36) ==> (x in bytes' <==> x in bytes) && (x in bytes ==> bytes'[x] == bytes[x])
  }

  /** Mark the minor at `min` dead, close the list over it and give its bytes back to its major. */
  method UnlinkRecords(m: Memory, min: int) returns (m': Memory)
    requires min in m.minors && m.minors[min].block in m.majors
    ensures m' == RemovedMemory(m, min)
  {
    var rec := m.minors[min];
    var major := m.majors[rec.block];
    major := major.(usage := major.usage - (rec.size + MINOR_SIZE));
    var minors := m.minors - {min};
    if rec.next in minors && rec.next != 0 {
      minors := minors[rec.next := minors[rec.next].(prev := rec.prev)];
    }
    if rec.prev in minors && rec.prev != 0 {
      minors := minors[rec.prev := minors[rec.prev].(next := rec.next)];
    }
    if rec.prev == 0 {
      major := major.(first := rec.next);
    }
    m' := Memory(m.majors[rec.block := major], minors, DeadBytes(m.bytes, min, rec));
  }

  /** Write a minor header at `addr` and hook it between `prev` and `next`; leave ALIGN's byte in front of `p`. */
  method WriteMinor(m: Memory, maj: int, prev: int, next: int, addr: int, size: int, req: int)
    returns (m': Memory, p: int)
    requires maj in m.majors
    ensures m' == PlacedMemory(m, maj, prev, next, Block(addr, size, req))
    ensures p == UserPtr(addr)
  {
    var major := m.majors[maj];
    if prev == 0 {
      major := major.(first := addr);
    }
    major := major.(usage := major.usage + size + MINOR_SIZE);
    var minors := m.minors[addr := Minor(prev, next, maj, MAGIC, size, req)];
    if prev in minors && prev != 0 {
      minors := minors[prev := minors[prev].(next := addr)];
    }
    if next in minors && next != 0 {
      minors := minors[next := minors[next].(prev := addr)];
    }
    p := Align(addr + MINOR_SIZE);
    m' := Memory(m.majors[maj := major], minors, m.bytes[p - ALIGN_INFO := p - (addr + MINOR_SIZE)]);
  }

  /** `n` bytes at `dst` are those that were at `src`, and no other byte changed. */
  ghost predicate Copied(bytes: map<int, int>, bytes': map<int, int>, dst: int, src: int, n: int)
  {
    && (forall i :: dst <= i < dst + n ==> i in bytes' && bytes'[i] == Get(bytes, src + (i - dst)))
    && (forall a :: !(dst <= a < dst + n) ==> (a in bytes' <==> a in bytes) && (a in bytes ==> bytes'[a] == bytes[a]))
  }

  /** `liballoc_memcpy`: whole words first, then the bytes that remain. */
  method Memcpy(bytes: map<int, int>, dst: int, src: int, n: int) returns (bytes': map<int, int>)
    requires 0 <= n
    requires dst + n <= src || src + n <= dst
    ensures Copied(bytes, bytes', dst, src, n)
  {
    bytes' := bytes;
    var done := 0;
    while n - done >= 4
      invariant 0 <= done <= n
      invariant Copied(bytes, bytes', dst, src, done)
    {
      var b0, b1 := Get(bytes', src + done), Get(bytes', src + done + 1);
      var b2, b3 := Get(bytes', src + done + 2), Get(bytes', src + done + 3);
      bytes' := bytes'[dst + done := b0][dst + done + 1 := b1][dst + done + 2 := b2][dst + done + 3 := b3];
      done := done + 4;
    }
    while n - done > 0
      invariant 0 <= done <= n
      invariant Copied(bytes, bytes', dst, src, done)
    {
      bytes' := bytes'[dst + done := Get(bytes', src + done)];
      done := done + 1;
    }
  }

  /**
   The best bet after a free in major `k`: none if that major was the bet and is gone; the major if it now has more free
   bytes than the bet; otherwise as before.
   */
  ghost predicate BetAfterFree(before: seq<Run>, after: seq<Run>, bet: int, bet': int, k: int)
    requires 0 <= k < |before|
  {
    if |after| < |before| then bet' == (if bet == before[k].base then 0 else bet)
    else if bet == 0 then bet' == 0
    else k < |after| && bet' == if Free(after[k]) > FreeAt(after, bet) then before[k].base else bet
  }

  class Heap {
    var memory: Memory
    var memRoot: int
    var bestBet: int
    var totalAllocated: int
    var totalInUse: int
    var warningCount: int
    var errorCount: int
    var possibleOverruns: int
    ghost var runs: seq<Run>

    ghost predicate Linked()
      reads this
    {
      LinkedState(memory, memRoot, bestBet, runs)
    }

    /** Between calls: the records spell a sound layout and the totals are the true sums. */
    ghost predicate Valid()
      reads this
    {
      && Linked()
      && NoEmptyRun(runs)
      && totalInUse == InUse(runs)
      && totalAllocated == Allocated(runs)
    }

    /** The header that `kfree` and `krealloc` find for `ptr`. */
    function HeaderOf(ptr: int): int
      reads this
    {
      HeaderAt(memory, ptr)
    }

    /** Before the first call memory holds anything. */
    constructor (bytes: map<int, int>)
      ensures Valid() && runs == [] && memory.bytes == bytes
    {
      memory := Memory(map[], map[], bytes);
      memRoot, bestBet, totalAllocated, totalInUse := 0, 0, 0, 0;
      warningCount, errorCount, possibleOverruns := 0, 0, 0;
      runs := [];
    }

    /** Write a fresh major header on the pages the hook gave; link it to nothing. */
    method AllocateNewPage(size: int, hook: int) returns (maj: int)
      requires 0 <= size
      modifies this`memory, this`totalAllocated, this`warningCount
      ensures maj == hook
      ensures hook == 0 ==> memory == old(memory) && totalAllocated == old(totalAllocated) && warningCount == old(warningCount) + 1
      ensures hook != 0 ==> memory == old(memory).(majors := old(memory).majors[hook := NewMajor(PagesFor(size))])
      ensures hook != 0 ==> totalAllocated == old(totalAllocated) + PagesFor(size) * 4096 && warningCount == old(warningCount)
    {
      var st := size + MAJOR_SIZE + MINOR_SIZE;
      if st % 4096 == 0 {
        st := st / 4096;
      } else {
        st := st / 4096 + 1;
      }
      if st < PAGE_COUNT {
        st := PAGE_COUNT;
      }
      maj := hook;
      if maj == 0 {
        warningCount := warningCount + 1;
        return;
      }
      memory := memory.(majors := memory.majors[maj := Major(0, 0, st, st * 4096, MAJOR_SIZE, 0)]);
      totalAllocated := totalAllocated + st * 4096;
    }

    /** Place a minor in a gap of `maj` (cases 2, 3, 4.1 and 4.2). */
    method Place(maj: int, prev: int, next: int, addr: int, size: int, req: int, ghost k: int, ghost j: int)
      returns (p: int)
      requires Linked() && 0 <= k < |runs| && runs[k].base == maj
      requires PlacedIn(runs[k], j, Block(addr, size, req))
      requires prev == PrevAddr(runs[k].blocks, j) && next == NextAddr(runs[k].blocks, j)
      modifies this`memory, this`totalInUse, this`runs
      ensures Linked()
      ensures runs == InsertBlock(old(runs), k, j, Block(addr, size, req))
      ensures totalInUse == old(totalInUse) + size
      ensures p == UserPtr(addr) && SameButSlot(old(memory.bytes), memory.bytes, p)
    {
      ghost var b := Block(addr, size, req);
      ghost var m', runs' := PlaceLinked(memory, memRoot, bestBet, runs, k, j, b);
      memory, p := WriteMinor(memory, maj, prev, next, addr, size, req);
      totalInUse := totalInUse + size;
      runs := runs';
    }
  
    /** Ask the hook for a new major and hang it after `maj`, the last one (cases 1 and 5, and the first call). */
    method Grow(maj: int, size: int, hook: int) returns (next: int)
      requires Linked() && 0 <= size && maj == RunAddr(runs, |runs| - 1)
      requires hook == 0 || FreshRun(runs, NewRun(hook, size))
      modifies this`memory, this`totalAllocated, this`warningCount, this`memRoot, this`runs
      ensures Linked() && next == hook
      ensures hook == 0 ==> runs == old(runs) && memory == old(memory) && totalAllocated == old(totalAllocated)
      ensures hook != 0 ==> runs == old(runs) + [NewRun(hook, size)]
      ensures hook != 0 ==> totalAllocated - Allocated(runs) == old(totalAllocated) - Allocated(old(runs))
      ensures InUse(runs) == InUse(old(runs)) && memory.bytes == old(memory.bytes)
    {
      ghost var runs0 := runs;
      if hook != 0 {
        GrowLinked(memory, memRoot, bestBet, runs, hook, size);
      }
      assert runs != [] ==> maj != 0 && maj in memory.majors;
      var first := memRoot == 0;
      next := AllocateNewPage(size, hook);
      if next == 0 {
        return;
      }
      if first {
        memRoot := next;
      } else {
        memory := memory.(majors := AppendMajor(memory.majors, maj, next));
      }
      runs := runs0 + [NewRun(hook, size)];
    }
  
    /** The free bytes of the major at `base`. */
    method FreeBytes(base: int, ghost k: int) returns (free: int)
      requires Linked() && 0 <= k < |runs| && runs[k].base == base
      ensures free == RunSize(runs[k]) - Usage(runs[k]) >= 0
    {
      assert memory.majors[base] == MajorRecord(runs, k);
      UsageWithinRun(runs[k]);
      free := memory.majors[base].size - memory.majors[base].usage;
    }

    /** The totals are the true sums. */
    ghost predicate Counted()
      reads this
    {
      totalInUse == InUse(runs) && totalAllocated == Allocated(runs)
    }

    /** Look for room in the major at `maj`. */
    method SearchMajor(maj: int, need: int, ghost k: int)
      returns (found: bool, prev: int, next: int, addr: int, ghost j: int)
      requires Linked() && 0 <= k < |runs| && runs[k].base == maj
      requires RunSize(runs[k]) - Usage(runs[k]) >= need
      ensures found <==> Fits(runs[k], need)
      ensures found ==> FirstGap(runs[k], j, need) && addr == GapStart(runs[k], j)
      ensures found ==> prev == PrevAddr(runs[k].blocks, j) && next == NextAddr(runs[k].blocks, j)
    {
      assert memory.majors[maj] == MajorRecord(runs, k);
      RunDistinct(runs, k);
      found, prev, next, addr, j := FindGap(memory, maj, need, runs[k]);
    }

    /** Cases 2 to 4 on the major where the search stands. */
    method TryPlace(maj: int, req: int, ghost runs0: seq<Run>, ghost k: int, ghost grown: bool,
        ghost startedBet: bool, ghost start: int, ghost hook: int)
      returns (p: int)
      requires 0 <= req && Linked() && Counted()
      requires Searching(runs0, runs, k, grown, startedBet, start, hook, SizeFor(req)) && maj == runs[k].base
      requires RunSize(runs[k]) - Usage(runs[k]) >= SizeFor(req) + MINOR_SIZE
      modifies this`memory, this`totalInUse, this`runs
      ensures Linked() && Counted()
      ensures p == 0 ==> runs == old(runs) && memory == old(memory) && !Fits(runs[k], SizeFor(req) + MINOR_SIZE)
      ensures p != 0 ==> NoEmptyRun(runs) && Served(runs0, runs, req, hook, p) && |runs| == |old(runs)|
      ensures p != 0 && !grown ==> exists j :: ServedFromGap(runs0, runs, req, p, k, j)
      ensures SameButSlot(old(memory.bytes), memory.bytes, p)
    {
      var size := req + ALIGNMENT + ALIGN_INFO;
      var found, prev, next, addr;
      ghost var j;
      found, prev, next, addr, j := SearchMajor(maj, size + MINOR_SIZE, k);
      if !found {
        return 0;
      }
      ghost var after := FinishAt(runs0, runs, k, j, grown, startedBet, start, hook, req, addr);
      p := Place(maj, prev, next, addr, size, req, k, j);
      assert runs == after;
    }

    /** Where the list of majors goes on after `maj`. */
    method NextOf(maj: int, ghost k: int) returns (next: int)
      requires Linked() && 0 <= k < |runs| && runs[k].base == maj
      ensures next == RunAddr(runs, k + 1)
      ensures next != 0 <==> k + 1 < |runs|
    {
      assert memory.majors[maj] == MajorRecord(runs, k);
      assert k + 1 < |runs| ==> RunOk(runs[k + 1]);
      next := memory.majors[maj].next;
    }

    /** `kmalloc`: search from the best bet, wrap once to the root, then grow. */
    method Kmalloc(req: int, hook: int) returns (p: int)
      requires Valid() && RequestFits(req) && HookOk(runs, req, hook)
      modifies this
      ensures Valid()
      ensures Served(old(runs), runs, req, hook, p)
      ensures p != 0 && |runs| == |old(runs)| ==> ServedInOrder(old(runs), runs, req, p, old(bestBet), bestBet)
      ensures SameButSlot(old(memory.bytes), memory.bytes, p)
    {
      var size := req + ALIGNMENT + ALIGN_INFO;
      var need := size + MINOR_SIZE;
      ghost var runs0, grown := runs, false;
      if memRoot == 0 {
        assert runs == [];
        var root := Grow(0, size, hook);
        if root == 0 {
          return 0;
        }
        grown := true;
      }
      p := SearchMajors(req, hook, runs0, grown);
    }

    /** The search stands at `maj`, major `k`; `bet0` was the best bet when it began. */
    ghost predicate Standing(req: int, hook: int, runs0: seq<Run>, bet0: int, maj: int, startedBet: bool, bestSize: int,
        fellThrough: bool, k: int, grown: bool, start: int)
      reads this
    {
      && Linked() && Counted()
      && SearchOk(req, hook, runs0, runs, bet0, bestBet, startedBet, bestSize, fellThrough, k, grown, start)
      && maj == runs[k].base
    }

    /** The request is answered: in the order of the search, unless a new major was needed. */
    ghost predicate Answered(req: int, hook: int, runs0: seq<Run>, bet0: int, p: int)
      requires 0 <= req
      reads this
    {
      && Linked() && Counted() && NoEmptyRun(runs) && Served(runs0, runs, req, hook, p)
      && (p != 0 && |runs| == |runs0| ==> ServedInOrder(runs0, runs, req, p, bet0, bestBet))
    }

    /** Remember a major with more room than the best bet; one the search fell through to is not looked at. */
    method NoteBet(maj: int, ghost req: int, ghost hook: int, ghost startedBet: bool, bestSize0: int, fellThrough: bool,
        ghost runs0: seq<Run>, ghost bet0: int, ghost k: int, ghost grown: bool, ghost start: int)
      returns (diff: int, bestSize: int)
      requires Standing(req, hook, runs0, bet0, maj, startedBet, bestSize0, fellThrough, k, grown, start)
      modifies this`bestBet
      ensures Standing(req, hook, runs0, bet0, maj, startedBet, bestSize, fellThrough, k, grown, start)
      ensures diff == Free(runs[k]) && (!grown ==> Free(runs0[k]) <= bestSize)
    {
      diff := FreeBytes(maj, k);
      bestSize := bestSize0;
      if !fellThrough && bestSize < diff {
        bestBet, bestSize := maj, diff;
      }
      SearchVisit(req, hook, runs0, runs, bet0, old(bestBet), bestBet, startedBet, bestSize0, bestSize, fellThrough, k, grown, start);
    }

    /**
     One round of `kmalloc`'s loop at `maj`: note a better bet, then cases 2 to 4 unless the free total is too small.
     */
    method VisitMajor(maj: int, req: int, hook: int, startedBet: bool, bestSize0: int, fellThrough: bool,
        ghost runs0: seq<Run>, ghost bet0: int, ghost k: int, ghost grown: bool, ghost start: int)
      returns (p: int, bestSize: int, full: bool)
      requires Standing(req, hook, runs0, bet0, maj, startedBet, bestSize0, fellThrough, k, grown, start)
      modifies this`memory, this`totalInUse, this`runs, this`bestBet
      ensures p != 0 ==> Answered(req, hook, runs0, bet0, p)
      ensures p == 0 ==> runs == old(runs) && memory == old(memory) && !Fits(runs[k], NeedFor(req))
      ensures p == 0 ==> Standing(req, hook, runs0, bet0, maj, startedBet, bestSize, fellThrough, k, grown, start)
      ensures p == 0 && !grown ==> Free(runs0[k]) <= bestSize
      ensures SameButSlot(old(memory.bytes), memory.bytes, p)
    {
      var need := req + ALIGNMENT + ALIGN_INFO + MINOR_SIZE;
      var diff;
      diff, bestSize := NoteBet(maj, req, hook, startedBet, bestSize0, fellThrough, runs0, bet0, k, grown, start);
      full := diff < need;
      p := 0;
      if full {
        TooFull(runs[k], need);
      } else {
        p := TryMajor(maj, req, hook, startedBet, bestSize, fellThrough, runs0, bet0, k, grown, start);
      }
    }

    /** Cases 2 to 4. */
    method TryMajor(maj: int, req: int, ghost hook: int, ghost startedBet: bool, ghost bestSize: int,
        ghost fellThrough: bool, ghost runs0: seq<Run>, ghost bet0: int, ghost k: int, ghost grown: bool, ghost start: int)
      returns (p: int)
      requires Standing(req, hook, runs0, bet0, maj, startedBet, bestSize, fellThrough, k, grown, start)
      requires Free(runs[k]) >= NeedFor(req) && (!grown ==> Free(runs0[k]) <= bestSize)
      modifies this`memory, this`totalInUse, this`runs
      ensures p != 0 ==> Answered(req, hook, runs0, bet0, p)
      ensures p == 0 ==> runs == old(runs) && memory == old(memory) && !Fits(runs[k], NeedFor(req))
      ensures p == 0 ==> Standing(req, hook, runs0, bet0, maj, startedBet, bestSize, fellThrough, k, grown, start)
      ensures SameButSlot(old(memory.bytes), memory.bytes, p)
    {
      p := TryPlace(maj, req, runs0, k, grown, startedBet, start, hook);
      if p != 0 && !grown {
        SearchEnds(req, hook, runs0, runs, bet0, bestBet, startedBet, bestSize, k, start, p);
      }
    }

    /** Go on after a major without room: the next one, the root after a start at the best bet, or a new one. */
    method Advance(maj: int, req: int, hook: int, startedBet0: bool, ghost bestSize: int, ghost fellThrough: bool,
        ghost runs0: seq<Run>, ghost bet0: int, ghost k0: int, ghost grown0: bool, ghost start: int)
      returns (next: int, startedBet: bool, grew: bool, ghost k: int)
      requires Standing(req, hook, runs0, bet0, maj, startedBet0, bestSize, fellThrough, k0, grown0, start)
      requires !Fits(runs[k0], NeedFor(req)) && (!grown0 ==> Free(runs0[k0]) <= bestSize)
      modifies this`memory, this`totalAllocated, this`warningCount, this`memRoot, this`runs
      ensures next == 0 ==> Answered(req, hook, runs0, bet0, 0)
      ensures next != 0 ==> Standing(req, hook, runs0, bet0, next, startedBet, bestSize, grew, k, grew, start)
      ensures !grown0 && memory.bytes == old(memory.bytes)
      ensures next != 0 && !grew ==>
                runs == old(runs) && ((startedBet0 && !startedBet) || (startedBet == startedBet0 && k == k0 + 1))
    {
      startedBet, grew, k := startedBet0, false, k0 + 1;
      next := NextOf(maj, k0);
      if next == 0 && startedBet {
        next, startedBet, k := memRoot, false, 0;
      }
      if next != 0 {
        SearchNext(req, hook, runs0, runs, bet0, bestBet, startedBet0, bestSize, fellThrough, k0, grown0, start, k, startedBet);
        return;
      }
      next := Extend(maj, req, hook, bestSize, fellThrough, runs0, bet0, k0, grown0, start);
      grew := true;
    }

    /** Nothing is left but a new major. */
    method Extend(maj: int, req: int, hook: int, ghost bestSize: int, ghost fellThrough: bool, ghost runs0: seq<Run>,
        ghost bet0: int, ghost k: int, ghost grown: bool, ghost start: int)
      returns (next: int)
      requires Standing(req, hook, runs0, bet0, maj, false, bestSize, fellThrough, k, grown, start)
      requires !Fits(runs[k], NeedFor(req)) && k + 1 == |runs|
      modifies this`memory, this`totalAllocated, this`warningCount, this`memRoot, this`runs
      ensures next == 0 ==> Answered(req, hook, runs0, bet0, 0)
      ensures next != 0 ==> Standing(req, hook, runs0, bet0, next, false, bestSize, true, k + 1, true, start)
      ensures !grown && memory.bytes == old(memory.bytes)
    {
      SearchGrows(req, hook, runs0, runs, bet0, bestBet, bestSize, fellThrough, k, grown, start);
      next := Grow(maj, req + ALIGNMENT + ALIGN_INFO, hook);
    }

    /** Where the loop of `kmalloc` starts. */
    method FirstMajor(req: int, ghost hook: int, ghost runs0: seq<Run>, ghost grown: bool)
      returns (maj: int, startedBet: bool, bestSize: int, ghost k: int)
      requires 0 <= req && Linked()
      requires Searching(runs0, runs, 0, grown, false, 0, hook, SizeFor(req)) && (grown ==> bestBet == 0)
      ensures Searching(runs0, runs, k, grown, startedBet, k, hook, SizeFor(req)) && maj == runs[k].base
      ensures !grown ==> BetOk(runs0, k, startedBet, k, bestBet, bestSize) && StartsAt(runs0, bestBet, NeedFor(req), k)
    {
      maj, startedBet, bestSize, k := memRoot, false, 0, 0;
      if bestBet != 0 {
        ghost var b :| 0 <= b < |runs| && runs[b].base == bestBet;
        BetFree(runs, bestBet, b);
        bestSize := FreeBytes(bestBet, b);
        if bestSize > req + ALIGNMENT + ALIGN_INFO + MINOR_SIZE {
          maj, startedBet, k := bestBet, true, b;
        }
      }
      if !grown {
        NoBet(runs);
        StartBet(runs0, k, startedBet, bestBet);
      }
    }

    /** The loop of `kmalloc` over the majors. */
    method SearchMajors(req: int, hook: int, ghost runs0: seq<Run>, ghost grown0: bool) returns (p: int)
      requires RequestFits(req) && Linked() && Counted()
      requires Searching(runs0, runs, 0, grown0, false, 0, hook, SizeFor(req)) && (grown0 ==> bestBet == 0)
      requires !grown0 ==> HookOk(runs, req, hook)
      modifies this
      ensures Answered(req, hook, runs0, old(bestBet), p)
      ensures SameButSlot(old(memory.bytes), memory.bytes, p)
    {
      ghost var k, grown, bet0 := 0, grown0, bestBet;
      var maj, startedBet, bestSize;
      maj, startedBet, bestSize, k := FirstMajor(req, hook, runs0, grown0);
      ghost var start := k;
      var fellThrough := false;
      p := 0;
      while maj != 0
        invariant maj != 0 ==> p == 0 && Standing(req, hook, runs0, bet0, maj, startedBet, bestSize, fellThrough, k, grown, start)
        invariant maj == 0 ==> Answered(req, hook, runs0, bet0, p)
        invariant memory.bytes == old(memory.bytes)
        decreases maj != 0, !grown, startedBet, |runs| - k
      {
        var full, grew;
        p, bestSize, full := VisitMajor(maj, req, hook, startedBet, bestSize, fellThrough, runs0, bet0, k, grown, start);
        if p != 0 {
          return;
        }
        maj, startedBet, grew, k := Advance(maj, req, hook, startedBet, bestSize, fellThrough, runs0, bet0, k, grown, start);
        grown, fellThrough := grew, grew && full;
      }
    }

    /** Count a bad pointer; the header it leads to does not carry the magic. */
    method NoteBadPointer(magic: int)
      modifies this`errorCount, this`possibleOverruns
      ensures errorCount == old(errorCount) + 1
      ensures possibleOverruns == old(possibleOverruns) + if LooksOverrun(magic) then 1 else 0
    {
      errorCount := errorCount + 1;
      if LooksOverrun(magic) {
        possibleOverruns := possibleOverruns + 1;
      }
    }

    /**
     `kfree` refuses a pointer exactly when the word at its magic's place is another; it frees a live block; and where
     the magic is read without a live header it goes on with whatever it finds, which `forged` reports.
     */
    method Kfree(ptr: int) returns (forged: bool)
      requires Valid()
      modifies this
      ensures forged <==> old(Forged(memory, runs, ptr))
      ensures !forged ==> Valid()
      ensures ptr == 0 ==> runs == old(runs) && memory == old(memory) && warningCount == old(warningCount) + 1
      ensures ptr != 0 && old(MagicRead(memory, HeaderOf(ptr))) != MAGIC ==>
                && runs == old(runs) && memory == old(memory) && errorCount == old(errorCount) + 1
                && possibleOverruns == old(possibleOverruns) + if LooksOverrun(old(MagicRead(memory, HeaderOf(ptr)))) then 1 else 0
      ensures ptr == 0 || old(MagicRead(memory, HeaderOf(ptr))) == MAGIC ==> errorCount == old(errorCount)
      ensures ptr != 0 && Live(old(runs), old(HeaderOf(ptr))) ==>
                && !forged && Freed(old(runs), runs, old(HeaderOf(ptr)))
                && OnlyHeader(old(memory.bytes), memory.bytes, old(HeaderOf(ptr)))
      ensures ptr != 0 && Live(old(runs), old(HeaderOf(ptr))) && |runs| == |old(runs)| && ptr == UserPtr(old(HeaderOf(ptr))) ==>
                HeaderOf(ptr) == old(HeaderOf(ptr)) && MagicRead(memory, HeaderOf(ptr)) == DEAD
    {
      forged := false;
      if ptr == 0 {
        warningCount := warningCount + 1;
        return;
      }
      var min := HeaderAt(memory, ptr);
      var magic := MagicRead(memory, min);
      MagicSaysLive(memory, runs, ptr);
      if magic != MAGIC {
        NoteBadPointer(magic);
        return;
      }
      if min !in memory.minors {
        return true;
      }
      ghost var k, j :| At(runs, k, j) && runs[k].blocks[j].addr == min;
      Release(min, k, j);
    }

    /** After a free, `maj` becomes the best bet if it now has more room than the present one. */
    method RebalanceBet(maj: int, ghost k: int)
      requires Valid() && 0 <= k < |runs| && runs[k].base == maj
      modifies this`bestBet
      ensures Valid()
      ensures bestBet == if old(bestBet) != 0 && Free(runs[k]) > FreeAt(runs, old(bestBet)) then maj else old(bestBet)
    {
      if bestBet == 0 {
        return;
      }
      ghost var b :| 0 <= b < |runs| && runs[b].base == bestBet;
      BetFree(runs, bestBet, b);
      var bestSize := FreeBytes(bestBet, b);
      var majSize := FreeBytes(maj, k);
      if majSize > bestSize {
        bestBet := maj;
      }
    }

    /** Give an emptied major back: `m1` is the memory with its last minor, of `size` bytes, unlinked. */
    method DropEmptied(m1: Memory, maj: int, size: int, ghost k: int)
      requires Valid() && At(runs, k, 0) && |runs[k].blocks| == 1 && runs[k].base == maj &&
          size == runs[k].blocks[0].size
      requires FreeReady(memory, runs, k, 0) && m1 == RemovedMemory(memory, runs[k].blocks[0].addr)
      modifies this`memory, this`memRoot, this`bestBet, this`totalInUse, this`totalAllocated, this`runs
      ensures Valid() && OnlyHeader(old(memory.bytes), memory.bytes, old(runs)[k].blocks[0].addr)
      ensures runs == RemoveBlock(old(runs), k, 0)
      ensures |runs| < |old(runs)| && bestBet == if old(bestBet) == maj then 0 else old(bestBet)
    {
      ghost var runs' := FreeDropsMajor(memory, memRoot, bestBet, runs, k);
      assert memory.majors[maj] == MajorRecord(runs, k);
      assert m1.majors[maj].next == memory.majors[maj].next && m1.majors[maj].size == RunSize(runs[k]);
      totalInUse := totalInUse - size;
      if memRoot == maj {
        memRoot := m1.majors[maj].next;
      }
      if bestBet == maj {
        bestBet := 0;
      }
      totalAllocated := totalAllocated - m1.majors[maj].size;
      memory := m1.(majors := DropMajor(m1.majors, maj));
      runs := runs';
    }

    /** Keep a major that still holds minors. */
    method KeepMajor(m1: Memory, size: int, ghost k: int, ghost j: int)
      requires Valid() && At(runs, k, j) && |runs[k].blocks| > 1 && size == runs[k].blocks[j].size
      requires FreeReady(memory, runs, k, j) && m1 == RemovedMemory(memory, runs[k].blocks[j].addr)
      modifies this`memory, this`totalInUse, this`runs
      ensures Valid() && OnlyHeader(old(memory.bytes), memory.bytes, old(runs)[k].blocks[j].addr)
      ensures runs == RemoveBlock(old(runs), k, j)
      ensures SeenDead(memory, old(runs)[k].blocks[j].addr)
      ensures |runs| == |old(runs)| && runs[k].base == old(runs)[k].base
    {
      ghost var runs' := FreeKeepsMajor(memory, memRoot, bestBet, runs, k, j);
      FreedAgain(memory, runs, k, j);
      totalInUse := totalInUse - size;
      memory := m1;
      runs := runs';
    }

    /** Keep it, and note it as the best bet if it now has more room. */
    method KeepAndRebalance(m1: Memory, maj: int, size: int, ghost k: int, ghost j: int)
      requires Valid() && At(runs, k, j) && |runs[k].blocks| > 1 && runs[k].base == maj &&
          size == runs[k].blocks[j].size
      requires FreeReady(memory, runs, k, j) && m1 == RemovedMemory(memory, runs[k].blocks[j].addr)
      modifies this`memory, this`bestBet, this`totalInUse, this`runs
      ensures Valid() && OnlyHeader(old(memory.bytes), memory.bytes, old(runs)[k].blocks[j].addr)
      ensures runs == RemoveBlock(old(runs), k, j)
      ensures SeenDead(memory, old(runs)[k].blocks[j].addr)
      ensures |runs| == |old(runs)| && BetAfterFree(old(runs), runs, old(bestBet), bestBet, k)
    {
      KeepMajor(m1, size, k, j);
      RebalanceBet(maj, k);
    }

    /** Free the live minor at `min`, and its major when that leaves it empty. */
    method Release(min: int, ghost k: int, ghost j: int)
      requires Valid() && At(runs, k, j) && runs[k].blocks[j].addr == min
      modifies this`memory, this`memRoot, this`bestBet, this`totalInUse, this`totalAllocated, this`runs
      ensures Valid() && OnlyHeader(old(memory.bytes), memory.bytes, min)
      ensures runs == RemoveBlock(old(runs), k, j)
      ensures |runs| == |old(runs)| ==> SeenDead(memory, min)
      ensures BetAfterFree(old(runs), runs, old(bestBet), bestBet, k)
    {
      FreeLinked(memory, memRoot, bestBet, runs, k, j);
      var maj, size := memory.minors[min].block, memory.minors[min].size;
      var m1 := UnlinkRecords(memory, min);
      if m1.majors[maj].first == 0 {
        DropEmptied(m1, maj, size, k);
      } else {
        KeepAndRebalance(m1, maj, size, k, j);
      }
    }
  
    /** A caller's write to byte `i` of a live allocation; the heap keeps its layout. */
    method UserWrite(p: int, i: int, value: int, ghost k: int, ghost j: int)
      requires 0 <= value < 256 && Valid() && At(runs, k, j) && p == UserPtr(runs[k].blocks[j].addr) &&
          0 <= i < runs[k].blocks[j].req
      modifies this`memory
      ensures Valid() && memory == old(memory).(bytes := old(memory).bytes[p + i := value])
    {
      ghost var bytes' := memory.bytes[p + i := value];
      SlotsKept(memory, runs, k, j, bytes', p + i, p + i + 1);
      memory := memory.(bytes := memory.bytes[p + i := value]);
    }
  
    /** The copy inside `krealloc`: into the new block at (k', j'), or to address 0 when there is none. */
    method CopyBlock(q: int, p: int, n: int, ghost l: int, ghost i: int, ghost k': int, ghost j': int)
      requires Valid() && At(runs, l, i) && InBlock(runs[l].blocks[i], p, n) && 0 <= n < WORD_LIMIT
      requires q != 0 ==> At(runs, k', j') && (k', j') != (l, i) && q == UserPtr(runs[k'].blocks[j'].addr) && n <= runs[k'].blocks[j'].req
      modifies this`memory
      ensures Valid() && memory == old(memory).(bytes := memory.bytes) && Copied(old(memory).bytes, memory.bytes, q, p, n)
    {
      if q == 0 {
        LowBytes(runs, l, i);
      } else {
        BlocksApart(runs, l, i, k', j');
        assert RunOk(runs[k']);
        assert BlockOk(runs[k'].blocks[j']);
      }
      var bytes' := Memcpy(memory.bytes, q, p, n);
      if q == 0 {
        LowBytesKept(memory, runs, bytes', n);
      } else {
        SlotsKept(memory, runs, k', j', bytes', q, q + n);
      }
      memory := memory.(bytes := bytes');
    }
  
    /** The first half of a growing `krealloc`: allocate and copy. */
    method AllocateCopy(p: int, kept: int, size: int, hook: int, ghost k: int, ghost j: int)
      returns (q: int, ghost l: int, ghost i: int)
      requires Valid() && RequestFits(size) && HookOk(runs, size, hook)
      requires At(runs, k, j) && InBlock(runs[k].blocks[j], p, kept) && 0 <= kept < size
      modifies this
      ensures Valid() && Served(old(runs), runs, size, hook, q)
      ensures At(runs, l, i) && runs[l].blocks[i] == old(runs)[k].blocks[j]
      ensures q != 0 ==> exists k', j' :: At(runs, k', j') && (k', j') != (l, i) && q == UserPtr(runs[k'].blocks[j'].addr) && kept <= runs[k'].blocks[j'].req
      ensures HeaderOf(p) == old(HeaderOf(p))
      ensures q != 0 ==> Moved(old(memory.bytes), memory.bytes, q, p, kept)
    {
      ghost var runs0, m0, bytes0 := runs, memory, memory.bytes;
      q := Kmalloc(size, hook);
      ghost var mid, bytes1 := runs, memory.bytes;
      ghost var k', j';
      l, i, k', j' := ServedKeepsBlock(runs0, mid, size, hook, q, k, j);
      BytesOfOther(mid, l, i, k', j', bytes0, bytes1, p, q, kept);
      CopyBlock(q, p, kept, l, i, k', j');
      HeaderKept(mid, l, i, k', j', bytes1, memory.bytes, p, q, kept);
      SameHeader(m0, runs0, k, j, memory, runs, l, i, p);
    }

    /** `krealloc` of a live block to a larger size: allocate, copy, free. */
    method MoveBlock(p: int, kept: int, size: int, hook: int, ghost k: int, ghost j: int) returns (q: int)
      requires Valid() && RequestFits(size) && HookOk(runs, size, hook) && p != 0
      requires At(runs, k, j) && runs[k].blocks[j].addr == HeaderOf(p) && runs[k].blocks[j].req == kept < size
      modifies this
      ensures Valid()
      ensures Resized(old(runs), runs, old(HeaderOf(p)), size, hook, p, q)
      ensures q != 0 ==> Moved(old(memory.bytes), memory.bytes, q, p, kept)
    {
      ghost var runs0, min, bytes0 := runs, HeaderOf(p), memory.bytes;
      assert InBlock(runs[k].blocks[j], p, kept) by { assert RunOk(runs[k]); assert BlockOk(runs[k].blocks[j]); }
      ghost var l, i;
      q, l, i := AllocateCopy(p, kept, size, hook, k, j);
      ghost var mid, bytes1 := runs, memory.bytes;
      assert Live(mid, min);
      var forged := Kfree(p);
      if q != 0 {
        ghost var k', j' :| At(mid, k', j') && (k', j') != (l, i) && q == UserPtr(mid[k'].blocks[j'].addr) &&
            kept <= mid[k'].blocks[j'].req;
        MoveKept(mid, l, i, k', j', bytes0, bytes1, memory.bytes, p, q, kept);
      }
      assert ResizedAt(runs0, runs, min, size, hook, p, q, k, j);
    }

    method Krealloc(p: int, size: int, hook: int) returns (q: int, forged: bool)
      requires Valid() && RequestFits(size) && HookOk(runs, size, hook)
      modifies this
      ensures forged <==> old(Forged(memory, runs, p))
      ensures !forged ==> Valid()
      ensures size == 0 ==> q == 0
      ensures size == 0 && (p == 0 || old(MagicRead(memory, HeaderOf(p))) != MAGIC) ==>
          runs == old(runs) && memory == old(memory)
      ensures size == 0 && p != 0 && Live(old(runs), old(HeaderOf(p))) ==> Freed(old(runs), runs, old(HeaderOf(p)))
      ensures size > 0 && p == 0 ==> Served(old(runs), runs, size, hook, q)
      ensures size > 0 && p != 0 && old(MagicRead(memory, HeaderOf(p))) != MAGIC ==>
                q == 0 && runs == old(runs) && memory == old(memory) && errorCount == old(errorCount) + 1
      ensures size > 0 && p != 0 && Live(old(runs), old(HeaderOf(p))) ==>
                && Resized(old(runs), runs, old(HeaderOf(p)), size, hook, p, q)
                && (q != 0 ==> KeptContent(old(runs), old(HeaderOf(p)), old(memory.bytes), memory.bytes, size, p, q))
    {
      if size == 0 {
        forged := Kfree(p);
        return 0, forged;
      }
      forged := false;
      if p == 0 {
        q := Kmalloc(size, hook);
        return;
      }
      q := 0;
      var min := HeaderAt(memory, p);
      var magic := MagicRead(memory, min);
      MagicSaysLive(memory, runs, p);
      if magic != MAGIC {
        NoteBadPointer(magic);
        return;
      }
      if min !in memory.minors {
        return 0, true;
      }
      ghost var k, j :| At(runs, k, j) && runs[k].blocks[j].addr == min;
      q := Resize(p, min, size, hook, k, j);
    }

    /** The rest of `krealloc`, once a live header is found. */
    method Resize(p: int, min: int, size: int, hook: int, ghost k: int, ghost j: int) returns (q: int)
      requires Valid() && RequestFits(size) && HookOk(runs, size, hook) && p != 0 && size > 0
      requires At(runs, k, j) && runs[k].blocks[j].addr == min == HeaderOf(p)
      modifies this
      ensures Valid()
      ensures Resized(old(runs), runs, min, size, hook, p, q)
      ensures q != 0 ==> KeptContent(old(runs), min, old(memory.bytes), memory.bytes, size, p, q)
    {
      FreeLinked(memory, memRoot, bestBet, runs, k, j);
      ghost var runs0 := runs;
      KeptContentFrom(runs, k, j);
      var kept := memory.minors[min].reqSize;
      if kept >= size {
        Shrink(min, size, k, j);
        q := p;
        assert ResizedAt(runs0, runs, min, size, hook, p, q, k, j);
        return;
      }
      q := MoveBlock(p, kept, size, hook, k, j);
    }

    /** `krealloc` to a size the block already has room for. */
    method Shrink(min: int, size: int, ghost k: int, ghost j: int)
      requires Valid() && At(runs, k, j) && runs[k].blocks[j].addr == min && 0 <= size <= runs[k].blocks[j].req
      requires min in memory.minors
      modifies this`memory, this`runs
      ensures Valid() && memory.bytes == old(memory.bytes)
      ensures runs == SetRequest(old(runs), k, j, size)
    {
      SetRequestRepresents(memory, runs, k, j, size);
      SetRequestKeeps(runs, k, j, size);
      ListKept(runs, k, WithRequest(runs[k], j, size), bestBet);
      ghost var runs' := SetRequest(runs, k, j, size);
      memory := memory.(minors := memory.minors[min := memory.minors[min].(reqSize := size)]);
      runs := runs';
    }
  }

  ghost predicate Moved(bytes: map<int, int>, bytes': map<int, int>, q: int, p: int, n: int)
  {
    forall a :: q <= a < q + n ==> Get(bytes', a) == Get(bytes, p + (a - q))
  }

  /** Freeing the old block touches no byte of the new one. */
  lemma MoveKept(runs: seq<Run>, l: int, i: int, k': int, j': int, bytes0: map<int, int>, bytes1: map<int, int>,
      bytes2: map<int, int>, p: int, q: int, n: int)
    requires WellFormed(runs) && At(runs, l, i) && At(runs, k', j') && (k', j') != (l, i)
    requires q == UserPtr(runs[k'].blocks[j'].addr) && n <= runs[k'].blocks[j'].req
    requires Moved(bytes0, bytes1, q, p, n) && OnlyHeader(bytes1, bytes2, runs[l].blocks[i].addr)
    ensures Moved(bytes0, bytes2, q, p, n)
  {
    assert RunOk(runs[l]) && RunOk(runs[k']);
    assert BlockOk(runs[l].blocks[i]) && BlockOk(runs[k'].blocks[j']);
    BlocksApart(runs, l, i, k', j');
    forall a | q <= a < q + n ensures Get(bytes2, a) == Get(bytes0, p + (a - q)) {
      assert Get(bytes1, a) == Get(bytes0, p + (a - q));
    }
  }

  /** The bytes of the block at header `a`, as far as both sizes go, are found at `q`. */
  ghost predicate KeptContent(runs: seq<Run>, a: int, bytes: map<int, int>, bytes': map<int, int>, size: int, p: int,
      q: int)
  {
    forall k, j :: At(runs, k, j) && runs[k].blocks[j].addr == a ==>
      Moved(bytes, bytes', q, p, if runs[k].blocks[j].req < size then runs[k].blocks[j].req else size)
  }

  lemma KeptContentFrom(runs: seq<Run>, k: int, j: int)
    requires WellFormed(runs) && At(runs, k, j)
    ensures forall l, i :: At(runs, l, i) && runs[l].blocks[i].addr == runs[k].blocks[j].addr ==> l == k && i == j
  {
  }

  /** Serving a request leaves the bytes of every other block, and the byte UNALIGN reads for it, alone. */
  lemma BytesOfOther(runs: seq<Run>, l: int, i: int, k': int, j': int, bytes: map<int, int>, bytes': map<int, int>,
      p: int, q: int, n: int)
    requires WellFormed(runs) && At(runs, l, i) && InBlock(runs[l].blocks[i], p, n) && SameButSlot(bytes, bytes', q)
    requires q != 0 ==> At(runs, k', j') && (k', j') != (l, i) && q == UserPtr(runs[k'].blocks[j'].addr)
    ensures forall x :: p <= x < p + n ==> Get(bytes', x) == Get(bytes, x)
    ensures Get(bytes', p - ALIGN_INFO) == Get(bytes, p - ALIGN_INFO)
  {
  }

  lemma HeaderKept(runs: seq<Run>, l: int, i: int, k': int, j': int, bytes: map<int, int>, bytes': map<int, int>,
      p: int, q: int, n: int)
    requires WellFormed(runs) && At(runs, l, i) && InBlock(runs[l].blocks[i], p, n) && n < WORD_LIMIT &&
        Copied(bytes, bytes', q, p, n)
    requires q != 0 ==> At(runs, k', j') && (k', j') != (l, i) && q == UserPtr(runs[k'].blocks[j'].addr) && n <= runs[k'].blocks[j'].req
    ensures Get(bytes', p - ALIGN_INFO) == Get(bytes, p - ALIGN_INFO)
  {
  }

  /** `p` was given for `b`, or is at any rate within 32 bytes of its header, so `n` bytes from it are `b`'s own. */
  predicate InBlock(b: Block, p: int, n: int)
  {
    BlockOk(b) && b.addr + MINOR_SIZE <= p < b.addr + MINOR_SIZE + ALIGNMENT + ALIGN_INFO && n <= b.req
  }

  lemma LowBytes(runs: seq<Run>, l: int, i: int)
    requires WellFormed(runs) && At(runs, l, i)
    ensures WORD_LIMIT < runs[l].blocks[i].addr < AlignSlot(runs[l].blocks[i].addr)
  {
  }

  lemma LowBytesKept(m: Memory, runs: seq<Run>, bytes': map<int, int>, n: int)
    requires WellFormed(runs) && Represents(m, runs) && n < WORD_LIMIT
    requires forall a :: !(0 <= a < n) && a in m.bytes ==> a in bytes' && bytes'[a] == m.bytes[a]
    ensures Represents(m.(bytes := bytes'), runs)
  {
  }

  /** Changing bytes of [lo, hi), all of them user bytes of block (k, j), keeps the layout. */
  lemma SlotsKept(m: Memory, runs: seq<Run>, k: int, j: int, bytes': map<int, int>, lo: int, hi: int)
    requires WellFormed(runs) && Represents(m, runs) && At(runs, k, j)
    requires forall a :: lo <= a < hi ==> UserByte(runs[k].blocks[j], a)
    requires forall a :: !(lo <= a < hi) && a in m.bytes ==> a in bytes' && bytes'[a] == m.bytes[a]
    ensures Represents(m.(bytes := bytes'), runs)
  {
    forall l, i | At(runs, l, i)
      ensures var a := AlignSlot(runs[l].blocks[i].addr); a in bytes' && (a in m.bytes ==> bytes'[a] == m.bytes[a])
    {
      var a := AlignSlot(runs[l].blocks[i].addr);
      assert RunSpelled(m, runs[l]);
      if lo <= a < hi {
        UserByteIsNoSlot(runs, k, j, a, l, i);
      }
    }
    OtherBytes(m, bytes', runs);
  }

  lemma ListKept(runs: seq<Run>, k: int, r: Run, a: int)
    requires 0 <= k < |runs| && r.base == runs[k].base
    ensures RunAddr(runs[k := r], 0) == RunAddr(runs, 0)
    ensures OnList(runs, a) ==> OnList(runs[k := r], a)
  {
    if OnList(runs, a) {
      var l :| 0 <= l < |runs| && runs[l].base == a;
      assert runs[k := r][l].base == a;
    }
  }
}
