/**
 The kernel heap as a list of page runs ("majors"), each holding address-ordered blocks ("minors").
 This is the layout that the linked records of `Liballoc` are proved to represent.
 */
module HeapView {
  import opened Sums

  const MAJOR_SIZE := 40
  const MINOR_SIZE := 40
  const ALIGNMENT := 16
  const ALIGN_INFO := 16
  const PAGE_COUNT := 16
  const WORD_LIMIT := 0x1_0000_0000   // unsigned int

  /** A live minor: its header address, the bytes after the header, and the bytes the caller asked for. */
  datatype Block = Block(addr: int, size: int, req: int)

  /** A live major: its header address, its pages, and its minors in address order. */
  datatype Run = Run(base: int, pages: int, blocks: seq<Block>)

  function End(b: Block): int { b.addr + MINOR_SIZE + b.size }

  function Limit(r: Run): int { r.base + r.pages * 4096 }

  function Footprint(b: Block): int { b.size + MINOR_SIZE }

  function Payload(b: Block): int { b.size }

  function Usage(r: Run): int { MAJOR_SIZE + Sum(Footprint, r.blocks) }

  function RunSize(r: Run): int { r.pages * 4096 }

  function RunPayload(r: Run): int { Sum(Payload, r.blocks) }

  /** What `l_allocated` and `l_inuse` should be. */
  function Allocated(runs: seq<Run>): int { Sum(RunSize, runs) }

  function InUse(runs: seq<Run>): int { Sum(RunPayload, runs) }

  predicate BlockOk(b: Block)
  {
    0 <= b.req && b.req + ALIGNMENT + ALIGN_INFO <= b.size
  }

  /** Blocks lie in [lo, hi), in strictly ascending address order and without overlap. */
  predicate Packed(bs: seq<Block>, lo: int, hi: int)
  {
    && lo <= hi
    && (forall i :: 0 <= i < |bs| ==> BlockOk(bs[i]) && lo <= bs[i].addr && End(bs[i]) <= hi)
    && (forall i, j :: 0 <= i < j < |bs| ==> End(bs[i]) <= bs[j].addr)
  }

  predicate RunOk(r: Run)
  {
    && WORD_LIMIT <= r.base
    && PAGE_COUNT <= r.pages
    && RunSize(r) < WORD_LIMIT
    && Packed(r.blocks, r.base + MAJOR_SIZE, Limit(r))
  }

  predicate Apart(r: Run, s: Run)
  {
    Limit(r) <= s.base || Limit(s) <= r.base
  }

  predicate WellFormed(runs: seq<Run>)
  {
    && (forall k :: 0 <= k < |runs| ==> RunOk(runs[k]))
    && (forall k, l :: 0 <= k < l < |runs| ==> Apart(runs[k], runs[l]))
  }

  predicate NoEmptyRun(runs: seq<Run>)
  {
    forall k :: 0 <= k < |runs| ==> runs[k].blocks != []
  }

  predicate At(runs: seq<Run>, k: int, j: int)
  {
    0 <= k < |runs| && 0 <= j < |runs[k].blocks|
  }

  /** Some live minor has its header at `a`. */
  ghost predicate Live(runs: seq<Run>, a: int)
  {
    exists k, j :: At(runs, k, j) && runs[k].blocks[j].addr == a
  }

  // ----- gaps

  function GapStart(r: Run, j: int): int
    requires 0 <= j <= |r.blocks|
  {
    if j == 0 then r.base + MAJOR_SIZE else End(r.blocks[j - 1])
  }

  function GapStop(r: Run, j: int): int
    requires 0 <= j <= |r.blocks|
  {
    if j == |r.blocks| then Limit(r) else r.blocks[j].addr
  }

  /** `need` contiguous free bytes lie just before block `j` (after the last one when `j` is the count). */
  predicate GapFits(r: Run, j: int, need: int)
  {
    0 <= j <= |r.blocks| && GapStart(r, j) + need <= GapStop(r, j)
  }

  ghost predicate Fits(r: Run, need: int)
  {
    exists j :: GapFits(r, j, need)
  }

  lemma {:induction false} PackedUsage(bs: seq<Block>, lo: int, hi: int)
    requires Packed(bs, lo, hi)
    ensures 0 <= Sum(Footprint, bs) <= hi - lo
  {
    if bs != [] {
      PackedUsage(bs[1..], End(bs[0]), hi);
    }
  }

  /** `usage` never exceeds the size, so the unsigned subtraction that finds the free bytes cannot wrap. */
  lemma UsageWithinRun(r: Run)
    requires RunOk(r)
    ensures MAJOR_SIZE <= Usage(r) <= RunSize(r) < WORD_LIMIT
  {
    PackedUsage(r.blocks, r.base + MAJOR_SIZE, Limit(r));
  }

  lemma PackedPrefix(bs: seq<Block>, j: nat, lo: int, hi: int, hi': int)
    requires Packed(bs, lo, hi) && j <= |bs|
    requires lo <= hi' && (j > 0 ==> End(bs[j - 1]) <= hi')
    ensures Packed(bs[..j], lo, hi')
  {
  }

  lemma PackedSuffix(bs: seq<Block>, j: nat, lo: int, hi: int, lo': int)
    requires Packed(bs, lo, hi) && j <= |bs|
    requires lo' <= hi && (j < |bs| ==> lo' <= bs[j].addr)
    ensures Packed(bs[j..], lo', hi)
  {
  }

  /** Blocks on both sides of a gap leave at least the gap free. */
  lemma UsageAroundGap(bs: seq<Block>, j: nat, lo: int, hi: int, start: int, stop: int)
    requires j <= |bs|
    requires Packed(bs[..j], lo, start) && Packed(bs[j..], stop, hi)
    ensures Sum(Footprint, bs) <= (start - lo) + (hi - stop)
  {
    PackedUsage(bs[..j], lo, start);
    PackedUsage(bs[j..], stop, hi);
    SumConcat(Footprint, bs[..j], bs[j..]);
    assert bs == bs[..j] + bs[j..];
  }

  /** Skipping a major whose free total is too small loses no placement. */
  lemma FitsNeedsFree(r: Run, need: int)
    requires RunOk(r) && 0 <= need
    requires Fits(r, need)
    ensures RunSize(r) - Usage(r) >= need
  {
    var j :| GapFits(r, j, need);
    var lo, hi := r.base + MAJOR_SIZE, Limit(r);
    var start, stop := GapStart(r, j), GapStop(r, j);
    assert Packed(r.blocks[..j], lo, start) by { PackedPrefix(r.blocks, j, lo, hi, start); }
    assert Packed(r.blocks[j..], stop, hi) by { PackedSuffix(r.blocks, j, lo, hi, stop); }
    UsageAroundGap(r.blocks, j, lo, hi, start, stop);
  }

  // ----- changes of the layout

  function InsertAt(r: Run, j: int, b: Block): Run
    requires 0 <= j <= |r.blocks|
  {
    r.(blocks := r.blocks[..j] + [b] + r.blocks[j..])
  }

  function InsertBlock(runs: seq<Run>, k: int, j: int, b: Block): seq<Run>
    requires 0 <= k < |runs| && 0 <= j <= |runs[k].blocks|
  {
    runs[k := InsertAt(runs[k], j, b)]
  }

  function RemoveAt(r: Run, j: int): Run
    requires 0 <= j < |r.blocks|
  {
    r.(blocks := r.blocks[..j] + r.blocks[j + 1..])
  }

  /** Drop block `j` of run `k`, and the run itself when that was its last block. */
  function RemoveBlock(runs: seq<Run>, k: int, j: int): seq<Run>
    requires At(runs, k, j)
  {
    if |runs[k].blocks| == 1 then runs[..k] + runs[k + 1..]
    else runs[k := RemoveAt(runs[k], j)]
  }

  function SetRequest(runs: seq<Run>, k: int, j: int, req: int): seq<Run>
    requires At(runs, k, j)
  {
    runs[k := runs[k].(blocks := runs[k].blocks[j := runs[k].blocks[j].(req := req)])]
  }

  /** `b` is exactly what `kmalloc` places at the start of gap `j`. */
  predicate PlacedIn(r: Run, j: int, b: Block)
  {
    BlockOk(b) && GapFits(r, j, Footprint(b)) && b.addr == GapStart(r, j)
  }

  predicate FreshRun(runs: seq<Run>, r: Run)
  {
    RunOk(r) && forall k :: 0 <= k < |runs| ==> Apart(runs[k], r)
  }

  lemma JoinPacked(a: seq<Block>, c: seq<Block>, lo: int, mid: int, hi: int)
    requires Packed(a, lo, mid) && Packed(c, mid, hi)
    ensures Packed(a + c, lo, hi)
  {
  }

  lemma InsertPacked(r: Run, j: int, b: Block)
    requires RunOk(r) && PlacedIn(r, j, b)
    ensures RunOk(InsertAt(r, j, b))
  {
    var lo, hi := r.base + MAJOR_SIZE, Limit(r);
    PackedPrefix(r.blocks, j, lo, hi, b.addr);
    PackedSuffix(r.blocks, j, lo, hi, End(b));
    assert Packed([b], b.addr, End(b));
    JoinPacked(r.blocks[..j], [b], lo, b.addr, End(b));
    JoinPacked(r.blocks[..j] + [b], r.blocks[j..], lo, End(b), hi);
  }

  /** Swapping one run for another on the same pages keeps the list well formed. */
  lemma ReplaceRun(runs: seq<Run>, k: int, r: Run)
    requires WellFormed(runs) && 0 <= k < |runs|
    requires RunOk(r) && r.base == runs[k].base && r.pages == runs[k].pages
    ensures WellFormed(runs[k := r])
    ensures InUse(runs[k := r]) == InUse(runs) - RunPayload(runs[k]) + RunPayload(r)
    ensures Allocated(runs[k := r]) == Allocated(runs)
  {
    SumUpdate(RunSize, runs, k, r);
    SumUpdate(RunPayload, runs, k, r);
  }

  lemma InsertKeeps(runs: seq<Run>, k: int, j: int, b: Block)
    requires WellFormed(runs) && 0 <= k < |runs|
    requires PlacedIn(runs[k], j, b)
    ensures WellFormed(InsertBlock(runs, k, j, b))
    ensures InUse(InsertBlock(runs, k, j, b)) == InUse(runs) + b.size
    ensures Allocated(InsertBlock(runs, k, j, b)) == Allocated(runs)
    ensures Usage(InsertAt(runs[k], j, b)) == Usage(runs[k]) + Footprint(b)
  {
    InsertPacked(runs[k], j, b);
    ReplaceRun(runs, k, InsertAt(runs[k], j, b));
    SumInsert(Payload, runs[k].blocks, j, b);
    SumInsert(Footprint, runs[k].blocks, j, b);
  }

  lemma ExtendKeeps(runs: seq<Run>, r: Run)
    requires WellFormed(runs) && FreshRun(runs, r)
    ensures WellFormed(runs + [r])
    ensures InUse(runs + [r]) == InUse(runs) + RunPayload(r)
    ensures Allocated(runs + [r]) == Allocated(runs) + RunSize(r)
  {
    SumConcat(RunSize, runs, [r]);
    SumConcat(RunPayload, runs, [r]);
  }

  lemma RemoveSums(bs: seq<Block>, j: nat)
    requires j < |bs|
    ensures Sum(Payload, bs[..j] + bs[j + 1..]) == Sum(Payload, bs) - bs[j].size
    ensures Sum(Footprint, bs[..j] + bs[j + 1..]) == Sum(Footprint, bs) - Footprint(bs[j])
  {
    SumSplit(Payload, bs, j);
    SumSplit(Footprint, bs, j);
    SumConcat(Payload, bs[..j], bs[j + 1..]);
    SumConcat(Footprint, bs[..j], bs[j + 1..]);
  }

  lemma RemovePacked(r: Run, j: int)
    requires RunOk(r) && 0 <= j < |r.blocks|
    ensures RunOk(RemoveAt(r, j))
    ensures RunPayload(RemoveAt(r, j)) == RunPayload(r) - r.blocks[j].size
    ensures Usage(RemoveAt(r, j)) == Usage(r) - Footprint(r.blocks[j])
  {
    var lo, hi := r.base + MAJOR_SIZE, Limit(r);
    var b := r.blocks[j];
    PackedPrefix(r.blocks, j, lo, hi, b.addr);
    PackedSuffix(r.blocks, j + 1, lo, hi, b.addr);
    JoinPacked(r.blocks[..j], r.blocks[j + 1..], lo, b.addr, hi);
    RemoveSums(r.blocks, j);
  }

  lemma DropRun(runs: seq<Run>, k: int)
    requires WellFormed(runs) && 0 <= k < |runs|
    ensures WellFormed(runs[..k] + runs[k + 1..])
    ensures InUse(runs[..k] + runs[k + 1..]) == InUse(runs) - RunPayload(runs[k])
    ensures Allocated(runs[..k] + runs[k + 1..]) == Allocated(runs) - RunSize(runs[k])
  {
    SumSplit(RunSize, runs, k);
    SumSplit(RunPayload, runs, k);
    SumConcat(RunSize, runs[..k], runs[k + 1..]);
    SumConcat(RunPayload, runs[..k], runs[k + 1..]);
  }

  lemma RemoveKeeps(runs: seq<Run>, k: int, j: int)
    requires WellFormed(runs) && At(runs, k, j)
    ensures WellFormed(RemoveBlock(runs, k, j))
    ensures NoEmptyRun(runs) ==> NoEmptyRun(RemoveBlock(runs, k, j))
    ensures InUse(RemoveBlock(runs, k, j)) == InUse(runs) - runs[k].blocks[j].size
    ensures Allocated(RemoveBlock(runs, k, j)) ==
            Allocated(runs) - if |runs[k].blocks| == 1 then RunSize(runs[k]) else 0
    ensures Usage(RemoveAt(runs[k], j)) == Usage(runs[k]) - Footprint(runs[k].blocks[j])
  {
    RemovePacked(runs[k], j);
    if |runs[k].blocks| == 1 {
      DropRun(runs, k);
      assert RunPayload(RemoveAt(runs[k], j)) == 0;
    } else {
      ReplaceRun(runs, k, RemoveAt(runs[k], j));
    }
  }

  lemma SetRequestKeeps(runs: seq<Run>, k: int, j: int, req: int)
    requires WellFormed(runs) && At(runs, k, j)
    requires 0 <= req <= runs[k].blocks[j].req
    ensures WellFormed(SetRequest(runs, k, j, req))
    ensures NoEmptyRun(runs) ==> NoEmptyRun(SetRequest(runs, k, j, req))
    ensures InUse(SetRequest(runs, k, j, req)) == InUse(runs)
    ensures Allocated(SetRequest(runs, k, j, req)) == Allocated(runs)
    ensures Usage(SetRequest(runs, k, j, req)[k]) == Usage(runs[k])
  {
    var b := runs[k].blocks[j].(req := req);
    var r' := runs[k].(blocks := runs[k].blocks[j := b]);
    SumUpdate(Payload, runs[k].blocks, j, b);
    SumUpdate(Footprint, runs[k].blocks, j, b);
    assert RunOk(r');
    ReplaceRun(runs, k, r');
  }

  // ----- alignment

  /** The ALIGN macro on the address just after a minor's header. */
  function Align(raw: int): (p: int)
    ensures p % ALIGNMENT == 0
    ensures raw + ALIGN_INFO <= p < raw + ALIGN_INFO + ALIGNMENT
  {
    var q := raw + ALIGN_INFO;
    var diff := q % ALIGNMENT;
    if diff != 0 then q + (ALIGNMENT - diff) else q
  }

  function UserPtr(addr: int): int { Align(addr + MINOR_SIZE) }

  /** Where ALIGN leaves its distance byte, and the distance it leaves there. */
  function AlignSlot(addr: int): int { UserPtr(addr) - ALIGN_INFO }

  function AlignByte(addr: int): int { UserPtr(addr) - (addr + MINOR_SIZE) }

  /** The UNALIGN macro, given the byte it reads. */
  function Unalign(p: int, distance: int): int
  {
    if 0 <= distance < ALIGNMENT + ALIGN_INFO then p - distance else p
  }

  lemma UnalignUndoesAlign(addr: int)
    ensures Unalign(UserPtr(addr), AlignByte(addr)) - MINOR_SIZE == addr
    ensures addr + MINOR_SIZE <= AlignSlot(addr) < UserPtr(addr)
  {
  }

  /** A byte the caller may write through the pointer `kmalloc` gave for `b`. */
  predicate UserByte(b: Block, a: int)
  {
    UserPtr(b.addr) <= a < UserPtr(b.addr) + b.req
  }

  /** A byte of `b`'s header, of its alignment byte, or of its payload. */
  predicate Owns(b: Block, a: int)
  {
    b.addr <= a < End(b)
  }

  /**
   No two live allocations overlap: a byte the caller of one may write is inside that minor, past its
   header and its alignment byte, and belongs to no other live minor and to no major's header.
   */
  lemma LiveBytesDisjoint(runs: seq<Run>, k: int, j: int, a: int)
    requires WellFormed(runs) && At(runs, k, j)
    requires UserByte(runs[k].blocks[j], a)
    ensures Owns(runs[k].blocks[j], a)
    ensures runs[k].blocks[j].addr + MINOR_SIZE <= AlignSlot(runs[k].blocks[j].addr) < a
    ensures forall l, i :: At(runs, l, i) && (l, i) != (k, j) ==> !Owns(runs[l].blocks[i], a)
    ensures forall l :: 0 <= l < |runs| ==> !(runs[l].base <= a < runs[l].base + MAJOR_SIZE)
  {
  }

  lemma BlocksApart(runs: seq<Run>, k: int, j: int, l: int, i: int)
    requires WellFormed(runs) && At(runs, k, j) && At(runs, l, i) && (l, i) != (k, j)
    ensures End(runs[k].blocks[j]) <= runs[l].blocks[i].addr || End(runs[l].blocks[i]) <= runs[k].blocks[j].addr
  {
  }

  /** Header addresses name minors uniquely. */
  lemma AddressesUnique(runs: seq<Run>, k: int, j: int, l: int, i: int)
    requires WellFormed(runs) && At(runs, k, j) && At(runs, l, i)
    requires runs[k].blocks[j].addr == runs[l].blocks[i].addr
    ensures k == l && i == j
  {
  }

  // ----- runs of the allocator

  /** One completed call: a placement, a growth by one major, a free, or a shrink in place. */
  ghost predicate HeapStep(runs: seq<Run>, runs': seq<Run>)
  {
    || (exists k, j, b :: 0 <= k < |runs| && PlacedIn(runs[k], j, b) && runs' == InsertBlock(runs, k, j, b))
    || (exists r :: FreshRun(runs, r) && |r.blocks| == 1 && runs' == runs + [r])
    || (exists k, j :: At(runs, k, j) && runs' == RemoveBlock(runs, k, j))
    || (exists k, j, req :: At(runs, k, j) && 0 <= req <= runs[k].blocks[j].req && runs' == SetRequest(runs, k, j, req))
    || runs' == runs
  }

  lemma StepKeeps(runs: seq<Run>, runs': seq<Run>)
    requires WellFormed(runs) && NoEmptyRun(runs) && HeapStep(runs, runs')
    ensures WellFormed(runs') && NoEmptyRun(runs')
  {
    if k, j, b :| 0 <= k < |runs| && PlacedIn(runs[k], j, b) && runs' == InsertBlock(runs, k, j, b) {
      InsertKeeps(runs, k, j, b);
    } else if r :| FreshRun(runs, r) && |r.blocks| == 1 && runs' == runs + [r] {
      ExtendKeeps(runs, r);
    } else if k, j :| At(runs, k, j) && runs' == RemoveBlock(runs, k, j) {
      RemoveKeeps(runs, k, j);
    } else if k, j, req :| At(runs, k, j) && 0 <= req <= runs[k].blocks[j].req && runs' == SetRequest(runs, k, j, req) {
      SetRequestKeeps(runs, k, j, req);
    }
  }

  ghost predicate HeapTrace(trace: seq<seq<Run>>)
  {
    && trace != [] && trace[0] == []
    && forall t :: 0 <= t < |trace| - 1 ==> HeapStep(trace[t], trace[t + 1])
  }

  lemma {:induction false} TraceWellFormed(trace: seq<seq<Run>>, t: nat)
    requires HeapTrace(trace) && t < |trace|
    ensures WellFormed(trace[t]) && NoEmptyRun(trace[t])
  {
    if t > 0 {
      TraceWellFormed(trace, t - 1);
      StepKeeps(trace[t - 1], trace[t]);
    }
  }

  /** Over every run of the allocator, at every point of it, one byte has at most one live owner. */
  lemma RunNeverOverlaps(trace: seq<seq<Run>>, t: nat, k: int, j: int, l: int, i: int, a: int)
    requires HeapTrace(trace) && t < |trace|
    requires At(trace[t], k, j) && At(trace[t], l, i)
    requires UserByte(trace[t][k].blocks[j], a) && Owns(trace[t][l].blocks[i], a)
    ensures k == l && j == i
  {
    TraceWellFormed(trace, t);
    LiveBytesDisjoint(trace[t], k, j, a);
  }
}
