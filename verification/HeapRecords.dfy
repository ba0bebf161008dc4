/**
 The records liballoc keeps inside the memory it manages: a header at the start of every major and of
 every minor, linked by address (0 is NULL), and every other byte: user data, the alignment byte in front of every
 user pointer, and what dead headers left behind.
 `Represents` says which layout the records spell; the lemmas say what each relinking does to it.
 */
module HeapRecords {
  import opened HeapView
  import opened Sums

  const MAGIC := 0xc001c0de
  const DEAD := 0xdeaddead

  datatype Major = Major(prev: int, next: int, pages: int, size: int, usage: int, first: int)

  datatype Minor = Minor(prev: int, next: int, block: int, magic: int, size: int, reqSize: int)

  datatype Memory = Memory(majors: map<int, Major>, minors: map<int, Minor>, bytes: map<int, int>)

  function Get(bytes: map<int, int>, a: int): int
  {
    if a in bytes then bytes[a] else 0
  }

  /** Byte `i` of a little-endian number. */
  function Le(v: int, i: nat): int
    decreases i
  {
    if i == 0 then v % 256 else Le(v / 256, i - 1)
  }

  /** Byte `o` of a minor's header: three pointers and three words, then four bytes of padding that nobody writes. */
  function MinorByte(r: Minor, o: int): int
    requires 0 <= o < 36
  {
    if o < 8 then Le(r.prev, o) else if o < 16 then Le(r.next, o - 8) else if o < 24 then Le(r.block, o - 16)
    else if o < 28 then Le(r.magic, o - 24) else if o < 32 then Le(r.size, o - 28) else Le(r.reqSize, o - 32)
  }

  /** The byte at `x` of the header at `a`, once that is marked dead. */
  function DeadByte(r: Minor, a: int, x: int): int
    requires a <= x < a + 36
  {
    MinorByte(r.(magic := DEAD), x - a)
  }

  /** A dead header stays where it was when nothing leads to it any more. */
  function DeadBytes(bytes: map<int, int>, a: int, r: Minor): map<int, int>
  {
    bytes + map x | a <= x < a + 36 :: DeadByte(r, a, x)
  }

  // ----- what the records of a layout look like

  function PrevAddr(bs: seq<Block>, j: int): int
    requires 0 <= j <= |bs|
  {
    if j == 0 then 0 else bs[j - 1].addr
  }

  function NextAddr(bs: seq<Block>, j: int): int
    requires 0 <= j <= |bs|
  {
    if j == |bs| then 0 else bs[j].addr
  }

  function MinorRecord(base: int, bs: seq<Block>, j: int): Minor
    requires 0 <= j < |bs|
  {
    Minor(PrevAddr(bs, j), NextAddr(bs, j + 1), base, MAGIC, bs[j].size, bs[j].req)
  }

  function RunAddr(runs: seq<Run>, k: int): int
  {
    if 0 <= k < |runs| then runs[k].base else 0
  }

  function MajorRecord(runs: seq<Run>, k: int): Major
    requires 0 <= k < |runs|
  {
    Major(RunAddr(runs, k - 1), RunAddr(runs, k + 1), runs[k].pages, RunSize(runs[k]), Usage(runs[k]), NextAddr(runs[k].blocks, 0))
  }

  predicate MinorsSpell(minors: map<int, Minor>, base: int, bs: seq<Block>)
  {
    && (forall j :: 0 <= j < |bs| ==> bs[j].addr in minors)
    && (forall j {:trigger MinorRecord(base, bs, j)} :: 0 <= j < |bs| ==>
        minors[bs[j].addr] == MinorRecord(base, bs, j))
  }

  predicate MajorsSpell(majors: map<int, Major>, runs: seq<Run>)
  {
    && (forall k :: 0 <= k < |runs| ==> runs[k].base in majors)
    && (forall k {:trigger MajorRecord(runs, k)} :: 0 <= k < |runs| ==> majors[runs[k].base] == MajorRecord(runs, k))
  }

  predicate BytesSpell(bytes: map<int, int>, bs: seq<Block>)
  {
    forall j :: 0 <= j < |bs| ==> AlignSlot(bs[j].addr) in bytes && bytes[AlignSlot(bs[j].addr)] == AlignByte(bs[j].addr)
  }

  predicate RunSpelled(m: Memory, r: Run)
  {
    MinorsSpell(m.minors, r.base, r.blocks) && BytesSpell(m.bytes, r.blocks)
  }

  /** Only live minors have a header. */
  ghost predicate MinorsLive(minors: map<int, Minor>, runs: seq<Run>)
  {
    forall a {:trigger Live(runs, a)} :: a in minors ==> Live(runs, a)
  }

  /** Only listed majors have one. */
  ghost predicate MajorsListed(majors: map<int, Major>, runs: seq<Run>)
  {
    forall a {:trigger OnList(runs, a)} :: a in majors ==> OnList(runs, a)
  }

  ghost predicate Represents(m: Memory, runs: seq<Run>)
  {
    && MajorsSpell(m.majors, runs)
    && (forall k :: 0 <= k < |runs| ==> RunSpelled(m, runs[k]))
    && MinorsLive(m.minors, runs)
    && MajorsListed(m.majors, runs)
  }

  predicate OnList(runs: seq<Run>, base: int)
  {
    exists k :: 0 <= k < |runs| && runs[k].base == base
  }

  /** The records spell a sound layout, the root is its first major and the best bet is on the list. */
  ghost predicate LinkedState(m: Memory, root: int, bet: int, runs: seq<Run>)
  {
    && WellFormed(runs)
    && Represents(m, runs)
    && root == RunAddr(runs, 0)
    && (bet == 0 || OnList(runs, bet))
  }

  // ----- the relinkings

  /** Write a new header at `b.addr` and hook it between `prev` and `next`. */
  function LinkMinor(minors: map<int, Minor>, base: int, prev: int, next: int, b: Block): map<int, Minor>
  {
    var m1 := minors[b.addr := Minor(prev, next, base, MAGIC, b.size, b.req)];
    var m2 := if prev in m1 && prev != 0 then m1[prev := m1[prev].(next := b.addr)] else m1;
    if next in m2 && next != 0 then m2[next := m2[next].(prev := b.addr)] else m2
  }

  /** Close the list over the header at `a`. */
  function UnlinkMinor(minors: map<int, Minor>, a: int): map<int, Minor>
    requires a in minors
  {
    var prev, next := minors[a].prev, minors[a].next;
    var m1 := minors - {a};
    var m2 := if next in m1 && next != 0 then m1[next := m1[next].(prev := prev)] else m1;
    if prev in m2 && prev != 0 then m2[prev := m2[prev].(next := next)] else m2
  }

  predicate Distinct(bs: seq<Block>)
  {
    && (forall i :: 0 <= i < |bs| ==> bs[i].addr != 0)
    && (forall i, j :: 0 <= i < j < |bs| ==> bs[i].addr != bs[j].addr)
  }

  predicate Avoids(bs: seq<Block>, a: int)
  {
    forall i :: 0 <= i < |bs| ==> bs[i].addr != a
  }

  lemma LinkSpells(minors: map<int, Minor>, base: int, bs: seq<Block>, j: int, b: Block)
    requires MinorsSpell(minors, base, bs) && Distinct(bs)
    requires 0 <= j <= |bs| && b.addr != 0 && Avoids(bs, b.addr)
    ensures MinorsSpell(LinkMinor(minors, base, PrevAddr(bs, j), NextAddr(bs, j), b), base, bs[..j] + [b] + bs[j..])
  {
    var bs' := bs[..j] + [b] + bs[j..];
    var prev, next := PrevAddr(bs, j), NextAddr(bs, j);
    var minors' := LinkMinor(minors, base, prev, next, b);
    forall i | 0 <= i < |bs'|
      ensures bs'[i].addr in minors' && minors'[bs'[i].addr] == MinorRecord(base, bs', i)
    {
      if i < j {
        assert bs'[i] == bs[i];
        assert minors[bs[i].addr] == MinorRecord(base, bs, i);
      } else if i > j {
        assert bs'[i] == bs[i - 1];
        assert minors[bs[i - 1].addr] == MinorRecord(base, bs, i - 1);
      }
    }
  }

  lemma UnlinkSpells(minors: map<int, Minor>, base: int, bs: seq<Block>, j: int)
    requires MinorsSpell(minors, base, bs) && Distinct(bs)
    requires 0 <= j < |bs|
    ensures MinorRecord(base, bs, j) == minors[bs[j].addr]
    ensures MinorsSpell(UnlinkMinor(minors, bs[j].addr), base, bs[..j] + bs[j + 1..])
  {
    var bs' := bs[..j] + bs[j + 1..];
    var minors' := UnlinkMinor(minors, bs[j].addr);
    assert minors[bs[j].addr] == MinorRecord(base, bs, j);
    forall i | 0 <= i < |bs'|
      ensures bs'[i].addr in minors' && minors'[bs'[i].addr] == MinorRecord(base, bs', i)
    {
      if i < j {
        assert bs'[i] == bs[i];
        assert minors[bs[i].addr] == MinorRecord(base, bs, i);
      } else {
        assert bs'[i] == bs[i + 1];
        assert minors[bs[i + 1].addr] == MinorRecord(base, bs, i + 1);
      }
    }
  }

  lemma PackedDistinct(bs: seq<Block>, lo: int, hi: int)
    requires Packed(bs, lo, hi) && 0 < lo
    ensures Distinct(bs)
  {
  }

  predicate DistinctBases(runs: seq<Run>)
  {
    && (forall k :: 0 <= k < |runs| ==> runs[k].base != 0)
    && (forall k, l :: 0 <= k < l < |runs| ==> runs[k].base != runs[l].base)
  }

  lemma BasesDistinct(runs: seq<Run>)
    requires WellFormed(runs)
    ensures DistinctBases(runs)
  {
  }

  // ----- the whole memory after each relinking

  /** `m'` differs from `m` only inside the pages of `r` (and in major headers). */
  ghost predicate ChangedOnlyIn(m: Memory, m': Memory, r: Run)
  {
    && (forall a :: a in m.minors && a != 0 && !(r.base <= a < Limit(r)) ==>
        a in m'.minors && m'.minors[a] == m.minors[a])
    && (forall a :: a in m.bytes && !(r.base <= a < Limit(r)) ==> a in m'.bytes && m'.bytes[a] == m.bytes[a])
  }

  /** The records of one run survive changes made inside the pages of another. */
  lemma OtherRunSpelled(m: Memory, m': Memory, r: Run, s: Run)
    requires RunOk(s) && Apart(r, s)
    requires RunSpelled(m, s) && ChangedOnlyIn(m, m', r)
    ensures RunSpelled(m', s)
  {
  }

  lemma OtherRunsSpelled(m: Memory, m': Memory, runs: seq<Run>, k: int)
    requires WellFormed(runs) && 0 <= k < |runs|
    requires forall l :: 0 <= l < |runs| ==> RunSpelled(m, runs[l])
    requires ChangedOnlyIn(m, m', runs[k])
    ensures forall l :: 0 <= l < |runs| && l != k ==> RunSpelled(m', runs[l])
  {
    forall l | 0 <= l < |runs| && l != k
      ensures RunSpelled(m', runs[l])
    {
      assert Apart(runs[k], runs[l]) by {
        if l < k { assert Apart(runs[l], runs[k]); }
      }
      OtherRunSpelled(m, m', runs[k], runs[l]);
    }
  }

  function WithUsage(majors: map<int, Major>, base: int, usage: int, first: int): map<int, Major>
    requires base in majors
  {
    majors[base := majors[base].(usage := usage, first := first)]
  }

  lemma NeighboursKept(runs: seq<Run>, k: int, r: Run, l: int)
    requires 0 <= k < |runs| && r.base == runs[k].base && 0 <= l < |runs|
    ensures RunAddr(runs[k := r], l - 1) == RunAddr(runs, l - 1)
    ensures RunAddr(runs[k := r], l + 1) == RunAddr(runs, l + 1)
    ensures l != k ==> MajorRecord(runs[k := r], l) == MajorRecord(runs, l)
  {
  }

  /** Changing what run `k` holds changes only that major's `usage` and `first`. */
  lemma MajorsReplace(majors: map<int, Major>, runs: seq<Run>, k: int, r: Run)
    requires DistinctBases(runs) && MajorsSpell(majors, runs) && 0 <= k < |runs|
    requires r.base == runs[k].base && r.pages == runs[k].pages
    ensures MajorsSpell(WithUsage(majors, r.base, Usage(r), NextAddr(r.blocks, 0)), runs[k := r])
  {
    var runs' := runs[k := r];
    var majors' := WithUsage(majors, r.base, Usage(r), NextAddr(r.blocks, 0));
    forall l | 0 <= l < |runs'|
      ensures runs'[l].base in majors' && majors'[runs'[l].base] == MajorRecord(runs', l)
    {
      NeighboursKept(runs, k, r, l);
      assert majors[runs[l].base] == MajorRecord(runs, l);
    }
  }

  lemma ReplaceListed(majors: map<int, Major>, majors': map<int, Major>, runs: seq<Run>, k: int, r: Run)
    requires MajorsListed(majors, runs) && majors'.Keys == majors.Keys && 0 <= k < |runs| && r.base == runs[k].base
    ensures MajorsListed(majors', runs[k := r])
  {
    forall a | a in majors' ensures OnList(runs[k := r], a) {
      assert OnList(runs, a);
      var l :| 0 <= l < |runs| && runs[l].base == a;
      assert runs[k := r][l].base == a;
    }
  }

  /** `usage` and `first` of the major at `base` once `b` follows the minor at `prev`. */
  function GrownMajors(majors: map<int, Major>, base: int, prev: int, b: Block): map<int, Major>
    requires base in majors
  {
    var first := if prev == 0 then b.addr else majors[base].first;
    WithUsage(majors, base, majors[base].usage + Footprint(b), first)
  }

  /** The memory once `b` has been written on the pages at `base` and linked between `prev` and `next`. */
  function PlacedMemory(m: Memory, base: int, prev: int, next: int, b: Block): Memory
    requires base in m.majors
  {
    Memory(GrownMajors(m.majors, base, prev, b),
           LinkMinor(m.minors, base, prev, next, b),
           m.bytes[AlignSlot(b.addr) := AlignByte(b.addr)])
  }

  /** The memory once `b` has been placed in gap `j` of `r`. */
  function InsertedMemory(m: Memory, r: Run, j: int, b: Block): Memory
    requires 0 <= j <= |r.blocks| && r.base in m.majors
  {
    PlacedMemory(m, r.base, PrevAddr(r.blocks, j), NextAddr(r.blocks, j), b)
  }

  lemma InsertedMinors(minors: map<int, Minor>, r: Run, j: int, b: Block)
    requires RunOk(r) && MinorsSpell(minors, r.base, r.blocks) && PlacedIn(r, j, b)
    ensures MinorsSpell(LinkMinor(minors, r.base, PrevAddr(r.blocks, j), NextAddr(r.blocks, j), b), r.base, InsertAt(r, j, b).blocks)
  {
    PackedDistinct(r.blocks, r.base + MAJOR_SIZE, Limit(r));
    assert Avoids(r.blocks, b.addr) by { PlacedAvoids(r, j, b); }
    LinkSpells(minors, r.base, r.blocks, j, b);
  }

  lemma PlacedAvoids(r: Run, j: int, b: Block)
    requires RunOk(r) && PlacedIn(r, j, b)
    ensures Avoids(r.blocks, b.addr)
    ensures forall i :: 0 <= i < |r.blocks| ==> End(r.blocks[i]) <= b.addr || End(b) <= r.blocks[i].addr
  {
  }

  /** The distance byte of one block, when that of another is written. */
  lemma SlotKept(bytes: map<int, int>, b: Block, c: Block)
    requires BlockOk(b) && BlockOk(c) && (End(b) <= c.addr || End(c) <= b.addr)
    requires AlignSlot(b.addr) in bytes && bytes[AlignSlot(b.addr)] == AlignByte(b.addr)
    ensures var bytes' := bytes[AlignSlot(c.addr) := AlignByte(c.addr)];
            AlignSlot(b.addr) in bytes' && bytes'[AlignSlot(b.addr)] == AlignByte(b.addr)
  {
    SlotsApart(b, c);
  }

  lemma BytesWith(bytes: map<int, int>, bs: seq<Block>, j: int, b: Block)
    requires BytesSpell(bytes, bs) && 0 <= j <= |bs| && BytesSpell(bytes, [b])
    ensures BytesSpell(bytes, bs[..j] + [b] + bs[j..])
  {
    assert [b][0] == b;
    assert AlignSlot(b.addr) in bytes && bytes[AlignSlot(b.addr)] == AlignByte(b.addr);
  }

  lemma InsertedBytes(bytes: map<int, int>, r: Run, j: int, b: Block)
    requires RunOk(r) && BytesSpell(bytes, r.blocks) && PlacedIn(r, j, b)
    ensures BytesSpell(bytes[AlignSlot(b.addr) := AlignByte(b.addr)], InsertAt(r, j, b).blocks)
  {
    var bs, bytes' := r.blocks, bytes[AlignSlot(b.addr) := AlignByte(b.addr)];
    PlacedAvoids(r, j, b);
    forall o | 0 <= o < |bs| ensures AlignSlot(bs[o].addr) in bytes' && bytes'[AlignSlot(bs[o].addr)] == AlignByte(bs[o].addr) {
      assert BlockOk(bs[o]);
      SlotKept(bytes, bs[o], b);
    }
    BytesWith(bytes', bs, j, b);
  }

  lemma SlotsApart(b: Block, c: Block)
    requires BlockOk(b) && BlockOk(c) && (End(b) <= c.addr || End(c) <= b.addr)
    ensures AlignSlot(b.addr) != AlignSlot(c.addr)
  {
  }

  lemma LiveAfterInsert(runs: seq<Run>, k: int, j: int, b: Block, a: int)
    requires 0 <= k < |runs| && 0 <= j <= |runs[k].blocks|
    ensures Live(InsertBlock(runs, k, j, b), a) <==> Live(runs, a) || a == b.addr
  {
    var runs' := InsertBlock(runs, k, j, b);
    assert At(runs', k, j) && runs'[k].blocks[j] == b;
    if l, i :| At(runs, l, i) && runs[l].blocks[i].addr == a {
      var i' := if l == k && i >= j then i + 1 else i;
      assert At(runs', l, i') && runs'[l].blocks[i'] == runs[l].blocks[i];
    }
    if l, i :| At(runs', l, i) && runs'[l].blocks[i].addr == a && (l, i) != (k, j) {
      var i' := if l == k && i > j then i - 1 else i;
      assert At(runs, l, i') && runs'[l].blocks[i] == runs[l].blocks[i'];
    }
  }

  lemma InsertedLive(minors: map<int, Minor>, runs: seq<Run>, k: int, j: int, b: Block, prev: int, next: int)
    requires MinorsLive(minors, runs) && 0 <= k < |runs| && 0 <= j <= |runs[k].blocks|
    ensures MinorsLive(LinkMinor(minors, runs[k].base, prev, next, b), InsertBlock(runs, k, j, b))
  {
    var minors' := LinkMinor(minors, runs[k].base, prev, next, b);
    forall a | a in minors' ensures Live(InsertBlock(runs, k, j, b), a) {
      LiveAfterInsert(runs, k, j, b, a);
    }
  }

  lemma LinkFrame(minors: map<int, Minor>, base: int, prev: int, next: int, b: Block, a: int)
    requires a in minors && a != b.addr && a != prev && a != next
    ensures var minors' := LinkMinor(minors, base, prev, next, b); a in minors' && minors'[a] == minors[a]
  {
  }

  lemma InsertStaysInRun(m: Memory, r: Run, j: int, b: Block)
    requires RunOk(r) && r.base in m.majors && PlacedIn(r, j, b)
    ensures ChangedOnlyIn(m, InsertedMemory(m, r, j, b), r)
  {
    var prev, next := PrevAddr(r.blocks, j), NextAddr(r.blocks, j);
    assert prev == 0 || r.base <= prev < Limit(r) by { assert j > 0 ==> BlockOk(r.blocks[j - 1]); }
    assert next == 0 || r.base <= next < Limit(r) by { assert j < |r.blocks| ==> BlockOk(r.blocks[j]); }
    assert r.base <= b.addr <= AlignSlot(b.addr) < Limit(r);
    var m' := InsertedMemory(m, r, j, b);
    forall a | a in m.minors && a != 0 && !(r.base <= a < Limit(r))
      ensures a in m'.minors && m'.minors[a] == m.minors[a]
    {
      LinkFrame(m.minors, r.base, prev, next, b, a);
    }
  }

  lemma InsertedMajors(majors: map<int, Major>, runs: seq<Run>, k: int, j: int, b: Block)
    requires DistinctBases(runs) && MajorsSpell(majors, runs) && 0 <= k < |runs| && 0 <= j <= |runs[k].blocks|
    requires Distinct(runs[k].blocks)
    ensures MajorsSpell(GrownMajors(majors, runs[k].base, PrevAddr(runs[k].blocks, j), b), InsertBlock(runs, k, j, b))
  {
    var r' := InsertAt(runs[k], j, b);
    MajorsReplace(majors, runs, k, r');
    SumInsert(Footprint, runs[k].blocks, j, b);
    assert majors[runs[k].base] == MajorRecord(runs, k);
    assert NextAddr(r'.blocks, 0) == if j == 0 then b.addr else NextAddr(runs[k].blocks, 0);
  }

  lemma InsertRepresents(m: Memory, runs: seq<Run>, k: int, j: int, b: Block)
    requires WellFormed(runs) && Represents(m, runs) && 0 <= k < |runs| && PlacedIn(runs[k], j, b)
    ensures Represents(InsertedMemory(m, runs[k], j, b), InsertBlock(runs, k, j, b))
  {
    var r, m', runs' := runs[k], InsertedMemory(m, runs[k], j, b), InsertBlock(runs, k, j, b);
    BasesDistinct(runs);
    RunDistinct(runs, k);
    InsertedMajors(m.majors, runs, k, j, b);
    InsertedMinors(m.minors, r, j, b);
    InsertedBytes(m.bytes, r, j, b);
    InsertStaysInRun(m, r, j, b);
    OtherRunsSpelled(m, m', runs, k);
    InsertedLive(m.minors, runs, k, j, b, PrevAddr(r.blocks, j), NextAddr(r.blocks, j));
    ReplaceListed(m.majors, m'.majors, runs, k, InsertAt(r, j, b));
  }

  // ----- freeing

  /** `usage` and `first` of the owning major once the minor `rec` is gone. */
  function ShrunkMajors(majors: map<int, Major>, rec: Minor): map<int, Major>
    requires rec.block in majors
  {
    var first := if rec.prev == 0 then rec.next else majors[rec.block].first;
    WithUsage(majors, rec.block, majors[rec.block].usage - (rec.size + MINOR_SIZE), first)
  }

  /** The memory once the minor at `a` is dead and unlinked. */
  function RemovedMemory(m: Memory, a: int): Memory
    requires a in m.minors && m.minors[a].block in m.majors
  {
    Memory(ShrunkMajors(m.majors, m.minors[a]), UnlinkMinor(m.minors, a), DeadBytes(m.bytes, a, m.minors[a]))
  }

  /** Where block (l, i) of the list without block (k, j) stood before. */
  lemma RemovedOrigin(runs: seq<Run>, k: int, j: int, l: int, i: int) returns (l': int, i': int)
    requires At(runs, k, j) && At(RemoveBlock(runs, k, j), l, i)
    ensures At(runs, l', i') && (l', i') != (k, j)
    ensures runs[l'].blocks[i'] == RemoveBlock(runs, k, j)[l].blocks[i]
  {
    if |runs[k].blocks| == 1 {
      l', i' := if l < k then l else l + 1, i;
    } else {
      l', i' := l, if l == k && i >= j then i + 1 else i;
    }
  }

  /** Where block (l, i) stands once block (k, j) is gone. */
  lemma RemovedTarget(runs: seq<Run>, k: int, j: int, l: int, i: int) returns (l': int, i': int)
    requires At(runs, k, j) && At(runs, l, i) && (l, i) != (k, j)
    ensures At(RemoveBlock(runs, k, j), l', i')
    ensures RemoveBlock(runs, k, j)[l'].blocks[i'] == runs[l].blocks[i]
  {
    if |runs[k].blocks| == 1 {
      l', i' := if l < k then l else l - 1, i;
    } else {
      l', i' := l, if l == k && i > j then i - 1 else i;
    }
  }

  /** A free ends the life of exactly one header. */
  lemma LiveAfterRemove(runs: seq<Run>, k: int, j: int, a: int)
    requires WellFormed(runs) && At(runs, k, j)
    ensures Live(RemoveBlock(runs, k, j), a) <==> Live(runs, a) && a != runs[k].blocks[j].addr
  {
    var runs' := RemoveBlock(runs, k, j);
    if l, i :| At(runs, l, i) && runs[l].blocks[i].addr == a && a != runs[k].blocks[j].addr {
      var l', i' := RemovedTarget(runs, k, j, l, i);
    }
    if l, i :| At(runs', l, i) && runs'[l].blocks[i].addr == a {
      var l', i' := RemovedOrigin(runs, k, j, l, i);
      if a == runs[k].blocks[j].addr {
        AddressesUnique(runs, k, j, l', i');
      }
    }
  }

  lemma RemovedLive(minors: map<int, Minor>, runs: seq<Run>, k: int, j: int)
    requires WellFormed(runs) && MinorsLive(minors, runs) && At(runs, k, j)
    requires runs[k].blocks[j].addr in minors
    ensures MinorsLive(UnlinkMinor(minors, runs[k].blocks[j].addr), RemoveBlock(runs, k, j))
  {
    var a := runs[k].blocks[j].addr;
    var minors' := UnlinkMinor(minors, a);
    forall x | x in minors' ensures Live(RemoveBlock(runs, k, j), x) {
      assert x in minors && x != a;
      LiveAfterRemove(runs, k, j, x);
    }
  }

  lemma UnlinkFrame(minors: map<int, Minor>, x: int, a: int)
    requires x in minors
    requires a in minors && a != x && a != minors[x].prev && a != minors[x].next
    ensures var minors' := UnlinkMinor(minors, x); a in minors' && minors'[a] == minors[a]
  {
  }

  lemma UnlinkStaysInRun(m: Memory, m': Memory, r: Run, j: int)
    requires RunOk(r) && 0 <= j < |r.blocks|
    requires MinorsSpell(m.minors, r.base, r.blocks)
    requires m'.minors == UnlinkMinor(m.minors, r.blocks[j].addr)
    requires r.blocks[j].addr in m.minors &&
        m'.bytes == DeadBytes(m.bytes, r.blocks[j].addr, m.minors[r.blocks[j].addr])
    ensures ChangedOnlyIn(m, m', r)
  {
    var x := r.blocks[j].addr;
    var prev, next := PrevAddr(r.blocks, j), NextAddr(r.blocks, j + 1);
    assert r.base <= x && x + 36 < Limit(r) by { assert BlockOk(r.blocks[j]); }
    assert prev == 0 || r.base <= prev < Limit(r) by { assert j > 0 ==> BlockOk(r.blocks[j - 1]); }
    assert next == 0 || r.base <= next < Limit(r) by { assert j + 1 < |r.blocks| ==> BlockOk(r.blocks[j + 1]); }
    assert m.minors[x] == MinorRecord(r.base, r.blocks, j);
    forall a | a in m.minors && a != 0 && !(r.base <= a < Limit(r))
      ensures a in m'.minors && m'.minors[a] == m.minors[a]
    {
      UnlinkFrame(m.minors, x, a);
    }
  }

  lemma RemovedMajors(majors: map<int, Major>, runs: seq<Run>, k: int, j: int)
    requires DistinctBases(runs) && MajorsSpell(majors, runs) && At(runs, k, j) && Distinct(runs[k].blocks)
    ensures MajorsSpell(ShrunkMajors(majors, MinorRecord(runs[k].base, runs[k].blocks, j)), runs[k := RemoveAt(runs[k], j)])
  {
    var r' := RemoveAt(runs[k], j);
    MajorsReplace(majors, runs, k, r');
    RemoveSums(runs[k].blocks, j);
    assert majors[runs[k].base] == MajorRecord(runs, k);
    assert NextAddr(r'.blocks, 0) == NextAddr(runs[k].blocks, if j == 0 then 1 else 0);
  }

  lemma RemovedBytes(bytes: map<int, int>, r: Run, j: int, rec: Minor)
    requires RunOk(r) && BytesSpell(bytes, r.blocks) && 0 <= j < |r.blocks|
    ensures BytesSpell(DeadBytes(bytes, r.blocks[j].addr, rec), RemoveAt(r, j).blocks)
  {
    var bs, bs' := r.blocks, RemoveAt(r, j).blocks;
    var bytes' := DeadBytes(bytes, bs[j].addr, rec);
    forall i | 0 <= i < |bs'|
      ensures AlignSlot(bs'[i].addr) in bytes' && bytes'[AlignSlot(bs'[i].addr)] == AlignByte(bs'[i].addr)
    {
      var o := if i < j then i else i + 1;
      assert bs'[i] == bs[o] && BlockOk(bs[o]) && BlockOk(bs[j]);
      assert End(bs[o]) <= bs[j].addr || End(bs[j]) <= bs[o].addr;
    }
  }

  lemma RemovedRunSpelled(m: Memory, r: Run, j: int)
    requires RunOk(r) && Distinct(r.blocks) && 0 <= j < |r.blocks|
    requires r.base in m.majors && RunSpelled(m, r)
    ensures m.minors[r.blocks[j].addr] == MinorRecord(r.base, r.blocks, j)
    ensures RunSpelled(RemovedMemory(m, r.blocks[j].addr), RemoveAt(r, j))
    ensures ChangedOnlyIn(m, RemovedMemory(m, r.blocks[j].addr), r)
  {
    UnlinkSpells(m.minors, r.base, r.blocks, j);
    RemovedBytes(m.bytes, r, j, m.minors[r.blocks[j].addr]);
    UnlinkStaysInRun(m, RemovedMemory(m, r.blocks[j].addr), r, j);
  }

  lemma RunDistinct(runs: seq<Run>, k: int)
    requires WellFormed(runs) && 0 <= k < |runs|
    ensures Distinct(runs[k].blocks)
  {
  }

  /** A memory whose records spell every run spells the list. */
  lemma Assemble(m: Memory, runs: seq<Run>, k: int, r: Run)
    requires 0 <= k < |runs| && MajorsSpell(m.majors, runs[k := r]) && RunSpelled(m, r)
    requires forall l :: 0 <= l < |runs| && l != k ==> RunSpelled(m, runs[l])
    requires MinorsLive(m.minors, runs[k := r]) && MajorsListed(m.majors, runs[k := r])
    ensures Represents(m, runs[k := r])
  {
  }

  lemma RemovedKeys(m: Memory, runs: seq<Run>, k: int, j: int)
    requires WellFormed(runs) && MinorsLive(m.minors, runs) && MajorsListed(m.majors, runs) && At(runs, k, j) &&
        |runs[k].blocks| > 1
    requires runs[k].blocks[j].addr in m.minors && m.minors[runs[k].blocks[j].addr].block in m.majors
    ensures var m', runs' := RemovedMemory(m, runs[k].blocks[j].addr), runs[k := RemoveAt(runs[k], j)];
            MinorsLive(m'.minors, runs') && MajorsListed(m'.majors, runs')
  {
    var m' := RemovedMemory(m, runs[k].blocks[j].addr);
    RemovedLive(m.minors, runs, k, j);
    ReplaceListed(m.majors, m'.majors, runs, k, RemoveAt(runs[k], j));
  }

  lemma RemoveRepresents(m: Memory, runs: seq<Run>, k: int, j: int)
    requires WellFormed(runs) && Represents(m, runs) && At(runs, k, j) && |runs[k].blocks| > 1
    ensures var a := runs[k].blocks[j].addr;
            a in m.minors && m.minors[a].block in m.majors && Represents(RemovedMemory(m, a), runs[k := RemoveAt(runs[k], j)])
  {
    var r := runs[k];
    assert RunSpelled(m, r);
    RunDistinct(runs, k);
    BasesDistinct(runs);
    RemovedRunSpelled(m, r, j);
    var m' := RemovedMemory(m, r.blocks[j].addr);
    OtherRunsSpelled(m, m', runs, k);
    RemovedMajors(m.majors, runs, k, j);
    RemovedKeys(m, runs, k, j);
    Assemble(m', runs, k, RemoveAt(r, j));
  }

  /** Take the major at `base` out of the list of majors. */
  function DropMajor(majors: map<int, Major>, base: int): map<int, Major>
    requires base in majors
  {
    var prev, next := majors[base].prev, majors[base].next;
    var m1 := if prev in majors && prev != 0 then majors[prev := majors[prev].(next := next)] else majors;
    var m2 := if next in m1 && next != 0 then m1[next := m1[next].(prev := prev)] else m1;
    m2 - {base}
  }

  lemma DroppedRecord(runs: seq<Run>, k: int, l: int)
    requires 0 <= k < |runs| && 0 <= l < |runs| - 1
    ensures var runs' := runs[..k] + runs[k + 1..];
            var o := if l < k then l else l + 1;
            && runs'[l] == runs[o]
            && MajorRecord(runs', l) == MajorRecord(runs, o).(prev := if l == k then RunAddr(runs, k - 1) else RunAddr(runs, o - 1),
                                                              next := if l == k - 1 then RunAddr(runs, k + 1) else RunAddr(runs, o + 1))
  {
  }

  lemma DropSpells(majors: map<int, Major>, runs: seq<Run>, k: int)
    requires DistinctBases(runs) && MajorsSpell(majors, runs) && 0 <= k < |runs|
    ensures MajorsSpell(DropMajor(majors, runs[k].base), runs[..k] + runs[k + 1..])
  {
    var runs' := runs[..k] + runs[k + 1..];
    assert majors[runs[k].base] == MajorRecord(runs, k);
    var majors' := DropMajor(majors, runs[k].base);
    forall l | 0 <= l < |runs'|
      ensures runs'[l].base in majors' && majors'[runs'[l].base] == MajorRecord(runs', l)
    {
      var o := if l < k then l else l + 1;
      DroppedRecord(runs, k, l);
      assert majors[runs[o].base] == MajorRecord(runs, o);
      assert runs[o].base != runs[k].base;
    }
  }

  /** The memory once the last minor of a major is freed and the major is given back. */
  function DroppedMemory(m: Memory, a: int): Memory
    requires a in m.minors && m.minors[a].block in m.majors
  {
    var m1 := RemovedMemory(m, a);
    m1.(majors := DropMajor(m1.majors, m.minors[a].block))
  }

  lemma DroppedMajors(majors: map<int, Major>, runs: seq<Run>, k: int)
    requires DistinctBases(runs) && MajorsSpell(majors, runs) && At(runs, k, 0) && |runs[k].blocks| == 1 &&
        Distinct(runs[k].blocks)
    ensures MajorsSpell(DropMajor(ShrunkMajors(majors, MinorRecord(runs[k].base, runs[k].blocks, 0)), runs[k].base),
                        runs[..k] + runs[k + 1..])
  {
    var runs1 := runs[k := RemoveAt(runs[k], 0)];
    RemovedMajors(majors, runs, k, 0);
    DropSpells(ShrunkMajors(majors, MinorRecord(runs[k].base, runs[k].blocks, 0)), runs1, k);
    assert runs1[..k] + runs1[k + 1..] == runs[..k] + runs[k + 1..];
  }

  lemma DropRepresents(m: Memory, runs: seq<Run>, k: int)
    requires WellFormed(runs) && Represents(m, runs) && 0 <= k < |runs| && |runs[k].blocks| == 1
    ensures var a := runs[k].blocks[0].addr;
            a in m.minors && m.minors[a].block in m.majors && Represents(DroppedMemory(m, a), runs[..k] + runs[k + 1..])
  {
    var r := runs[k];
    assert RunSpelled(m, r);
    RunDistinct(runs, k);
    BasesDistinct(runs);
    RemovedRunSpelled(m, r, 0);
    DroppedMajors(m.majors, runs, k);
    var m' := DroppedMemory(m, r.blocks[0].addr);
    RemovedLive(m.minors, runs, k, 0);
    DropListed(m.majors, m'.majors, runs, k);
    OtherRunsSpelled(m, m', runs, k);
    RunsSpelledWithout(m', runs, k);
  }

  lemma DropListed(majors: map<int, Major>, majors': map<int, Major>, runs: seq<Run>, k: int)
    requires MajorsListed(majors, runs) && 0 <= k < |runs| && majors'.Keys == majors.Keys - {runs[k].base}
    ensures MajorsListed(majors', runs[..k] + runs[k + 1..])
  {
    var runs' := runs[..k] + runs[k + 1..];
    forall a | a in majors' ensures OnList(runs', a) {
      assert OnList(runs, a);
      var l :| 0 <= l < |runs| && runs[l].base == a;
      assert runs'[if l < k then l else l - 1].base == a;
    }
  }

  lemma RunsSpelledWithout(m: Memory, runs: seq<Run>, k: int)
    requires 0 <= k < |runs|
    requires forall l :: 0 <= l < |runs| && l != k ==> RunSpelled(m, runs[l])
    ensures var runs' := runs[..k] + runs[k + 1..]; forall l :: 0 <= l < |runs'| ==> RunSpelled(m, runs'[l])
  {
  }

  // ----- growing

  /** A header as `allocate_new_page` leaves it: linked to nothing, holding nothing. */
  function NewMajor(pages: int): Major
  {
    Major(0, 0, pages, pages * 4096, MAJOR_SIZE, 0)
  }

  /** Hook the new major at `added` after the last one, at `last`. */
  function AppendMajor(majors: map<int, Major>, last: int, added: int): map<int, Major>
    requires last in majors && added in majors
  {
    var m1 := majors[last := majors[last].(next := added)];
    m1[added := m1[added].(prev := last)]
  }

  lemma AppendedRecord(runs: seq<Run>, r: Run, l: int)
    requires 0 <= l < |runs|
    ensures MajorRecord(runs + [r], l) == MajorRecord(runs, l).(next := if l == |runs| - 1 then r.base else RunAddr(runs, l + 1))
  {
  }

  lemma AppendSpells(majors: map<int, Major>, runs: seq<Run>, r: Run)
    requires DistinctBases(runs) && MajorsSpell(majors, runs) && r.blocks == [] && r.base != 0
    requires forall l :: 0 <= l < |runs| ==> runs[l].base != r.base
    ensures var majors1 := majors[r.base := NewMajor(r.pages)];
            if runs == [] then MajorsSpell(majors1, runs + [r])
            else MajorsSpell(AppendMajor(majors1, runs[|runs| - 1].base, r.base), runs + [r])
  {
    var runs' := runs + [r];
    var majors1 := majors[r.base := NewMajor(r.pages)];
    var majors' := if runs == [] then majors1 else AppendMajor(majors1, runs[|runs| - 1].base, r.base);
    forall l | 0 <= l < |runs'|
      ensures runs'[l].base in majors' && majors'[runs'[l].base] == MajorRecord(runs', l)
    {
      if l < |runs| {
        AppendedRecord(runs, r, l);
        assert majors[runs[l].base] == MajorRecord(runs, l);
      }
    }
  }

  lemma AppendRepresents(m: Memory, majors': map<int, Major>, runs: seq<Run>, r: Run)
    requires Represents(m, runs) && r.blocks == [] && MajorsSpell(majors', runs + [r])
    requires majors'.Keys == m.majors.Keys + {r.base}
    ensures Represents(m.(majors := majors'), runs + [r])
  {
    var m', runs' := m.(majors := majors'), runs + [r];
    forall a | a in majors' ensures OnList(runs', a) {
      if a == r.base {
        assert runs'[|runs|].base == a;
      } else {
        assert OnList(runs, a);
        var k :| 0 <= k < |runs| && runs[k].base == a;
        assert runs'[k].base == a;
      }
    }
    forall a | a in m.minors
      ensures Live(runs', a)
    {
      assert Live(runs, a);
      var k, j :| At(runs, k, j) && runs[k].blocks[j].addr == a;
      assert At(runs', k, j) && runs'[k] == runs[k];
    }
    forall k | 0 <= k < |runs'|
      ensures RunSpelled(m', runs'[k])
    {
      assert k < |runs| ==> RunSpelled(m, runs[k]);
    }
  }

  // ----- user data

  /** Writing bytes that hold no alignment distance leaves the layout as it was. */
  lemma OtherBytes(m: Memory, bytes': map<int, int>, runs: seq<Run>)
    requires Represents(m, runs)
    requires forall k, j :: At(runs, k, j) ==>
               var a := AlignSlot(runs[k].blocks[j].addr); a in bytes' && (a in m.bytes ==> bytes'[a] == m.bytes[a])
    ensures Represents(m.(bytes := bytes'), runs)
  {
  }

  function WithRequest(r: Run, j: int, req: int): Run
    requires 0 <= j < |r.blocks|
  {
    r.(blocks := r.blocks[j := r.blocks[j].(req := req)])
  }

  function RequestMinors(minors: map<int, Minor>, a: int, req: int): map<int, Minor>
    requires a in minors
  {
    minors[a := minors[a].(reqSize := req)]
  }

  lemma RequestRunSpelled(m: Memory, r: Run, j: int, req: int)
    requires RunOk(r) && Distinct(r.blocks) && 0 <= j < |r.blocks| && RunSpelled(m, r)
    ensures var m' := m.(minors := RequestMinors(m.minors, r.blocks[j].addr, req));
            RunSpelled(m', WithRequest(r, j, req)) && ChangedOnlyIn(m, m', r)
  {
    var r', minors' := WithRequest(r, j, req), RequestMinors(m.minors, r.blocks[j].addr, req);
    forall i | 0 <= i < |r'.blocks|
      ensures minors'[r'.blocks[i].addr] == MinorRecord(r.base, r'.blocks, i)
    {
      assert m.minors[r.blocks[i].addr] == MinorRecord(r.base, r.blocks, i);
    }
    assert BlockOk(r.blocks[j]);
  }

  lemma RequestMajors(majors: map<int, Major>, runs: seq<Run>, k: int, j: int, req: int)
    requires DistinctBases(runs) && MajorsSpell(majors, runs) && At(runs, k, j)
    ensures MajorsSpell(majors, SetRequest(runs, k, j, req))
  {
    var r' := WithRequest(runs[k], j, req);
    SumUpdate(Footprint, runs[k].blocks, j, runs[k].blocks[j].(req := req));
    MajorsReplace(majors, runs, k, r');
    assert majors[runs[k].base] == MajorRecord(runs, k);
    assert WithUsage(majors, r'.base, Usage(r'), NextAddr(r'.blocks, 0)) == majors;
  }

  lemma RequestLive(minors: map<int, Minor>, runs: seq<Run>, k: int, j: int, req: int)
    requires MinorsLive(minors, runs) && At(runs, k, j) && runs[k].blocks[j].addr in minors
    ensures MinorsLive(RequestMinors(minors, runs[k].blocks[j].addr, req), SetRequest(runs, k, j, req))
  {
    var minors' := RequestMinors(minors, runs[k].blocks[j].addr, req);
    forall x | x in minors' ensures Live(SetRequest(runs, k, j, req), x) {
      assert x in minors;
      LiveAfterSetRequest(runs, k, j, req, x);
    }
  }

  lemma SetRequestRepresents(m: Memory, runs: seq<Run>, k: int, j: int, req: int)
    requires WellFormed(runs) && Represents(m, runs) && At(runs, k, j)
    ensures runs[k].blocks[j].addr in m.minors
    ensures Represents(m.(minors := RequestMinors(m.minors, runs[k].blocks[j].addr, req)), SetRequest(runs, k, j, req))
  {
    var r := runs[k];
    assert RunSpelled(m, r);
    var m' := m.(minors := RequestMinors(m.minors, r.blocks[j].addr, req));
    RunDistinct(runs, k);
    BasesDistinct(runs);
    RequestRunSpelled(m, r, j, req);
    RequestMajors(m.majors, runs, k, j, req);
    RequestLive(m.minors, runs, k, j, req);
    ReplaceListed(m.majors, m'.majors, runs, k, WithRequest(r, j, req));
    OtherRunsSpelled(m, m', runs, k);
    Assemble(m', runs, k, WithRequest(r, j, req));
  }

  lemma LiveAfterSetRequest(runs: seq<Run>, k: int, j: int, req: int, a: int)
    requires At(runs, k, j) && Live(runs, a)
    ensures Live(SetRequest(runs, k, j, req), a)
  {
    var l, i :| At(runs, l, i) && runs[l].blocks[i].addr == a;
    assert At(SetRequest(runs, k, j, req), l, i) && SetRequest(runs, k, j, req)[l].blocks[i].addr == a;
  }
}
