/** Memory as it is read: a byte of a live header, or else whatever was last stored at its address. */
module HeapImage {
  import opened HeapView
  import opened HeapRecords

  /** Byte `o` of a major's header; there are four bytes of padding before the last pointer. */
  function MajorByte(r: Major, o: int): int
    requires 0 <= o < 28 || 32 <= o < 40
  {
    if o < 8 then Le(r.prev, o) else if o < 16 then Le(r.next, o - 8) else if o < 20 then Le(r.pages, o - 16)
    else if o < 24 then Le(r.size, o - 20) else if o < 28 then Le(r.usage, o - 24) else Le(r.first, o - 32)
  }

  /** The nearest key of `m` at or below `x`, or the address 40 below `a` when there is none above that. */
  function Nearest<V>(m: map<int, V>, a: int, x: int): (h: int)
    requires a - 40 <= x <= a
    ensures a - 40 <= h <= x
    ensures forall y :: h < y <= x ==> y !in m
    ensures h > a - 40 ==> h in m
    decreases x - a + 40
  {
    if x == a - 40 || x in m then x else Nearest(m, a, x - 1)
  }

  /** The byte at `a`. */
  function Image(m: Memory, a: int): int
  {
    var o, h := a - Nearest(m.minors, a, a), a - Nearest(m.majors, a, a);
    if o < 36 then MinorByte(m.minors[a - o], o)
    else if h < 28 || 32 <= h < 40 then MajorByte(m.majors[a - h], h)
    else Get(m.bytes, a)
  }

  /** The little-endian number from `a` to `end`. */
  function ImageWord(m: Memory, a: int, end: int): int
    decreases end - a
  {
    if a >= end then 0 else Image(m, a) + 0x100 * ImageWord(m, a + 1, end)
  }

  /** The header that `kfree` and `krealloc` look at for `ptr`, and the magic they read there. */
  function HeaderAt(m: Memory, ptr: int): int
  {
    Unalign(ptr, Image(m, ptr - ALIGN_INFO)) - MINOR_SIZE
  }

  function MagicRead(m: Memory, header: int): int
  {
    ImageWord(m, header + 24, header + 28)
  }

  /** The magic is read where no live header is. */
  ghost predicate Forged(m: Memory, runs: seq<Run>, ptr: int)
  {
    ptr != 0 && MagicRead(m, HeaderAt(m, ptr)) == MAGIC && !Live(runs, HeaderAt(m, ptr))
  }

  /** Two live headers are far apart. */
  lemma NoHeaderInside(runs: seq<Run>, k: int, j: int, x: int)
    requires WellFormed(runs) && At(runs, k, j) && runs[k].blocks[j].addr < x < End(runs[k].blocks[j])
    ensures !Live(runs, x)
  {
    if Live(runs, x) {
      var l, i :| At(runs, l, i) && runs[l].blocks[i].addr == x;
      assert RunOk(runs[l]) && RunOk(runs[k]);
      assert BlockOk(runs[l].blocks[i]) && BlockOk(runs[k].blocks[j]);
      BlocksApart(runs, k, j, l, i);
    }
  }

  /** A live header is read as its record says. */
  lemma MinorImage(m: Memory, runs: seq<Run>, k: int, j: int, o: int)
    requires WellFormed(runs) && Represents(m, runs) && At(runs, k, j) && 0 <= o < 36
    ensures var a := runs[k].blocks[j].addr; a in m.minors && Image(m, a + o) == MinorByte(m.minors[a], o)
  {
    var a := runs[k].blocks[j].addr;
    assert RunSpelled(m, runs[k]);
    assert BlockOk(runs[k].blocks[j]);
    var h := Nearest(m.minors, a + o, a + o);
    if h != a {
      NoHeaderInside(runs, k, j, h);
    }
  }

  /** No live header has a field at `x`. */
  ghost predicate Plain(runs: seq<Run>, x: int)
  {
    && (forall l, i :: At(runs, l, i) ==> !(runs[l].blocks[i].addr <= x < runs[l].blocks[i].addr + 36))
    && (forall l :: 0 <= l < |runs| ==> !(runs[l].base <= x < runs[l].base + MAJOR_SIZE))
  }

  lemma PlainImage(m: Memory, runs: seq<Run>, x: int)
    requires Represents(m, runs) && Plain(runs, x)
    ensures Image(m, x) == Get(m.bytes, x)
  {
    var o, h := x - Nearest(m.minors, x, x), x - Nearest(m.majors, x, x);
    assert o >= 36 by {
      assert o < 36 ==> Live(runs, x - o);
    }
    assert h == 40 by {
      assert h < 40 ==> OnList(runs, x - h);
    }
  }

  /** What a block holds past its header's fields is plain. */
  lemma PlainInside(runs: seq<Run>, k: int, j: int, x: int)
    requires WellFormed(runs) && At(runs, k, j) && runs[k].blocks[j].addr + 36 <= x < End(runs[k].blocks[j])
    ensures Plain(runs, x)
  {
    assert RunOk(runs[k]) && BlockOk(runs[k].blocks[j]);
    forall l, i | At(runs, l, i) ensures !(runs[l].blocks[i].addr <= x < runs[l].blocks[i].addr + 36) {
      if (l, i) != (k, j) {
        assert RunOk(runs[l]) && BlockOk(runs[l].blocks[i]);
        BlocksApart(runs, k, j, l, i);
      }
    }
    forall l | 0 <= l < |runs| ensures !(runs[l].base <= x < runs[l].base + MAJOR_SIZE) {
      if l != k {
        assert RunOk(runs[l]);
        assert if l < k then Apart(runs[l], runs[k]) else Apart(runs[k], runs[l]);
      }
    }
  }

  lemma LivePointer(m: Memory, runs: seq<Run>, k: int, j: int)
    requires WellFormed(runs) && Represents(m, runs) && At(runs, k, j)
    ensures Image(m, AlignSlot(runs[k].blocks[j].addr)) == AlignByte(runs[k].blocks[j].addr)
  {
    var a := runs[k].blocks[j].addr;
    assert RunSpelled(m, runs[k]);
    assert BlockOk(runs[k].blocks[j]);
    PlainInside(runs, k, j, AlignSlot(a));
    PlainImage(m, runs, AlignSlot(a));
  }

  lemma LiveMagic(m: Memory, runs: seq<Run>, k: int, j: int, i: int)
    requires WellFormed(runs) && Represents(m, runs) && At(runs, k, j) && 0 <= i < 4
    ensures Image(m, runs[k].blocks[j].addr + 24 + i) == Le(MAGIC, i)
  {
    assert RunSpelled(m, runs[k]);
    assert m.minors[runs[k].blocks[j].addr] == MinorRecord(runs[k].base, runs[k].blocks, j);
    MinorImage(m, runs, k, j, 24 + i);
  }

  ghost predicate WordAt(m: Memory, a: int, v: int)
  {
    forall i {:trigger Le(v, i)} :: 0 <= i < 4 ==> Image(m, a + i) == Le(v, i)
  }

  lemma WordBytes(v: int)
    requires 0 <= v < WORD_LIMIT
    ensures v == Le(v, 0) + 0x100 * (Le(v, 1) + 0x100 * (Le(v, 2) + 0x100 * Le(v, 3)))
  {
    assert Le(v, 1) == Le(v / 256, 0);
    assert Le(v, 2) == Le(v / 256, 1) == Le(v / 256 / 256, 0);
    assert Le(v, 3) == Le(v / 256, 2) == Le(v / 256 / 256, 1) == Le(v / 256 / 256 / 256, 0);
  }

  lemma ReadWord(m: Memory, a: int, v: int)
    requires WordAt(m, a, v) && 0 <= v < WORD_LIMIT
    ensures ImageWord(m, a, a + 4) == v
  {
    WordBytes(v);
    assert ImageWord(m, a + 3, a + 4) == Image(m, a + 3);
    assert ImageWord(m, a + 2, a + 4) == Image(m, a + 2) + 0x100 * Image(m, a + 3);
    assert ImageWord(m, a + 1, a + 4) == Image(m, a + 1) + 0x100 * ImageWord(m, a + 2, a + 4);
  }

  /** UNALIGN, reading the byte ALIGN left, finds the header of every live pointer, and the magic is read there. */
  lemma HeaderFound(m: Memory, runs: seq<Run>, k: int, j: int)
    requires WellFormed(runs) && Represents(m, runs) && At(runs, k, j)
    ensures var a := runs[k].blocks[j].addr; HeaderAt(m, UserPtr(a)) == a && MagicRead(m, a) == MAGIC
  {
    LivePointer(m, runs, k, j);
    MagicThere(m, runs, k, j);
    ReadWord(m, runs[k].blocks[j].addr + 24, MAGIC);
  }

  lemma MagicThere(m: Memory, runs: seq<Run>, k: int, j: int)
    requires WellFormed(runs) && Represents(m, runs) && At(runs, k, j)
    ensures WordAt(m, runs[k].blocks[j].addr + 24, MAGIC)
  {
    forall i {:trigger Le(MAGIC, i)} | 0 <= i < 4 ensures Image(m, runs[k].blocks[j].addr + 24 + i) == Le(MAGIC, i) {
      LiveMagic(m, runs, k, j, i);
    }
  }

  /** The magic is read at every live header; where it is read and none is live, it was forged. */
  lemma MagicSaysLive(m: Memory, runs: seq<Run>, ptr: int)
    requires WellFormed(runs) && Represents(m, runs) && ptr != 0
    ensures HeaderAt(m, ptr) in m.minors <==> Live(runs, HeaderAt(m, ptr))
    ensures MagicRead(m, HeaderAt(m, ptr)) == MAGIC <==> Live(runs, HeaderAt(m, ptr)) || Forged(m, runs, ptr)
  {
    if Live(runs, HeaderAt(m, ptr)) {
      var k, j :| At(runs, k, j) && runs[k].blocks[j].addr == HeaderAt(m, ptr);
      assert RunSpelled(m, runs[k]);
      HeaderFound(m, runs, k, j);
    }
  }

  /** Four bytes of its own are all a caller needs: the pointer sixteen bytes after them is taken for a live one. */
  lemma ForgedHeader(m: Memory, runs: seq<Run>, k: int, j: int, x: int)
    requires WellFormed(runs) && Represents(m, runs) && At(runs, k, j)
    requires UserByte(runs[k].blocks[j], x) && UserByte(runs[k].blocks[j], x + 3)
    requires forall i {:trigger Le(MAGIC, i)} :: 0 <= i < 4 ==> Get(m.bytes, x + i) == Le(MAGIC, i)
    ensures HeaderAt(m, x + 16) == x - 24 && Forged(m, runs, x + 16)
  {
    var b := runs[k].blocks[j];
    assert RunOk(runs[k]) && BlockOk(b);
    forall i {:trigger Le(MAGIC, i)} | 0 <= i < 4 ensures Image(m, x + i) == Le(MAGIC, i) {
      PlainUser(m, runs, k, j, x + i);
    }
    ReadWord(m, x, MAGIC);
    assert Image(m, x) == Le(MAGIC, 0) == 0xde;
    NoHeaderInside(runs, k, j, x - 24);
  }

  lemma PlainUser(m: Memory, runs: seq<Run>, k: int, j: int, x: int)
    requires WellFormed(runs) && Represents(m, runs) && At(runs, k, j) && UserByte(runs[k].blocks[j], x)
    ensures Image(m, x) == Get(m.bytes, x)
  {
    assert RunOk(runs[k]) && BlockOk(runs[k].blocks[j]);
    PlainInside(runs, k, j, x);
    PlainImage(m, runs, x);
  }

  /** A block that keeps its sizes and the byte in front of `p` is found from `p` as before. */
  lemma SameHeader(m: Memory, runs: seq<Run>, k: int, j: int, m': Memory, runs': seq<Run>, l: int, i: int, p: int)
    requires WellFormed(runs) && Represents(m, runs) && At(runs, k, j)
    requires WellFormed(runs') && Represents(m', runs') && At(runs', l, i) && runs'[l].blocks[i] == runs[k].blocks[j]
    requires runs[k].blocks[j].addr + MINOR_SIZE <= p < runs[k].blocks[j].addr + MINOR_SIZE + ALIGNMENT + ALIGN_INFO
    requires Get(m'.bytes, p - ALIGN_INFO) == Get(m.bytes, p - ALIGN_INFO)
    ensures HeaderAt(m', p) == HeaderAt(m, p)
  {
    var b := runs[k].blocks[j];
    var x := p - ALIGN_INFO;
    assert BlockOk(b);
    assert RunSpelled(m, runs[k]) && RunSpelled(m', runs'[l]);
    if x < b.addr + 36 {
      assert m.minors[b.addr] == MinorRecord(runs[k].base, runs[k].blocks, j);
      assert m'.minors[b.addr] == MinorRecord(runs'[l].base, runs'[l].blocks, i);
      MinorImage(m, runs, k, j, x - b.addr);
      MinorImage(m', runs', l, i, x - b.addr);
    } else {
      PlainInside(runs, k, j, x);
      PlainImage(m, runs, x);
      PlainInside(runs', l, i, x);
      PlainImage(m', runs', x);
    }
  }

  /** The place of a block just freed holds no live header, as long as its major stays. */
  lemma FreedIsPlain(runs: seq<Run>, k: int, j: int, x: int)
    requires WellFormed(runs) && At(runs, k, j) && |runs[k].blocks| > 1 && Owns(runs[k].blocks[j], x)
    ensures Plain(RemoveBlock(runs, k, j), x)
  {
    var runs' := RemoveBlock(runs, k, j);
    assert RunOk(runs[k]) && BlockOk(runs[k].blocks[j]);
    forall l, i | At(runs', l, i) ensures !(runs'[l].blocks[i].addr <= x < runs'[l].blocks[i].addr + 36) {
      var l', i' := RemovedOrigin(runs, k, j, l, i);
      assert RunOk(runs[l']) && BlockOk(runs[l'].blocks[i']);
      BlocksApart(runs, k, j, l', i');
    }
    forall l | 0 <= l < |runs'| ensures !(runs'[l].base <= x < runs'[l].base + MAJOR_SIZE) {
      assert runs'[l].base == runs[l].base && RunOk(runs[l]);
      if l != k {
        assert if l < k then Apart(runs[l], runs[k]) else Apart(runs[k], runs[l]);
      }
    }
  }

  /** `m` is the memory left by a free of block (k, j), which had `rec` for a header and `bytes` beside it. */
  ghost predicate LeftBy(m: Memory, runs: seq<Run>, k: int, j: int, bytes: map<int, int>, rec: Minor)
  {
    && At(runs, k, j) && |runs[k].blocks| > 1
    && Represents(m, RemoveBlock(runs, k, j)) && m.bytes == DeadBytes(bytes, runs[k].blocks[j].addr, rec)
    && Get(bytes, AlignSlot(runs[k].blocks[j].addr)) == AlignByte(runs[k].blocks[j].addr)
  }

  lemma DeadImage(m: Memory, runs: seq<Run>, k: int, j: int, bytes: map<int, int>, rec: Minor, i: int)
    requires WellFormed(runs) && LeftBy(m, runs, k, j, bytes, rec) && 0 <= i < 4
    ensures Image(m, runs[k].blocks[j].addr + 24 + i) == Le(DEAD, i)
  {
    var a := runs[k].blocks[j].addr;
    assert BlockOk(runs[k].blocks[j]);
    FreedIsPlain(runs, k, j, a + 24 + i);
    PlainImage(m, RemoveBlock(runs, k, j), a + 24 + i);
    assert m.bytes[a + 24 + i] == DeadByte(rec, a, a + 24 + i);
  }

  lemma DeadThere(m: Memory, runs: seq<Run>, k: int, j: int, bytes: map<int, int>, rec: Minor)
    requires WellFormed(runs) && LeftBy(m, runs, k, j, bytes, rec)
    ensures WordAt(m, runs[k].blocks[j].addr + 24, DEAD)
  {
    forall i {:trigger Le(DEAD, i)} | 0 <= i < 4 ensures Image(m, runs[k].blocks[j].addr + 24 + i) == Le(DEAD, i) {
      DeadImage(m, runs, k, j, bytes, rec, i);
    }
  }

  lemma DeadPointer(m: Memory, runs: seq<Run>, k: int, j: int, bytes: map<int, int>, rec: Minor)
    requires WellFormed(runs) && LeftBy(m, runs, k, j, bytes, rec)
    ensures Image(m, AlignSlot(runs[k].blocks[j].addr)) == AlignByte(runs[k].blocks[j].addr)
  {
    var a := runs[k].blocks[j].addr;
    assert BlockOk(runs[k].blocks[j]);
    FreedIsPlain(runs, k, j, AlignSlot(a));
    PlainImage(m, RemoveBlock(runs, k, j), AlignSlot(a));
  }

  /** Freeing the same pointer again is seen, until its place is used for something else. */
  lemma DeadRead(m: Memory, runs: seq<Run>, k: int, j: int, bytes: map<int, int>, rec: Minor)
    requires WellFormed(runs) && LeftBy(m, runs, k, j, bytes, rec)
    ensures HeaderAt(m, UserPtr(runs[k].blocks[j].addr)) == runs[k].blocks[j].addr
    ensures MagicRead(m, runs[k].blocks[j].addr) == DEAD
  {
    DeadHeader(m, runs, k, j, bytes, rec);
    DeadThere(m, runs, k, j, bytes, rec);
    ReadWord(m, runs[k].blocks[j].addr + 24, DEAD);
  }

  lemma DeadHeader(m: Memory, runs: seq<Run>, k: int, j: int, bytes: map<int, int>, rec: Minor)
    requires WellFormed(runs) && LeftBy(m, runs, k, j, bytes, rec)
    ensures HeaderAt(m, UserPtr(runs[k].blocks[j].addr)) == runs[k].blocks[j].addr
  {
    DeadPointer(m, runs, k, j, bytes, rec);
  }
}
