/** The bytes of a file, and what finding a block and writing into it do to the bytes of every file. */
module Ext2Content {
  import opened Division
  import opened Ext2Words
  import opened Ext2Tree
  import opened Ext2Alloc
  import opened Ext2State
  import opened Ext2Extend
  import opened Ext2Slots

  /** Offset `off` is below the triply indirect range. */
  predicate Reachable(fs: Fs, off: int)
  {
    fs.bs >= 4 && 0 <= off && off / fs.bs < Limit(Fan(fs))
  }

  function SlotOf(fs: Fs, off: int): Path
    requires fs.bs >= 4
  {
    LeafSlot(Fan(fs), off / fs.bs)
  }

  function BlockOf(fs: Fs, ino: int, off: int): int
    requires fs.bs >= 4
  {
    At(fs, ino, SlotOf(fs, off))
  }

  /** Offset `off` is not in a hole. */
  predicate Covered(fs: Fs, ino: int, off: int)
  {
    fs.bs >= 4 && BlockOf(fs, ino, off) != 0
  }

  function ByteAt(fs: Fs, ino: int, off: int): int
    requires fs.bs >= 4
  {
    var blk := Blk(fs.disk, BlockOf(fs, ino, off));
    if off % fs.bs < |blk| then blk[off % fs.bs] else 0
  }

  /** A file whose every byte has a block. */
  ghost predicate HoleFree(fs: Fs, ino: int)
  {
    ino in fs.inodes && forall off :: 0 <= off < fs.inodes[ino].size ==> Reachable(fs, off) && Covered(fs, ino, off)
  }

  /** A byte with a block, outside `[lo, hi)` of `ino`, is unchanged; a hole of another file stays one. */
  predicate ByteKept(fs: Fs, fs': Fs, ino: int, lo: int, hi: int, jno: int, off: int)
    requires fs.bs >= 4 && fs'.bs == fs.bs
  {
    Reachable(fs, off) ==>
      && (Covered(fs, jno, off) ==> Covered(fs', jno, off))
      && (jno != ino && Covered(fs', jno, off) ==> Covered(fs, jno, off))
      && (Covered(fs, jno, off) && !(jno == ino && lo <= off < hi) ==> ByteAt(fs', jno, off) == ByteAt(fs, jno, off))
  }

  ghost predicate BytesKept(fs: Fs, fs': Fs, ino: int, lo: int, hi: int)
  {
    fs.bs >= 4 && fs'.bs == fs.bs && forall jno, off :: ByteKept(fs, fs', ino, lo, hi, jno, off)
  }

  lemma BytesKeptTrans(fs: Fs, fs1: Fs, fs2: Fs, ino: int, lo: int, mid: int, hi: int)
    requires BytesKept(fs, fs1, ino, lo, mid) && BytesKept(fs1, fs2, ino, mid, hi) && lo <= mid <= hi
    ensures BytesKept(fs, fs2, ino, lo, hi)
  {
    forall jno, off ensures ByteKept(fs, fs2, ino, lo, hi, jno, off) {
      assert ByteKept(fs, fs1, ino, lo, mid, jno, off) && ByteKept(fs1, fs2, ino, mid, hi, jno, off);
    }
  }

  lemma SlotOfIsLeaf(fs: Fs, off: int)
    requires Reachable(fs, off)
    ensures IsSlot(Fan(fs), SlotOf(fs, off)) && IsLeaf(SlotOf(fs, off))
  {
    LeafSlotIsLeaf(Fan(fs), off / fs.bs);
  }

  /** The block of a covered offset is a data block of that file. */
  lemma CoveredIsData(fs: Fs, meta: set<int>, owner: Owner, ino: int, off: int)
    requires VolumeOk(fs, meta, owner, {}) && Reachable(fs, off) && Covered(fs, ino, off)
    ensures var c := BlockOf(fs, ino, off);
            c in owner && owner[c] == Place(ino, SlotOf(fs, off)) && IsLeaf(owner[c].path) && c in fs.disk &&
                IsBlock(fs.disk[c], fs.bs)
  {
    SlotOfIsLeaf(fs, off);
    assert SlotOwns(Fan(fs), fs.inodes, fs.disk, owner, ino, SlotOf(fs, off));
    UsedOnDisk(fs, meta, owner, {}, BlockOf(fs, ino, off));
  }

  /** Adding blocks to a file changes no byte that has a block. */
  lemma ExtendKeepsBytes(fs: Fs, fs': Fs, meta: set<int>, owner: Owner, owner': Owner, ino: int, lo: int)
    requires VolumeOk(fs, meta, owner, {}) && Extends(fs, fs', owner, owner', ino)
    ensures BytesKept(fs, fs', ino, lo, lo)
  {
    forall jno, off ensures ByteKept(fs, fs', ino, lo, lo, jno, off) {
      if Reachable(fs, off) {
        SlotOfIsLeaf(fs, off);
        assert SlotKept(fs, fs', ino, jno, SlotOf(fs, off));
        if Covered(fs, jno, off) {
          CoveredIsData(fs, meta, owner, jno, off);
          assert DataKept(fs, fs', owner, BlockOf(fs, jno, off));
        }
      }
    }
  }

  /** The block with `data` put at byte `r`. */
  function Splice(blk: Block, r: int, data: Block): Block
    requires 0 <= r && r + |data| <= |blk|
  {
    blk[..r] + data + blk[r + |data|..]
  }

  /** The volume once `data` is written at offset `pos` of `ino`. */
  function Written(fs: Fs, b: int, r: int, data: Block): Fs
    requires b in fs.disk && 0 <= r && r + |data| <= |fs.disk[b]|
  {
    fs.(disk := fs.disk[b := Splice(fs.disk[b], r, data)])
  }

  /** Two offsets in the same block are as far apart as their places in it. */
  lemma SameBlockOffsets(bs: int, pos: int, off: int)
    requires bs > 0 && pos / bs == off / bs
    ensures off - pos == off % bs - pos % bs
  {
  }

  /** A write inside one block moves no slot. */
  lemma WrittenSlots(fs: Fs, meta: set<int>, owner: Owner, ino: int, pos: int, data: Block, jno: int, off: int)
    requires VolumeOk(fs, meta, owner, {}) && Reachable(fs, pos) && Covered(fs, ino, pos) &&
        pos % fs.bs + |data| <= fs.bs
    requires Reachable(fs, off) && BlockOf(fs, ino, pos) in fs.disk && |fs.disk[BlockOf(fs, ino, pos)]| == fs.bs
    ensures BlockOf(Written(fs, BlockOf(fs, ino, pos), pos % fs.bs, data), jno, off) == BlockOf(fs, jno, off)
  {
    var b := BlockOf(fs, ino, pos);
    CoveredIsData(fs, meta, owner, ino, pos);
    SlotOfIsLeaf(fs, off);
    OtherBlockValue(Fan(fs), fs.inodes, fs.disk, owner, b, Splice(fs.disk[b], pos % fs.bs, data), jno, SlotOf(fs, off));
  }

  /** Every byte after a write inside one block. */
  lemma WrittenByte(fs: Fs, meta: set<int>, owner: Owner, ino: int, pos: int, data: Block, jno: int, off: int)
    requires VolumeOk(fs, meta, owner, {}) && Reachable(fs, pos) && Covered(fs, ino, pos) &&
        pos % fs.bs + |data| <= fs.bs
    requires Reachable(fs, off) && BlockOf(fs, ino, pos) in fs.disk && |fs.disk[BlockOf(fs, ino, pos)]| == fs.bs
    requires Covered(fs, jno, off)
    ensures ByteAt(Written(fs, BlockOf(fs, ino, pos), pos % fs.bs, data), jno, off) ==
            if jno == ino && pos <= off < pos + |data| && off / fs.bs == pos / fs.bs then data[off - pos] else ByteAt(fs, jno, off)
  {
    WrittenSlots(fs, meta, owner, ino, pos, data, jno, off);
    CoveredIsData(fs, meta, owner, jno, off);
    CoveredIsData(fs, meta, owner, ino, pos);
    var b, c := BlockOf(fs, ino, pos), BlockOf(fs, jno, off);
    if jno == ino && off / fs.bs == pos / fs.bs {
      SameBlockOffsets(fs.bs, pos, off);
      SpliceByte(fs.disk[b], pos % fs.bs, data, off % fs.bs);
    } else {
      DistinctBlocks(fs, meta, owner, ino, pos, jno, off);
    }
  }

  lemma SpliceByte(blk: Block, r: int, data: Block, k: int)
    requires 0 <= r && r + |data| <= |blk| && 0 <= k < |blk|
    ensures |Splice(blk, r, data)| == |blk| && Splice(blk, r, data)[k] == if r <= k < r + |data| then data[k - r] else blk[k]
  {
  }

  /** Different blocks of a file, or of two files, are different disk blocks. */
  lemma DistinctBlocks(fs: Fs, meta: set<int>, owner: Owner, ino: int, pos: int, jno: int, off: int)
    requires VolumeOk(fs, meta, owner, {}) && Reachable(fs, pos) && Reachable(fs, off) && Covered(fs, ino, pos)
    requires jno != ino || off / fs.bs != pos / fs.bs
    ensures BlockOf(fs, jno, off) != BlockOf(fs, ino, pos)
  {
    SlotOfIsLeaf(fs, pos);
    SlotOfIsLeaf(fs, off);
    if BlockOf(fs, jno, off) == BlockOf(fs, ino, pos) {
      SlotsDisjoint(Fan(fs), fs.inodes, fs.disk, owner, ino, SlotOf(fs, pos), jno, SlotOf(fs, off));
      LeafSlotInjective(Fan(fs), pos / fs.bs, off / fs.bs);
      assert false;
    }
  }

  /** The bytes a write names are inside the block it starts in. */
  lemma ChunkInBlock(bs: int, pos: int, len: int, off: int)
    requires bs > 0 && pos % bs + len <= bs && pos <= off < pos + len
    ensures off / bs == pos / bs
  {
    Parts(bs, pos);
    SameQuotient(bs, pos / bs, off);
  }

  /** A write inside one block: the named bytes are the data, and every other byte of every file is kept. */
  lemma WrittenKeepsBytes(fs: Fs, meta: set<int>, owner: Owner, ino: int, pos: int, data: Block)
    requires VolumeOk(fs, meta, owner, {}) && Reachable(fs, pos) && Covered(fs, ino, pos) &&
        pos % fs.bs + |data| <= fs.bs
    requires BlockOf(fs, ino, pos) in fs.disk && |fs.disk[BlockOf(fs, ino, pos)]| == fs.bs
    ensures BytesKept(fs, Written(fs, BlockOf(fs, ino, pos), pos % fs.bs, data), ino, pos, pos + |data|)
  {
    var fs' := Written(fs, BlockOf(fs, ino, pos), pos % fs.bs, data);
    var hi := pos + |data|;
    forall jno, off ensures ByteKept(fs, fs', ino, pos, hi, jno, off) {
      if Reachable(fs, off) {
        WrittenSlots(fs, meta, owner, ino, pos, data, jno, off);
        if Covered(fs, jno, off) { WrittenByte(fs, meta, owner, ino, pos, data, jno, off); }
      }
    }
  }

  /** Bytes `[pos, pos + |data|)` of `ino` are `data`. */
  predicate Holds(fs: Fs, ino: int, pos: int, data: Block, k: int)
  {
    0 <= k < |data| ==> Reachable(fs, pos + k) && Covered(fs, ino, pos + k) && ByteAt(fs, ino, pos + k) == data[k]
  }

  ghost predicate HoldsAll(fs: Fs, ino: int, pos: int, data: Block)
  {
    forall k :: Holds(fs, ino, pos, data, k)
  }

  lemma WrittenHolds(fs: Fs, meta: set<int>, owner: Owner, ino: int, pos: int, data: Block)
    requires VolumeOk(fs, meta, owner, {}) && Reachable(fs, pos) && Covered(fs, ino, pos) &&
        pos % fs.bs + |data| <= fs.bs
    requires BlockOf(fs, ino, pos) in fs.disk && |fs.disk[BlockOf(fs, ino, pos)]| == fs.bs
    ensures HoldsAll(Written(fs, BlockOf(fs, ino, pos), pos % fs.bs, data), ino, pos, data)
  {
    var fs' := Written(fs, BlockOf(fs, ino, pos), pos % fs.bs, data);
    forall k ensures Holds(fs', ino, pos, data, k) {
      if 0 <= k < |data| {
        ChunkInBlock(fs.bs, pos, |data|, pos + k);
        WrittenSlots(fs, meta, owner, ino, pos, data, ino, pos + k);
        WrittenByte(fs, meta, owner, ino, pos, data, ino, pos + k);
      }
    }
  }
}
