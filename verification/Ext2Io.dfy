/** `write_file` and `read_file`. */
module Ext2Io {
  import opened Ext2Words
  import opened Ext2Tree
  import opened Ext2Alloc
  import opened Ext2State
  import opened Ext2Extend
  import opened Ext2Slots
  import opened Ext2Content
  import opened Ext2Blocks
  import opened Ext2Size

  predicate Bytes(data: Block)
  {
    forall i :: 0 <= i < |data| ==> 0 <= data[i] < 256
  }

  lemma SpliceIsBlock(blk: Block, bs: int, r: int, data: Block)
    requires IsBlock(blk, bs) && Bytes(data) && 0 <= r && r + |data| <= bs
    ensures IsBlock(Splice(blk, r, data), bs)
  {
  }

  /** An offset before a reachable one is reachable. */
  lemma ReachableBelow(fs: Fs, off: int, top: int)
    requires Reachable(fs, top) && 0 <= off <= top
    ensures Reachable(fs, off)
  {
    var q, e := off / fs.bs, top / fs.bs;
    assert off == fs.bs * q + off % fs.bs && top == fs.bs * e + top % fs.bs;
    assert q >= e + 1 ==> fs.bs * q >= fs.bs * (e + 1);
  }

  /** One turn of the write loop: find or allocate the block at `pos`, and write into it. */
  method WriteChunk(fs: Fs, ino: int, pos: int, data: Block, ghost meta: set<int>, ghost owner: Owner)
    returns (fs': Fs, ok: bool, ghost owner': Owner)
    requires VolumeOk(fs, meta, owner, {}) && ino in fs.inodes && Reachable(fs, pos) &&
        pos % fs.bs + |data| <= fs.bs && Bytes(data)
    ensures VolumeOk(fs', meta, owner', {}) && InodesKept(fs.inodes, fs'.inodes, ino)
    ensures BytesKept(fs, fs', ino, pos, if ok then pos + |data| else pos)
    ensures ok ==> HoldsAll(fs', ino, pos, data)
    ensures !ok ==> fs'.sbFree <= 0
  {
    var fs1, b;
    fs1, b, owner' := GetBlockForOffset(fs, ino, pos, true, meta, owner);
    ExtendKeepsBytes(fs, fs1, meta, owner, owner', ino, pos);
    if b == 0 {
      return fs1, false, owner';
    }
    CoveredIsData(fs1, meta, owner', ino, pos);
    var r := pos % fs.bs;
    SpliceIsBlock(fs1.disk[b], fs.bs, r, data);
    RewriteOk(fs1, meta, owner', {}, b, Splice(fs1.disk[b], r, data));
    WrittenKeepsBytes(fs1, meta, owner', ino, pos, data);
    WrittenHolds(fs1, meta, owner', ino, pos, data);
    fs' := fs1.(disk := fs1.disk[b := Splice(fs1.disk[b], r, data)]);
    ok := true;
    BytesKeptTrans(fs, fs1, fs', ino, pos, pos, pos + |data|);
  }

  /** Bytes already in place stay there while the next ones are added. */
  lemma HoldsGrows(fs: Fs, fs': Fs, ino: int, offset: int, a: Block, b: Block)
    requires HoldsAll(fs, ino, offset, a) && HoldsAll(fs', ino, offset + |a|, b)
    requires BytesKept(fs, fs', ino, offset + |a|, offset + |a| + |b|)
    ensures HoldsAll(fs', ino, offset, a + b)
  {
    forall k ensures Holds(fs', ino, offset, a + b, k) {
      if 0 <= k < |a| {
        assert Holds(fs, ino, offset, a, k);
        assert ByteKept(fs, fs', ino, offset + |a|, offset + |a| + |b|, ino, offset + k);
      } else {
        assert Holds(fs', ino, offset + |a|, b, k - |a|);
      }
    }
  }

  /** The file after `done` bytes of a write at `offset`. */
  ghost predicate WriteSoFar(fs: Fs, fs': Fs, ino: int, offset: int, buf: Block, done: int)
  {
    && 0 <= done <= |buf|
    && fs'.bs == fs.bs && InodesKept(fs.inodes, fs'.inodes, ino)
    && BytesKept(fs, fs', ino, offset, offset + done) && HoldsAll(fs', ino, offset, buf[..done])
  }

  lemma WriteMore(fs: Fs, fs1: Fs, fs2: Fs, ino: int, offset: int, buf: Block, done: int, len: int)
    requires WriteSoFar(fs, fs1, ino, offset, buf, done) && 0 <= len && done + len <= |buf|
    requires InodesKept(fs1.inodes, fs2.inodes, ino) && BytesKept(fs1, fs2, ino, offset + done, offset + done + len)
    requires HoldsAll(fs2, ino, offset + done, buf[done..done + len])
    ensures WriteSoFar(fs, fs2, ino, offset, buf, done + len)
  {
    BytesKeptTrans(fs, fs1, fs2, ino, offset, offset + done, offset + done + len);
    HoldsGrows(fs1, fs2, ino, offset, buf[..done], buf[done..done + len]);
    assert buf[..done] + buf[done..done + len] == buf[..done + len];
  }

  lemma WriteFailed(fs: Fs, fs1: Fs, fs2: Fs, ino: int, offset: int, buf: Block, done: int)
    requires WriteSoFar(fs, fs1, ino, offset, buf, done)
    requires InodesKept(fs1.inodes, fs2.inodes, ino) && BytesKept(fs1, fs2, ino, offset + done, offset + done)
    ensures WriteSoFar(fs, fs2, ino, offset, buf, done)
  {
    var none, pos := buf[done..done], offset + done;
    forall k ensures Holds(fs2, ino, pos, none, k) { }
    WriteMore(fs, fs1, fs2, ino, offset, buf, done, 0);
  }

  lemma WriteStarts(fs: Fs, ino: int, offset: int, buf: Block)
    requires fs.bs >= 4
    ensures WriteSoFar(fs, fs, ino, offset, buf, 0)
  {
  }

  /** The loop of `write_file`; `polls` is how many times it may look before it sees an interrupt. */
  method WriteLoop(fs: Fs, ino: int, offset: int, buf: Block, polls: nat, ghost meta: set<int>,
      ghost owner: Owner) returns (fs': Fs, done: int, ghost owner': Owner)
    requires VolumeOk(fs, meta, owner, {}) && ino in fs.inodes && 0 <= offset && Bytes(buf)
    requires buf != [] ==> Reachable(fs, offset + |buf| - 1)
    ensures VolumeOk(fs', meta, owner', {}) && WriteSoFar(fs, fs', ino, offset, buf, done)
    ensures polls >= |buf| && done < |buf| ==> fs'.sbFree <= 0
  {
    fs', done, owner' := fs, 0, owner;
    var turns := polls;
    WriteStarts(fs, ino, offset, buf);
    while done < |buf| && turns > 0
      invariant VolumeOk(fs', meta, owner', {}) && WriteSoFar(fs, fs', ino, offset, buf, done)
      invariant 0 <= turns && turns + done >= polls
    {
      var pos := offset + done;
      ReachableBelow(fs, pos, offset + |buf| - 1);
      var room := fs.bs - pos % fs.bs;
      var len := if room < |buf| - done then room else |buf| - done;
      var fs1, ok;
      ghost var owner1;
      fs1, ok, owner1 := WriteChunk(fs', ino, pos, buf[done..done + len], meta, owner');
      if !ok {
        WriteFailed(fs, fs', fs1, ino, offset, buf, done);
        fs', owner' := fs1, owner1;
        break;
      }
      WriteMore(fs, fs', fs1, ino, offset, buf, done, len);
      fs', owner', done, turns := fs1, owner1, done + len, turns - 1;
    }
  }

  /** Setting the size moves no byte. */
  lemma ResizeBytes(fs: Fs, fs': Fs, meta: set<int>, owner: Owner, ino: int, x: Inode, lo: int)
    requires VolumeOk(fs, meta, owner, {}) && ino in fs.inodes && x.ptrs == fs.inodes[ino].ptrs &&
        0 <= x.size < 0x1_0000_0000
    requires fs' == fs.(inodes := fs.inodes[ino := x])
    ensures VolumeOk(fs', meta, owner, {}) && BytesKept(fs, fs', ino, lo, lo)
  {
    ResizeOk(fs, meta, owner, {}, ino, x);
    forall jno, off ensures ByteKept(fs, fs', ino, lo, lo, jno, off) {
      if Reachable(fs, off) {
        assert At(fs', jno, SlotOf(fs, off)) == At(fs, jno, SlotOf(fs, off));
      }
    }
  }

  lemma HoldsKept(fs: Fs, fs': Fs, ino: int, pos: int, data: Block)
    requires HoldsAll(fs, ino, pos, data) && BytesKept(fs, fs', ino, pos, pos)
    ensures HoldsAll(fs', ino, pos, data)
  {
    forall k ensures Holds(fs', ino, pos, data, k) {
      assert Holds(fs, ino, pos, data, k) && ByteKept(fs, fs', ino, pos, pos, ino, pos + k);
    }
  }

  /** The first byte past the largest file the format allows. */
  function MaxBytes(fs: Fs): int
  {
    (12 + Fan(fs) + Fan(fs) * Fan(fs) + Fan(fs) * Fan(fs) * Fan(fs)) * fs.bs
  }

  /** It has a block for every leaf slot. */
  lemma LargestFile(fs: Fs)
    requires 0 < Fan(fs)
    ensures MaxBytes(fs) == (|FileOrder(Fan(fs))| + |Below(Fan(fs), [14], 3)|) * fs.bs
  {
    var n := Fan(fs);
    var blocks := 12 + n + n * n + n * n * n;
    assert MaxBytes(fs) == blocks * fs.bs;
    LeafSlots(n);
  }

  /** What a write that moved `done` bytes leaves behind. */
  ghost predicate WriteDone(fs: Fs, fs': Fs, ino: int, offset: int, buf: Block, done: int)
  {
    && 0 <= done <= |buf| && BytesKept(fs, fs', ino, offset, offset + done) && HoldsAll(fs', ino, offset, buf[..done])
    && fs'.inodes.Keys == fs.inodes.Keys && (forall j :: j in fs.inodes && j != ino ==> fs'.inodes[j] == fs.inodes[j])
    && (ino in fs.inodes ==> fs'.inodes[ino].size == NewSize(fs.inodes[ino].size, offset, |buf|, done))
  }

  /** `write_file` below the triply indirect range. */
  method WriteFile(fs: Fs, ino: int, offset: int, buf: Block, polls: nat, ghost meta: set<int>,
      ghost owner: Owner) returns (fs': Fs, done: int, ghost owner': Owner)
    requires VolumeOk(fs, meta, owner, {}) && ino in fs.inodes && 0 <= offset && Bytes(buf)
    requires offset + |buf| < MaxBytes(fs) && buf != [] ==> Reachable(fs, offset + |buf| - 1)
    ensures VolumeOk(fs', meta, owner', {}) && WriteDone(fs, fs', ino, offset, buf, done)
    ensures offset + |buf| >= MaxBytes(fs) ==> done == 0 && fs' == fs
    ensures offset + |buf| < MaxBytes(fs) && polls >= |buf| && done < |buf| ==> fs'.sbFree <= 0
  {
    if offset + |buf| >= MaxBytes(fs) {
      WriteStarts(fs, ino, offset, buf);
      return fs, 0, owner;
    }
    var fs1;
    fs1, done, owner' := WriteLoop(fs, ino, offset, buf, polls, meta, owner);
    fs' := fs1;
    if done > 0 {
      var x := fs1.inodes[ino].(size := NewSize(fs1.inodes[ino].size, offset, |buf|, done));
      fs' := fs1.(inodes := fs1.inodes[ino := x]);
      FinishWrite(fs, fs1, fs', meta, owner', ino, offset, buf, done, x);
    }
  }

  lemma FinishWrite(fs: Fs, fs1: Fs, fs': Fs, meta: set<int>, owner: Owner, ino: int, offset: int, buf: Block,
      done: int, x: Inode)
    requires VolumeOk(fs1, meta, owner, {}) && WriteSoFar(fs, fs1, ino, offset, buf, done) && ino in fs.inodes &&
        ino in fs1.inodes
    requires done > 0 && x == fs1.inodes[ino].(size := NewSize(fs1.inodes[ino].size, offset, |buf|, done))
    requires fs' == fs1.(inodes := fs1.inodes[ino := x])
    ensures VolumeOk(fs', meta, owner, {}) && WriteDone(fs, fs', ino, offset, buf, done)
  {
    ResizeBytes(fs1, fs', meta, owner, ino, x, offset);
    HoldsKept(fs1, fs', ino, offset, buf[..done]);
    ResizeBytes(fs1, fs', meta, owner, ino, x, offset + done);
    BytesKeptTrans(fs, fs1, fs', ino, offset, offset + done, offset + done);
  }
}
