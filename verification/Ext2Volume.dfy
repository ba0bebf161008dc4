/** The mounted volume, and what its files read as. */
module Ext2Volume {
  import opened Ext2Words
  import opened Ext2Tree
  import opened Ext2Alloc
  import opened Ext2State
  import opened Ext2Content
  import opened Ext2Size
  import opened Ext2Io
  import opened Ext2Read
  import opened Ext2Free

  /** The contents of a file. */
  function File(fs: Fs, ino: int): seq<int>
    requires fs.bs >= 4 && ino in fs.inodes && 0 <= fs.inodes[ino].size
  {
    seq(fs.inodes[ino].size, off requires 0 <= off => ByteAt(fs, ino, off))
  }

  /**
   A write at or before the end that moved `done` bytes: the file is its old prefix, then those bytes, and ends there.
   */
  lemma WrittenFile(fs: Fs, fs': Fs, meta: set<int>, owner: Owner, ino: int, offset: int, buf: Block, done: int)
    requires VolumeOk(fs, meta, owner, {}) && HoleFree(fs, ino) && 0 <= offset <= fs.inodes[ino].size
    requires WriteDone(fs, fs', ino, offset, buf, done) && 0 < done && offset + done < 0x1_0000_0000
    ensures HoleFree(fs', ino) && fs'.inodes[ino].size == offset + done
    ensures File(fs', ino) == File(fs, ino)[..offset] + buf[..done]
  {
    NewSizeIs(fs.inodes[ino].size, offset, |buf|, done);
    var data := buf[..done];
    forall off | 0 <= off < offset + done
      ensures Reachable(fs', off) && Covered(fs', ino, off)
      ensures ByteAt(fs', ino, off) == if off < offset then ByteAt(fs, ino, off) else data[off - offset]
    {
      if off < offset {
        assert Reachable(fs, off) && Covered(fs, ino, off);
        assert ByteKept(fs, fs', ino, offset, offset + done, ino, off);
      } else {
        assert Holds(fs', ino, offset, data, off - offset);
      }
    }
  }

  /** Every other file is untouched. */
  lemma OtherFile(fs: Fs, fs': Fs, ino: int, lo: int, hi: int, j: int)
    requires BytesKept(fs, fs', ino, lo, hi) && j != ino && HoleFree(fs, j) && 0 <= fs.inodes[j].size
    requires j in fs'.inodes && fs'.inodes[j] == fs.inodes[j]
    ensures HoleFree(fs', j) && File(fs', j) == File(fs, j)
  {
    forall off | 0 <= off < fs.inodes[j].size
      ensures Reachable(fs', off) && Covered(fs', j, off) && ByteAt(fs', j, off) == ByteAt(fs, j, off)
    {
      assert Reachable(fs, off) && Covered(fs, j, off);
      assert ByteKept(fs, fs', ino, lo, hi, j, off);
    }
  }

  /** What is read of a file without holes is that part of it. */
  lemma ReadIsSlice(fs: Fs, ino: int, offset: int, amount: int, buf: Block)
    requires fs.bs >= 4 && HoleFree(fs, ino) && 0 <= offset && offset + amount <= fs.inodes[ino].size &&
        ReadAs(fs, ino, offset, amount, buf)
    ensures buf == File(fs, ino)[offset..offset + |buf|]
  {
    forall k | 0 <= k < |buf| ensures buf[k] == File(fs, ino)[offset + k] {
      assert Covered(fs, ino, offset + k);
    }
  }

  class Volume {
    var fs: Fs
    ghost const meta: set<int>
    ghost var owner: Owner

    ghost predicate Valid()
      reads this
    {
      VolumeOk(fs, meta, owner, {})
    }

    constructor (fs0: Fs, ghost meta0: set<int>, ghost owner0: Owner)
      requires VolumeOk(fs0, meta0, owner0, {})
      ensures Valid() && fs == fs0
    {
      fs, meta, owner := fs0, meta0, owner0;
    }

    /** `ext2::write`. */
    method Write(ino: int, offset: int, buf: Block, polls: nat) returns (done: int)
      requires Valid() && ino in fs.inodes && 0 <= offset && Bytes(buf)
      requires offset + |buf| < MaxBytes(fs) && buf != [] ==> Reachable(fs, offset + |buf| - 1)
      modifies this
      ensures Valid() && 0 <= done <= |buf|
      ensures done == 0 && HoleFree(old(fs), ino) ==> HoleFree(fs, ino) && File(fs, ino) == File(old(fs), ino)
      ensures 0 < done && HoleFree(old(fs), ino) && offset <= old(fs).inodes[ino].size && offset + done < 0x1_0000_0000 ==>
                HoleFree(fs, ino) && File(fs, ino) == File(old(fs), ino)[..offset] + buf[..done]
      ensures forall j :: j != ino && HoleFree(old(fs), j) ==> HoleFree(fs, j) && File(fs, j) == File(old(fs), j)
      ensures offset + |buf| < MaxBytes(old(fs)) && polls >= |buf| && done < |buf| ==> fs.sbFree <= 0
    {
      ghost var before := fs;
      var fs', done';
      ghost var owner';
      fs', done', owner' := WriteFile(fs, ino, offset, buf, polls, meta, owner);
      WriteOutcome(fs, fs', meta, owner, owner', ino, offset, buf, done');
      fs, owner, done := fs', owner', done';
    }

    /** `ext2::read`, the count already cut to the size of the file. */
    method Read(ino: int, offset: int, amount: int, polls: nat) returns (buf: Block, stray: int)
      requires Valid() && Mappable(fs, ino) && 0 <= offset && 0 <= amount && offset + amount <= fs.inodes[ino].size
      ensures ReadAs(fs, ino, offset, amount, buf)
      ensures polls > amount ==> (|buf| == amount <==> NoHole(fs, ino, offset, amount))
      ensures HoleFree(fs, ino) ==> buf == File(fs, ino)[offset..offset + |buf|]
      ensures stray == if polls > 0 then Stray(fs, ino, offset, amount) else 0
    {
      buf, stray := ReadFile(fs, ino, offset, amount, polls, meta, owner);
      if HoleFree(fs, ino) {
        ReadIsSlice(fs, ino, offset, amount, buf);
      }
    }

    /** `free_inode`. */
    method Free(ino: int)
      requires Valid()
      modifies this
      ensures Valid() && fs.inodes == old(fs).inodes - {ino} && fs.disk == old(fs).disk && fs.bs == old(fs).bs
      ensures fs.sbFree == old(fs).sbFree + |BlocksOf(old(owner), ino)|
      ensures forall b :: IsUsed(fs, b) <==> IsUsed(old(fs), b) && b !in BlocksOf(old(owner), ino)
      ensures forall j :: j != ino && HoleFree(old(fs), j) ==> HoleFree(fs, j) && File(fs, j) == File(old(fs), j)
    {
      var fs' := FreeInode(fs, ino, meta, owner);
      FreeOutcome(fs, fs', ino);
      fs, owner := fs', WithoutInode(owner, ino);
    }
  }

  /** Freeing one inode leaves the contents of every other file. */
  lemma FreeOutcome(fs: Fs, fs': Fs, ino: int)
    requires InodesOk(fs.inodes) && fs.bs >= 4 && fs'.bs == fs.bs && fs'.disk == fs.disk &&
        fs'.inodes == fs.inodes - {ino}
    ensures forall j :: j != ino && HoleFree(fs, j) ==> HoleFree(fs', j) && File(fs', j) == File(fs, j)
  {
    forall j | j != ino && HoleFree(fs, j) ensures HoleFree(fs', j) && File(fs', j) == File(fs, j) {
      forall off | 0 <= off < fs.inodes[j].size
        ensures Reachable(fs', off) && Covered(fs', j, off) && ByteAt(fs', j, off) == ByteAt(fs, j, off)
      {
        assert Reachable(fs, off) && Covered(fs, j, off);
      }
    }
  }

  /** A small volume with one empty file, to start from: block 0 is metadata, block 1 is free. */
  lemma EmptyVolumeOk(bs: int)
    requires bs >= 2048 && bs % 4 == 0
    ensures var z := ZeroBlock(bs);
            VolumeOk(Fs(bs, 2, map[0 := z, 1 := z], [[true, false]], [1], 1, map[2 := Inode(0, 0, seq(15, i => 0))]), {0}, map[], {})
  {
    var z, x := ZeroBlock(bs), Inode(0, 0, seq(15, i => 0));
    var fs := Fs(bs, 2, map[0 := z, 1 := z], [[true, false]], [1], 1, map[2 := x]);
    assert ClearBits(fs.used[0]) == 1 by { assert fs.used[0][1..] == [false]; }
    forall b ensures BitMeans(fs, {0}, map[], {}, b) { }
    forall ino, p ensures SlotOwns(Fan(fs), fs.inodes, fs.disk, map[], ino, p) {
      if ino in fs.inodes && IsSlot(Fan(fs), p) {
        assert p[..1] == [p[0]];
        UnsetBelow(x, fs.disk, p[..1], p);
      }
    }
  }

  /** What a write does to the contents of every file. */
  lemma WriteOutcome(fs: Fs, fs': Fs, meta: set<int>, owner: Owner, owner': Owner, ino: int, offset: int, buf: Block,
      done: int)
    requires VolumeOk(fs, meta, owner, {}) && VolumeOk(fs', meta, owner', {}) && ino in fs.inodes && 0 <= offset
    requires WriteDone(fs, fs', ino, offset, buf, done)
    ensures done == 0 && HoleFree(fs, ino) ==> HoleFree(fs', ino) && File(fs', ino) == File(fs, ino)
    ensures 0 < done && HoleFree(fs, ino) && offset <= fs.inodes[ino].size && offset + done < 0x1_0000_0000 ==>
              HoleFree(fs', ino) && File(fs', ino) == File(fs, ino)[..offset] + buf[..done]
    ensures forall j :: j != ino && HoleFree(fs, j) ==> HoleFree(fs', j) && File(fs', j) == File(fs, j)
  {
    if done == 0 && HoleFree(fs, ino) {
      EmptyWrite(fs, fs', ino, offset, buf);
    }
    if 0 < done && HoleFree(fs, ino) && offset <= fs.inodes[ino].size && offset + done < 0x1_0000_0000 {
      WrittenFile(fs, fs', meta, owner, ino, offset, buf, done);
    }
    forall j | j != ino && HoleFree(fs, j) ensures HoleFree(fs', j) && File(fs', j) == File(fs, j) {
      OtherFile(fs, fs', ino, offset, offset + done, j);
    }
  }

  lemma EmptyWrite(fs: Fs, fs': Fs, ino: int, offset: int, buf: Block)
    requires WriteDone(fs, fs', ino, offset, buf, 0) && HoleFree(fs, ino) && 0 <= fs.inodes[ino].size
    ensures HoleFree(fs', ino) && File(fs', ino) == File(fs, ino)
  {
    forall off | 0 <= off < fs.inodes[ino].size
      ensures Reachable(fs', off) && Covered(fs', ino, off) && ByteAt(fs', ino, off) == ByteAt(fs, ino, off)
    {
      assert Reachable(fs, off) && Covered(fs, ino, off);
      assert ByteKept(fs, fs', ino, offset, offset + 0, ino, off);
    }
  }
}
