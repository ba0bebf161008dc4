/** Freeing an inode: every block it reaches goes back to the bitmap, once. */
module Ext2Free {
  import opened Ext2Words
  import opened Ext2Tree
  import opened Ext2Alloc
  import opened Ext2State
  import opened Ext2Branches

  /** `free_block` on a block no file reaches any more. */
  method Release(fs: Fs, b: int, ghost meta: set<int>, ghost owner: Owner, ghost pending: set<int>) returns (fs': Fs)
    requires VolumeOk(fs, meta, owner, pending) && b in pending
    ensures VolumeOk(fs', meta, owner, pending - {b}) && SameFiles(fs, fs') && fs'.sbFree == fs.sbFree + 1
  {
    UsedOnDisk(fs, meta, owner, pending, b);
    fs' := FreeBlock(fs, b);
    ReleasedOk(fs, fs', meta, owner, pending, b);
  }

  /** Slot `q` of the dropped inode, `level` indirections above the data: its block and everything below it. */
  method FreeSlot(fs: Fs, v: int, level: nat, ghost q: Path, ghost meta: set<int>, ghost owner: Owner,
      ghost pending: set<int>, ghost ino: int, ghost inodes0: Inodes, ghost owner0: Owner)
    returns (fs': Fs)
    requires VolumeOk(fs, meta, owner, pending) && Owned(Fan(fs), inodes0, fs.disk, owner0)
    requires IsSlot(Fan(fs), q) && v == Val(inodes0, fs.disk, ino, q) && level == Depth(q[0]) - |q|
    requires Branch(owner0, ino, q) <= pending
    ensures Returned(fs, fs', meta, owner, pending, Branch(owner0, ino, q))
    decreases level, 2
  {
    fs' := fs;
    if v == 0 {
      UnsetBranch(Fan(fs), inodes0, fs.disk, owner0, ino, q);
      assert pending - {} == pending;
    } else {
      SetBranch(Fan(fs), inodes0, fs.disk, owner0, ino, q);
      ghost var below := Before(owner0, ino, q, Fan(fs));
      if level > 0 {
        fs' := FreeIndirect(fs, v, level, q, meta, owner, pending, ino, inodes0, owner0);
      } else {
        assert pending - {} == pending;
      }
      fs' := Release(fs', v, meta, owner, pending - below);
      assert pending - below - {v} == pending - Branch(owner0, ino, q);
    }
  }

  /** `free_singly_`, `free_doubly_` and `free_triply_indirect_blocks`, at levels 1, 2 and 3. */
  method FreeIndirect(fs: Fs, c: int, level: nat, ghost p: Path, ghost meta: set<int>, ghost owner: Owner,
      ghost pending: set<int>, ghost ino: int, ghost inodes0: Inodes, ghost owner0: Owner)
    returns (fs': Fs)
    requires VolumeOk(fs, meta, owner, pending) && Owned(Fan(fs), inodes0, fs.disk, owner0)
    requires IsSlot(Fan(fs), p) && c == Val(inodes0, fs.disk, ino, p) != 0 && 0 < level == Depth(p[0]) - |p|
    requires Branch(owner0, ino, p) <= pending
    ensures Returned(fs, fs', meta, owner, pending, Before(owner0, ino, p, Fan(fs)))
    decreases level, 1
  {
    var n := Fan(fs);
    assert c in pending by { SetBranch(n, inodes0, fs.disk, owner0, ino, p); }
    BeforeStarts(n, inodes0, fs.disk, owner0, ino, p);
    UsedOnDisk(fs, meta, owner, pending, c);
    var buf := fs.disk[c];
    fs' := fs;
    ReturnedNothing(fs, meta, owner, pending);
    var i := 0;
    while i < n
      invariant 0 <= i <= n && Returned(fs, fs', meta, owner, pending, Before(owner0, ino, p, i))
    {
      fs' := FreeChild(fs, fs', Word(buf, i), i, level, p, meta, owner, pending, ino, inodes0, owner0);
      i := i + 1;
    }
  }

  /** One pointer of the indirect block at `p`, those before it being done. */
  method FreeChild(ghost fs0: Fs, fs: Fs, v: int, ghost i: int, level: nat, ghost p: Path, ghost meta: set<int>,
      ghost owner: Owner, ghost pending: set<int>, ghost ino: int, ghost inodes0: Inodes, ghost owner0: Owner)
    returns (fs': Fs)
    requires VolumeOk(fs0, meta, owner, pending) && Owned(Fan(fs0), inodes0, fs0.disk, owner0)
    requires IsSlot(Fan(fs0), p) && Val(inodes0, fs0.disk, ino, p) in fs0.disk && Val(inodes0, fs0.disk, ino, p) != 0
    requires 0 < level == Depth(p[0]) - |p| && Branch(owner0, ino, p) <= pending && 0 <= i < Fan(fs0)
    requires v == Word(fs0.disk[Val(inodes0, fs0.disk, ino, p)], i)
    requires Returned(fs0, fs, meta, owner, pending, Before(owner0, ino, p, i))
    ensures Returned(fs0, fs', meta, owner, pending, Before(owner0, ino, p, i + 1))
    decreases level, 0
  {
    ghost var q := ChildSlot(Fan(fs0), inodes0, fs0.disk, owner0, ino, p, i, pending);
    fs' := FreeSlot(fs, v, level - 1, q, meta, owner, pending - Before(owner0, ino, p, i), ino, inodes0, owner0);
    ReturnedMore(fs0, fs, fs', meta, owner, pending, owner0, ino, p, i);
  }

  /** Every block of an inode is behind one of its fifteen pointers. */
  lemma AllBehindRoots(n: int, inodes: Inodes, disk: Disk, owner: Owner, ino: int)
    requires Owned(n, inodes, disk, owner)
    ensures Before(owner, ino, [], 15) == BlocksOf(owner, ino) == Branch(owner, ino, [])
  {
    forall b | b in BlocksOf(owner, ino) ensures b in Before(owner, ino, [], 15) {
      assert OwnerPoints(n, inodes, disk, owner, b);
    }
  }

  /** One of the inode's own pointers. */
  method FreeRoot(ghost fs0: Fs, fs: Fs, x: Inode, k: int, ghost meta: set<int>, ghost owner: Owner, ghost ino: int,
      ghost inodes0: Inodes, ghost owner0: Owner)
    returns (fs': Fs)
    requires Owned(Fan(fs0), inodes0, fs0.disk, owner0) && ino in inodes0 && inodes0[ino] == x && |x.ptrs| == 15 &&
        0 <= k < 15
    requires Returned(fs0, fs, meta, owner, BlocksOf(owner0, ino), Before(owner0, ino, [], k))
    ensures Returned(fs0, fs', meta, owner, BlocksOf(owner0, ino), Before(owner0, ino, [], k + 1))
  {
    ghost var gone := Before(owner0, ino, [], k);
    assert [] + [k] == [k];
    BeforeNext(owner0, ino, [], k);
    fs' := FreeSlot(fs, x.ptrs[k], if k < NDIR then 0 else k - 11, [k], meta, owner, BlocksOf(owner0, ino) - gone, ino, inodes0, owner0);
    ReturnedMore(fs0, fs, fs', meta, owner, BlocksOf(owner0, ino), owner0, ino, [], k);
  }

  /** `free_inode_blocks`: the direct pointers, then the three indirect ones. */
  method FreeInodeBlocks(fs: Fs, x: Inode, ghost meta: set<int>, ghost owner: Owner, ghost ino: int,
      ghost inodes0: Inodes, ghost owner0: Owner) returns (fs': Fs)
    requires VolumeOk(fs, meta, owner, BlocksOf(owner0, ino)) && Owned(Fan(fs), inodes0, fs.disk, owner0)
    requires ino in inodes0 && inodes0[ino] == x && |x.ptrs| == 15
    ensures Returned(fs, fs', meta, owner, BlocksOf(owner0, ino), BlocksOf(owner0, ino))
  {
    BeforeStarts(Fan(fs), inodes0, fs.disk, owner0, ino, []);
    ReturnedNothing(fs, meta, owner, BlocksOf(owner0, ino));
    fs' := fs;
    for k := 0 to NDIR
      invariant Returned(fs, fs', meta, owner, BlocksOf(owner0, ino), Before(owner0, ino, [], k))
    {
      fs' := FreeRoot(fs, fs', x, k, meta, owner, ino, inodes0, owner0);
    }
    fs' := FreeRoot(fs, fs', x, 12, meta, owner, ino, inodes0, owner0);
    fs' := FreeRoot(fs, fs', x, 13, meta, owner, ino, inodes0, owner0);
    fs' := FreeRoot(fs, fs', x, 14, meta, owner, ino, inodes0, owner0);
    AllBehindRoots(Fan(fs), inodes0, fs.disk, owner0, ino);
  }

  /** `free_inode`: an inode already free is left alone; otherwise it and all its blocks are given back. */
  method FreeInode(fs: Fs, ino: int, ghost meta: set<int>, ghost owner: Owner) returns (fs': Fs)
    requires VolumeOk(fs, meta, owner, {})
    ensures VolumeOk(fs', meta, WithoutInode(owner, ino), {})
    ensures fs'.inodes == fs.inodes - {ino} && fs'.disk == fs.disk && fs'.bs == fs.bs
    ensures fs'.sbFree == fs.sbFree + |BlocksOf(owner, ino)|
    ensures forall b :: IsUsed(fs', b) <==> IsUsed(fs, b) && b !in BlocksOf(owner, ino)
  {
    DropOk(fs, meta, owner, ino);
    fs' := fs;
    if ino in fs.inodes {
      var x := fs.inodes[ino];
      var fs1 := fs.(inodes := fs.inodes - {ino});
      fs' := FreeInodeBlocks(fs1, x, meta, WithoutInode(owner, ino), ino, fs.inodes, owner);
      assert BlocksOf(owner, ino) - BlocksOf(owner, ino) == {};
    } else {
      NoBlocks(fs, meta, owner, ino);
    }
    FreedBits(fs, fs', meta, owner, ino);
  }

  lemma NoBlocks(fs: Fs, meta: set<int>, owner: Owner, ino: int)
    requires VolumeOk(fs, meta, owner, {}) && ino !in fs.inodes
    ensures BlocksOf(owner, ino) == {} && WithoutInode(owner, ino) == owner && fs.inodes - {ino} == fs.inodes
  {
    forall b | b in owner ensures owner[b].ino != ino {
      assert OwnerPoints(Fan(fs), fs.inodes, fs.disk, owner, b);
    }
  }

  lemma FreedBits(fs: Fs, fs': Fs, meta: set<int>, owner: Owner, ino: int)
    requires VolumeOk(fs, meta, owner, {}) && VolumeOk(fs', meta, WithoutInode(owner, ino), {})
    ensures forall b :: IsUsed(fs', b) <==> IsUsed(fs, b) && b !in BlocksOf(owner, ino)
  {
    forall b ensures IsUsed(fs', b) <==> IsUsed(fs, b) && b !in BlocksOf(owner, ino) {
      assert BitMeans(fs, meta, owner, {}, b) && BitMeans(fs', meta, WithoutInode(owner, ino), {}, b);
    }
  }
}
