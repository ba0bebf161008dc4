/** What a mounted volume keeps between operations, and the small steps operations are made of. */
module Ext2State {
  import opened Ext2Words
  import opened Ext2Tree
  import opened Ext2Alloc

  /** Pointers per indirect block. */
  function Fan(fs: Fs): int { fs.bs / 4 }

  /** The block a slot of the volume points to. */
  function At(fs: Fs, ino: int, p: Path): int { Val(fs.inodes, fs.disk, ino, p) }

  ghost predicate DiskOk(fs: Fs)
    requires 0 < fs.bpg
  {
    forall b :: InRange(fs, b) ==> b < 0x1_0000_0000 && b in fs.disk && IsBlock(fs.disk[b], fs.bs)
  }

  predicate InodesOk(inodes: Inodes)
  {
    forall i :: i in inodes ==> |inodes[i].ptrs| == 15 && 0 <= inodes[i].size < 0x1_0000_0000
  }

  /** The bit of `b` is set exactly when it is metadata, reached from a slot, or between allocation and attachment. */
  predicate BitMeans(fs: Fs, meta: set<int>, owner: Owner, pending: set<int>, b: int)
    requires Geometry(fs)
  {
    && (IsUsed(fs, b) <==> b in meta || b in owner || b in pending)
    && !(b in meta && b in owner) && !(b in meta && b in pending) && !(b in owner && b in pending)
  }

  ghost predicate Accounted(fs: Fs, meta: set<int>, owner: Owner, pending: set<int>)
    requires Geometry(fs)
  {
    0 in meta && forall b :: BitMeans(fs, meta, owner, pending, b)
  }

  /** The volume invariant. Between operations `pending` is empty. */
  ghost predicate VolumeOk(fs: Fs, meta: set<int>, owner: Owner, pending: set<int>)
  {
    && Geometry(fs) && CountsOk(fs) && DiskOk(fs) && InodesOk(fs.inodes)
    && Owned(Fan(fs), fs.inodes, fs.disk, owner)
    && Accounted(fs, meta, owner, pending)
  }

  /** The same volume but for the bitmap and its counts. */
  predicate SameFiles(fs: Fs, fs': Fs)
  {
    fs' == fs.(used := fs'.used, groupFree := fs'.groupFree, sbFree := fs'.sbFree)
  }

  /** A block just taken from the bitmap is in neither file nor metadata. */
  lemma TakenOk(fs: Fs, fs': Fs, meta: set<int>, owner: Owner, pending: set<int>, b: int)
    requires VolumeOk(fs, meta, owner, pending) && InRange(fs, b) && !IsUsed(fs, b) && BitSet(fs, fs', b, true)
    ensures VolumeOk(fs', meta, owner, pending + {b}) && b !in owner && b !in meta && b !in pending
  {
    assert BitMeans(fs, meta, owner, pending, b);
    forall c ensures BitMeans(fs', meta, owner, pending + {b}, c) {
      assert BitMeans(fs, meta, owner, pending, c);
    }
  }

  lemma ReleasedOk(fs: Fs, fs': Fs, meta: set<int>, owner: Owner, pending: set<int>, b: int)
    requires VolumeOk(fs, meta, owner, pending) && b in pending && BitSet(fs, fs', b, false)
    ensures VolumeOk(fs', meta, owner, pending - {b})
  {
    forall c ensures BitMeans(fs', meta, owner, pending - {b}, c) {
      assert BitMeans(fs, meta, owner, pending, c);
    }
  }

  /** Every used block is on the disk. */
  lemma UsedOnDisk(fs: Fs, meta: set<int>, owner: Owner, pending: set<int>, b: int)
    requires VolumeOk(fs, meta, owner, pending) && (b in meta || b in owner || b in pending)
    ensures InRange(fs, b) && IsUsed(fs, b) && b < 0x1_0000_0000 && b in fs.disk && IsBlock(fs.disk[b], fs.bs)
  {
    assert BitMeans(fs, meta, owner, pending, b);
  }

  /** A change of disk contents or inodes leaves the bitmap's side of the invariant alone. */
  lemma BitsFrame(fs: Fs, fs': Fs, meta: set<int>, owner: Owner, pending: set<int>)
    requires Geometry(fs) && CountsOk(fs) && Accounted(fs, meta, owner, pending)
    requires fs' == fs.(disk := fs'.disk, inodes := fs'.inodes)
    ensures Geometry(fs') && CountsOk(fs') && Accounted(fs', meta, owner, pending)
  {
    forall b ensures BitMeans(fs', meta, owner, pending, b) {
      assert BitMeans(fs, meta, owner, pending, b);
    }
  }

  lemma DiskFrame(fs: Fs, c: int, blk: Block)
    requires 0 < fs.bpg && DiskOk(fs) && IsBlock(blk, fs.bs)
    ensures DiskOk(fs.(disk := fs.disk[c := blk]))
  {
    var fs' := fs.(disk := fs.disk[c := blk]);
    forall b | InRange(fs', b) ensures b < 0x1_0000_0000 && b in fs'.disk && IsBlock(fs'.disk[b], fs'.bs) {
      assert InRange(fs, b);
    }
  }

  lemma InodesFrame(fs: Fs, inodes: Inodes)
    requires 0 < fs.bpg && DiskOk(fs)
    ensures DiskOk(fs.(inodes := inodes))
  {
    var fs' := fs.(inodes := inodes);
    forall b | InRange(fs', b) ensures b < 0x1_0000_0000 && b in fs'.disk && IsBlock(fs'.disk[b], fs'.bs) {
      assert InRange(fs, b);
    }
  }

  /** Rewriting a block that holds no pointers: file data, or a block still pending. */
  lemma RewriteOk(fs: Fs, meta: set<int>, owner: Owner, pending: set<int>, c: int, blk: Block)
    requires VolumeOk(fs, meta, owner, pending) && HoldsNoPointers(owner, c) && IsBlock(blk, fs.bs)
    ensures VolumeOk(fs.(disk := fs.disk[c := blk]), meta, owner, pending)
  {
    OtherBlockOwned(Fan(fs), fs.inodes, fs.disk, owner, c, blk);
    BitsFrame(fs, fs.(disk := fs.disk[c := blk]), meta, owner, pending);
    DiskFrame(fs, c, blk);
  }

  /** A pending block changes hands: it is now what slot `p` of `ino` points to. */
  lemma AttachAccounted(fs: Fs, fs': Fs, meta: set<int>, owner: Owner, pending: set<int>, b: int, place: Place)
    requires Geometry(fs) && CountsOk(fs) && Accounted(fs, meta, owner, pending) && b in pending
    requires fs' == fs.(disk := fs'.disk, inodes := fs'.inodes)
    ensures Geometry(fs') && CountsOk(fs') && Accounted(fs', meta, owner[b := place], pending - {b})
  {
    var owner', pending' := owner[b := place], pending - {b};
    forall c ensures BitMeans(fs', meta, owner', pending', c) {
      assert BitMeans(fs, meta, owner, pending, c);
    }
  }

  lemma AttachRootOk(fs: Fs, meta: set<int>, owner: Owner, pending: set<int>, ino: int, k: int, b: int)
    requires VolumeOk(fs, meta, owner, pending) && b in pending && ino in fs.inodes && 0 <= k <= 14 &&
        At(fs, ino, [k]) == 0
    requires IsLeaf([k]) || Blank(owner, fs.disk, b)
    ensures VolumeOk(fs.(inodes := WithRoot(fs.inodes, ino, k, b)), meta, owner[b := Place(ino, [k])], pending - {b})
  {
    UsedOnDisk(fs, meta, owner, pending, b);
    assert BitMeans(fs, meta, owner, pending, b) && BitMeans(fs, meta, owner, pending, 0);
    RootOwned(Fan(fs), fs.inodes, fs.disk, owner, ino, k, b);
    InodesFrame(fs, WithRoot(fs.inodes, ino, k, b));
    AttachAccounted(fs, fs.(inodes := WithRoot(fs.inodes, ino, k, b)), meta, owner, pending, b, Place(ino, [k]));
  }

  /** An indirect block in use is on the disk and wide enough for every index. */
  lemma IndirectWide(fs: Fs, meta: set<int>, owner: Owner, pending: set<int>, ino: int, p: Path, i: int)
    requires VolumeOk(fs, meta, owner, pending) && IsSlot(Fan(fs), p + [i]) && p != [] && At(fs, ino, p) != 0
    ensures 0 <= i && 4 * i + 4 <= fs.bs && At(fs, ino, p) in fs.disk && IsBlock(fs.disk[At(fs, ino, p)], fs.bs)
    ensures At(fs, ino, p) in owner && owner[At(fs, ino, p)] == Place(ino, p)
  {
    var s := p + [i];
    assert s[|p|] == i && s[..|p|] == p;
    PrefixIsSlot(Fan(fs), s);
    assert SlotOwns(Fan(fs), fs.inodes, fs.disk, owner, ino, p);
    UsedOnDisk(fs, meta, owner, pending, At(fs, ino, p));
  }

  lemma AttachHungOk(fs: Fs, meta: set<int>, owner: Owner, pending: set<int>, ino: int, p: Path, i: int, b: int)
    requires VolumeOk(fs, meta, owner, pending) && b in pending && IsSlot(Fan(fs), p + [i]) && p != []
    requires At(fs, ino, p) != 0 && At(fs, ino, p + [i]) == 0
    requires IsLeaf(p + [i]) || Blank(owner, fs.disk, b)
    ensures VolumeOk(fs.(disk := WithPointer(fs.disk, At(fs, ino, p), i, b)), meta, owner[b := Place(ino, p + [i])], pending - {b})
  {
    IndirectWide(fs, meta, owner, pending, ino, p, i);
    UsedOnDisk(fs, meta, owner, pending, b);
    assert BitMeans(fs, meta, owner, pending, b) && BitMeans(fs, meta, owner, pending, 0);
    HungOwned(Fan(fs), fs.inodes, fs.disk, owner, ino, p, i, b);
    PutIsBlock(Blk(fs.disk, At(fs, ino, p)), fs.bs, i, b);
    DiskFrame(fs, At(fs, ino, p), PutWord(Blk(fs.disk, At(fs, ino, p)), i, b));
    AttachAccounted(fs, fs.(disk := WithPointer(fs.disk, At(fs, ino, p), i, b)), meta, owner, pending, b, Place(ino, p + [i]));
  }

  /** Changing an inode's size and sector count. */
  lemma ResizeOk(fs: Fs, meta: set<int>, owner: Owner, pending: set<int>, ino: int, x: Inode)
    requires VolumeOk(fs, meta, owner, pending) && ino in fs.inodes && x.ptrs == fs.inodes[ino].ptrs &&
        0 <= x.size < 0x1_0000_0000
    ensures VolumeOk(fs.(inodes := fs.inodes[ino := x]), meta, owner, pending)
    ensures forall jno, p :: At(fs.(inodes := fs.inodes[ino := x]), jno, p) == At(fs, jno, p)
  {
    SameTreeOwned(Fan(fs), fs.inodes, fs.disk, owner, ino, x);
    var fs' := fs.(inodes := fs.inodes[ino := x]);
    BitsFrame(fs, fs', meta, owner, pending);
    InodesFrame(fs, fs'.inodes);
    forall jno, p ensures At(fs', jno, p) == At(fs, jno, p) {
      SameTreeValue(fs.inodes, fs.disk, ino, x, jno, p);
    }
  }

  /** The blocks reached from inode `ino`. */
  function BlocksOf(owner: Owner, ino: int): set<int>
  {
    set b | b in owner && owner[b].ino == ino
  }

  lemma DropAccounted(fs: Fs, meta: set<int>, owner: Owner, ino: int)
    requires Geometry(fs) && Accounted(fs, meta, owner, {})
    ensures Accounted(fs, meta, WithoutInode(owner, ino), BlocksOf(owner, ino))
  {
    forall b ensures BitMeans(fs, meta, WithoutInode(owner, ino), BlocksOf(owner, ino), b) {
      assert BitMeans(fs, meta, owner, {}, b);
    }
  }

  /** Taking an inode off the table leaves exactly its blocks pending. */
  lemma DropOk(fs: Fs, meta: set<int>, owner: Owner, ino: int)
    requires VolumeOk(fs, meta, owner, {})
    ensures VolumeOk(fs.(inodes := fs.inodes - {ino}), meta, WithoutInode(owner, ino), BlocksOf(owner, ino))
  {
    DropOwned(Fan(fs), fs.inodes, fs.disk, owner, ino);
    DropAccounted(fs, meta, owner, ino);
    BitsFrame(fs, fs.(inodes := fs.inodes - {ino}), meta, WithoutInode(owner, ino), BlocksOf(owner, ino));
    InodesFrame(fs, fs.inodes - {ino});
  }
}
