/** How one step, or a whole run of steps, that adds blocks to one file relates the volume before and after. */
module Ext2Extend {
  import opened Ext2Words
  import opened Ext2Tree
  import opened Ext2Alloc
  import opened Ext2State

  /** A slot of another inode, and a slot that is already set, keep their value. */
  predicate SlotKept(fs: Fs, fs': Fs, ino: int, jno: int, q: Path)
  {
    IsSlot(Fan(fs), q) && (jno != ino || At(fs, jno, q) != 0) ==> At(fs', jno, q) == At(fs, jno, q)
  }

  /** Slots of `ino` that do not lead to `s` keep their value, set or not. */
  predicate OffPathKept(fs: Fs, fs': Fs, ino: int, s: Path, q: Path)
  {
    IsSlot(Fan(fs), q) && !(q <= s) ==> At(fs', ino, q) == At(fs, ino, q)
  }

  predicate DataKept(fs: Fs, fs': Fs, owner: Owner, c: int)
  {
    c in owner && IsLeaf(owner[c].path) ==> Blk(fs'.disk, c) == Blk(fs.disk, c)
  }

  predicate OwnerKept(owner: Owner, owner': Owner, c: int)
  {
    c in owner ==> c in owner' && owner'[c] == owner[c]
  }

  predicate InodesKept(inodes: Inodes, inodes': Inodes, ino: int)
  {
    && inodes'.Keys == inodes.Keys
    && (forall j :: j in inodes && j != ino ==> inodes'[j] == inodes[j])
    && (ino in inodes ==> inodes'[ino].size == inodes[ino].size)
  }

  /** Only unset slots of `ino` may have changed; no data block and no owner has. */
  ghost predicate Extends(fs: Fs, fs': Fs, owner: Owner, owner': Owner, ino: int)
  {
    && fs'.bs == fs.bs && InodesKept(fs.inodes, fs'.inodes, ino)
    && (forall jno, q :: SlotKept(fs, fs', ino, jno, q))
    && (forall c :: DataKept(fs, fs', owner, c))
    && (forall c :: OwnerKept(owner, owner', c))
  }

  /** Only slots on the way to `s` may have changed. */
  ghost predicate Along(fs: Fs, fs': Fs, ino: int, s: Path)
  {
    fs'.bs == fs.bs && forall q :: OffPathKept(fs, fs', ino, s, q)
  }

  lemma ExtendsTrans(fs: Fs, fs1: Fs, fs2: Fs, owner: Owner, owner1: Owner, owner2: Owner, ino: int)
    requires Extends(fs, fs1, owner, owner1, ino) && Extends(fs1, fs2, owner1, owner2, ino)
    ensures Extends(fs, fs2, owner, owner2, ino)
  {
    forall jno, q ensures SlotKept(fs, fs2, ino, jno, q) {
      assert SlotKept(fs, fs1, ino, jno, q) && SlotKept(fs1, fs2, ino, jno, q);
    }
    forall c ensures DataKept(fs, fs2, owner, c) {
      assert DataKept(fs, fs1, owner, c) && OwnerKept(owner, owner1, c) && DataKept(fs1, fs2, owner1, c);
    }
    forall c ensures OwnerKept(owner, owner2, c) {
      assert OwnerKept(owner, owner1, c) && OwnerKept(owner1, owner2, c);
    }
  }

  lemma AlongTrans(fs: Fs, fs1: Fs, fs2: Fs, ino: int, s: Path, s1: Path)
    requires s1 <= s && (Along(fs, fs1, ino, s1) || Along(fs, fs1, ino, s)) && Along(fs1, fs2, ino, s)
    ensures Along(fs, fs2, ino, s)
  {
    forall q ensures OffPathKept(fs, fs2, ino, s, q) {
      assert Along(fs, fs1, ino, s1) ==> OffPathKept(fs, fs1, ino, s1, q);
      assert Along(fs, fs1, ino, s) ==> OffPathKept(fs, fs1, ino, s, q);
      assert OffPathKept(fs1, fs2, ino, s, q);
    }
  }

  /** Same slots, same data. */
  lemma SameExtends(fs: Fs, fs': Fs, owner: Owner, ino: int, s: Path)
    requires fs'.bs == fs.bs && InodesKept(fs.inodes, fs'.inodes, ino)
    requires forall jno, q :: IsSlot(Fan(fs), q) ==> At(fs', jno, q) == At(fs, jno, q)
    requires forall c :: DataKept(fs, fs', owner, c)
    ensures Extends(fs, fs', owner, owner, ino) && Along(fs, fs', ino, s)
  {
  }

  /** Clearing a block nobody owns. */
  lemma ClearedExtends(fs: Fs, meta: set<int>, owner: Owner, pending: set<int>, ino: int, b: int, s: Path)
    requires VolumeOk(fs, meta, owner, pending) && b in pending
    ensures var fs' := fs.(disk := fs.disk[b := ZeroBlock(fs.bs)]);
            VolumeOk(fs', meta, owner, pending) && Blank(owner, fs'.disk, b) &&
            Extends(fs, fs', owner, owner, ino) && Along(fs, fs', ino, s)
  {
    var fs' := fs.(disk := fs.disk[b := ZeroBlock(fs.bs)]);
    assert BitMeans(fs, meta, owner, pending, b) && BitMeans(fs, meta, owner, pending, 0);
    UsedOnDisk(fs, meta, owner, pending, b);
    RewriteOk(fs, meta, owner, pending, b, ZeroBlock(fs.bs));
    forall jno, q | IsSlot(Fan(fs), q) ensures At(fs', jno, q) == At(fs, jno, q) {
      OtherBlockValue(Fan(fs), fs.inodes, fs.disk, owner, b, ZeroBlock(fs.bs), jno, q);
    }
    SameExtends(fs, fs', owner, ino, s);
  }

  /** Only the bitmap and the counts change. */
  lemma BitExtends(fs: Fs, fs': Fs, owner: Owner, ino: int, s: Path)
    requires SameFiles(fs, fs')
    ensures Extends(fs, fs', owner, owner, ino) && Along(fs, fs', ino, s)
  {
  }

  /** The file's sector count grows by one block. */
  function MoreSectors(fs: Fs, ino: int): Fs
    requires ino in fs.inodes
  {
    fs.(inodes := fs.inodes[ino := fs.inodes[ino].(sectors := fs.inodes[ino].sectors + fs.bs / 512)])
  }

  lemma SectorsExtends(fs: Fs, meta: set<int>, owner: Owner, pending: set<int>, ino: int, s: Path)
    requires VolumeOk(fs, meta, owner, pending) && ino in fs.inodes
    ensures VolumeOk(MoreSectors(fs, ino), meta, owner, pending)
    ensures Extends(fs, MoreSectors(fs, ino), owner, owner, ino) && Along(fs, MoreSectors(fs, ino), ino, s)
  {
    ResizeOk(fs, meta, owner, pending, ino, MoreSectors(fs, ino).inodes[ino]);
    SameExtends(fs, MoreSectors(fs, ino), owner, ino, s);
  }

  /** Attaching a pending block to the inode itself. */
  lemma RootExtends(fs: Fs, meta: set<int>, owner: Owner, pending: set<int>, ino: int, k: int, b: int)
    requires VolumeOk(fs, meta, owner, pending) && b in pending && ino in fs.inodes && 0 <= k <= 14 &&
        At(fs, ino, [k]) == 0
    requires IsLeaf([k]) || Blank(owner, fs.disk, b)
    ensures var fs' := fs.(inodes := WithRoot(fs.inodes, ino, k, b));
            Extends(fs, fs', owner, owner[b := Place(ino, [k])], ino) && Along(fs, fs', ino, [k]) && At(fs', ino, [k]) == b
  {
    var fs' := fs.(inodes := WithRoot(fs.inodes, ino, k, b));
    UsedOnDisk(fs, meta, owner, pending, b);
    assert BitMeans(fs, meta, owner, pending, b) && BitMeans(fs, meta, owner, pending, 0);
    RootValue(Fan(fs), fs.inodes, fs.disk, owner, ino, k, b, ino, [k]);
    forall jno, q ensures SlotKept(fs, fs', ino, jno, q) {
      if IsSlot(Fan(fs), q) { RootValue(Fan(fs), fs.inodes, fs.disk, owner, ino, k, b, jno, q); }
    }
    forall q ensures OffPathKept(fs, fs', ino, [k], q) {
      if IsSlot(Fan(fs), q) { RootValue(Fan(fs), fs.inodes, fs.disk, owner, ino, k, b, ino, q); }
    }
  }

  /** Attaching a pending block to an indirect block. */
  lemma HungExtends(fs: Fs, meta: set<int>, owner: Owner, pending: set<int>, ino: int, p: Path, i: int, b: int)
    requires VolumeOk(fs, meta, owner, pending) && b in pending && IsSlot(Fan(fs), p + [i]) && p != []
    requires At(fs, ino, p) != 0 && At(fs, ino, p + [i]) == 0
    requires IsLeaf(p + [i]) || Blank(owner, fs.disk, b)
    ensures var fs' := fs.(disk := WithPointer(fs.disk, At(fs, ino, p), i, b));
            Extends(fs, fs', owner, owner[b := Place(ino, p + [i])], ino) && Along(fs, fs', ino, p + [i]) && At(fs', ino, p + [i]) == b
  {
    var fs' := fs.(disk := WithPointer(fs.disk, At(fs, ino, p), i, b));
    var s := p + [i];
    UsedOnDisk(fs, meta, owner, pending, b);
    IndirectWide(fs, meta, owner, pending, ino, p, i);
    assert BitMeans(fs, meta, owner, pending, b) && BitMeans(fs, meta, owner, pending, 0);
    HungValue(Fan(fs), fs.inodes, fs.disk, owner, ino, p, i, b, ino, s);
    forall jno, q ensures SlotKept(fs, fs', ino, jno, q) {
      if IsSlot(Fan(fs), q) { HungValue(Fan(fs), fs.inodes, fs.disk, owner, ino, p, i, b, jno, q); }
    }
    forall q ensures OffPathKept(fs, fs', ino, s, q) {
      if IsSlot(Fan(fs), q) { HungValue(Fan(fs), fs.inodes, fs.disk, owner, ino, p, i, b, ino, q); }
    }
    assert s[..|p|] == p;
    assert !IsLeaf(p);
  }

  // ----- lookups

  /** A block moves the same amount from the free count to the file's sector count. */
  function Bill(fs: Fs, ino: int): int
    requires ino in fs.inodes
  {
    fs.inodes[ino].sectors + fs.bs / 512 * fs.sbFree
  }

  /** What looking up slot `s` of `ino` gives: the pointer there, with nothing else touched. */
  ghost predicate Found(fs: Fs, fs': Fs, meta: set<int>, owner: Owner, owner': Owner, ino: int, s: Path, b: int,
      allocate: bool)
  {
    && VolumeOk(fs', meta, owner', {}) && Extends(fs, fs', owner, owner', ino) && Along(fs, fs', ino, s)
    && b == At(fs', ino, s)
    && (!allocate ==> fs' == fs && owner' == owner)
    && (allocate && b == 0 ==> fs'.sbFree <= 0)
    && (b != 0 && ino in fs.inodes && ino in fs'.inodes ==> Bill(fs', ino) == Bill(fs, ino))
  }

  /** Two lookups in a row, the second below the first. */
  lemma FoundTrans(fs: Fs, fs1: Fs, fs2: Fs, meta: set<int>, owner: Owner, owner1: Owner, owner2: Owner, ino: int,
      p: Path, s: Path, c: int, b: int, allocate: bool)
    requires Found(fs, fs1, meta, owner, owner1, ino, p, c, allocate) &&
        Found(fs1, fs2, meta, owner1, owner2, ino, s, b, allocate)
    requires p <= s && c != 0 && ino in fs.inodes
    ensures Found(fs, fs2, meta, owner, owner2, ino, s, b, allocate)
  {
    ExtendsTrans(fs, fs1, fs2, owner, owner1, owner2, ino);
    AlongTrans(fs, fs1, fs2, ino, s, p);
  }

  /** A lookup that stops above `s` because a pointer is unset. */
  lemma FoundUnset(fs: Fs, fs1: Fs, meta: set<int>, owner: Owner, owner1: Owner, ino: int, p: Path, s: Path,
      allocate: bool)
    requires Found(fs, fs1, meta, owner, owner1, ino, p, 0, allocate) && p != [] && p <= s && ino in fs.inodes
    ensures Found(fs, fs1, meta, owner, owner1, ino, s, 0, allocate)
  {
    assert s[..|p|] == p;
    UnsetBelow(fs1.inodes[ino], fs1.disk, p, s);
    BitExtends(fs1, fs1, owner, ino, s);
    AlongTrans(fs, fs1, fs1, ino, s, p);
  }
}
