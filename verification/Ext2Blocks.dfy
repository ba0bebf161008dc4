/** Finding, and allocating on the way, the block behind a file offset. */
module Ext2Blocks {
  import opened Ext2Words
  import opened Ext2Tree
  import opened Ext2Alloc
  import opened Ext2State
  import opened Ext2Extend
  import opened Ext2Slots

  lemma BillMoves(per: int, free: int)
    ensures per * free == per * (free - 1) + per
  {
  }

  /** `alloc_block`, the sector count, and, for an indirect block, `clear_block`. */
  method TakeBlock(fs: Fs, ino: int, clear: bool, ghost meta: set<int>, ghost owner: Owner) returns (fs': Fs, b: int)
    requires VolumeOk(fs, meta, owner, {}) && ino in fs.inodes
    ensures b == 0 <==> fs.sbFree <= 0
    ensures VolumeOk(fs', meta, owner, if b == 0 then {} else {b}) && Extends(fs, fs', owner, owner, ino) && Along(fs, fs', ino, [])
    ensures b != 0 && clear ==> Blank(owner, fs'.disk, b)
    ensures b != 0 ==> Bill(fs', ino) == Bill(fs, ino)
    ensures b == 0 ==> fs'.sbFree == fs.sbFree
    ensures ino in fs'.inodes && fs'.inodes[ino].sectors == fs.inodes[ino].sectors + fs.bs / 512
  {
    assert BitMeans(fs, meta, owner, {}, 0);
    var fs0;
    fs0, b := AllocBlock(fs);
    ghost var pending: set<int> := if b == 0 then {} else {b};
    if b != 0 {
      TakenOk(fs, fs0, meta, owner, {}, b);
      assert {} + {b} == pending;
      BillMoves(fs.bs / 512, fs.sbFree);
    }
    BitExtends(fs, fs0, owner, ino, []);
    SectorsExtends(fs0, meta, owner, pending, ino, []);
    var fs1 := fs0.(inodes := fs0.inodes[ino := fs0.inodes[ino].(sectors := fs0.inodes[ino].sectors + fs0.bs / 512)]);
    ExtendsTrans(fs, fs0, fs1, owner, owner, owner, ino);
    AlongTrans(fs, fs0, fs1, ino, [], []);
    fs' := fs1;
    if clear && b != 0 {
      ClearedExtends(fs1, meta, owner, pending, ino, b, []);
      fs' := fs1.(disk := fs1.disk[b := ZeroBlock(fs.bs)]);
      ExtendsTrans(fs, fs1, fs', owner, owner, owner, ino);
      AlongTrans(fs, fs1, fs', ino, [], []);
    }
  }

  /** Pointer `k` of the inode, allocating its block when unset and wanted. */
  method RootPointer(fs: Fs, ino: int, k: int, allocate: bool, ghost meta: set<int>, ghost owner: Owner)
    returns (fs': Fs, b: int, ghost owner': Owner)
    requires VolumeOk(fs, meta, owner, {}) && ino in fs.inodes && 0 <= k <= 14
    ensures Found(fs, fs', meta, owner, owner', ino, [k], b, allocate)
    ensures b == At(fs', ino, [k])
  {
    fs', b, owner' := fs, fs.inodes[ino].ptrs[k], owner;
    BitExtends(fs, fs, owner, ino, [k]);
    if allocate && b == 0 {
      var fs1;
      fs1, b := TakeBlock(fs, ino, k >= NDIR, meta, owner);
      fs' := fs1;
      assert OffPathKept(fs, fs1, ino, [], [k]);
      BitExtends(fs1, fs1, owner, ino, [k]);
      AlongTrans(fs, fs1, fs1, ino, [k], []);
      if b != 0 {
        assert {b} - {b} == {};
        AttachRootOk(fs1, meta, owner, {b}, ino, k, b);
        RootExtends(fs1, meta, owner, {b}, ino, k, b);
        fs' := fs1.(inodes := fs1.inodes[ino := fs1.inodes[ino].(ptrs := fs1.inodes[ino].ptrs[k := b])]);
        owner' := owner[b := Place(ino, [k])];
        ExtendsTrans(fs, fs1, fs', owner, owner, owner', ino);
        AlongTrans(fs, fs1, fs', ino, [k], []);
      }
    }
  }

  /** Pointer `i` of the indirect block at `p`, allocating its block when unset and wanted. */
  method IndirectPointer(fs: Fs, ino: int, ghost p: Path, c: int, i: int, leaf: bool, allocate: bool,
      ghost meta: set<int>, ghost owner: Owner)
    returns (fs': Fs, b: int, ghost owner': Owner)
    requires VolumeOk(fs, meta, owner, {}) && ino in fs.inodes && IsSlot(Fan(fs), p + [i]) && p != [] && (leaf <==> IsLeaf(p + [i]))
    requires c == At(fs, ino, p) != 0
    ensures Found(fs, fs', meta, owner, owner', ino, p + [i], b, allocate)
    ensures b == At(fs', ino, p + [i])
  {
    ghost var s := p + [i];
    assert s[..|p|] == p;
    IndirectWide(fs, meta, owner, {}, ino, p, i);
    fs', b, owner' := fs, Word(fs.disk[c], i), owner;
    BitExtends(fs, fs, owner, ino, s);
    if allocate && b == 0 {
      var fs1;
      fs1, b := TakeBlock(fs, ino, !leaf, meta, owner);
      fs' := fs1;
      PrefixIsSlot(Fan(fs), s);
      assert OffPathKept(fs, fs1, ino, [], s) && OffPathKept(fs, fs1, ino, [], p);
      BitExtends(fs1, fs1, owner, ino, s);
      AlongTrans(fs, fs1, fs1, ino, s, []);
      if b != 0 {
        assert {b} - {b} == {};
        IndirectWide(fs1, meta, owner, {b}, ino, p, i);
        AttachHungOk(fs1, meta, owner, {b}, ino, p, i, b);
        HungExtends(fs1, meta, owner, {b}, ino, p, i, b);
        fs' := fs1.(disk := fs1.disk[c := PutWord(fs1.disk[c], i, b)]);
        owner' := owner[b := Place(ino, s)];
        ExtendsTrans(fs, fs1, fs', owner, owner, owner', ino);
        AlongTrans(fs, fs1, fs', ino, s, []);
      }
    }
  }

  /** The last two levels below the doubly indirect block `c`. */
  method ThroughDoubly(fs: Fs, ino: int, c: int, i: int, j: int, allocate: bool, ghost meta: set<int>,
      ghost owner: Owner)
    returns (fs': Fs, b: int, ghost owner': Owner)
    requires VolumeOk(fs, meta, owner, {}) && ino in fs.inodes && c == At(fs, ino, [13]) != 0 && 0 <= i < Fan(fs) &&
        0 <= j < Fan(fs)
    ensures Found(fs, fs', meta, owner, owner', ino, [13, i, j], b, allocate)
    ensures b == At(fs', ino, [13, i, j])
  {
    var fs1, d;
    ghost var owner1;
    assert [13] + [i] == [13, i] && [13, i] + [j] == [13, i, j];
    fs1, d, owner1 := IndirectPointer(fs, ino, [13], c, i, false, allocate, meta, owner);
    if d == 0 {
      FoundUnset(fs, fs1, meta, owner, owner1, ino, [13, i], [13, i, j], allocate);
      return fs1, 0, owner1;
    }
    fs', b, owner' := IndirectPointer(fs1, ino, [13, i], d, j, true, allocate, meta, owner1);
    FoundTrans(fs, fs1, fs', meta, owner, owner1, owner', ino, [13, i], [13, i, j], d, b, allocate);
  }

  /** Block `t` of the singly indirect range. */
  method SinglyBlock(fs: Fs, ino: int, t: int, allocate: bool, ghost meta: set<int>, ghost owner: Owner)
    returns (fs': Fs, b: int, ghost owner': Owner)
    requires VolumeOk(fs, meta, owner, {}) && ino in fs.inodes && 0 <= t < Fan(fs)
    ensures Found(fs, fs', meta, owner, owner', ino, [12, t], b, allocate)
    ensures b == At(fs', ino, [12, t])
  {
    var fs1, c;
    ghost var owner1;
    fs1, c, owner1 := RootPointer(fs, ino, 12, allocate, meta, owner);
    if c == 0 {
      FoundUnset(fs, fs1, meta, owner, owner1, ino, [12], [12, t], allocate);
      return fs1, 0, owner1;
    }
    assert [12] + [t] == [12, t];
    fs', b, owner' := IndirectPointer(fs1, ino, [12], c, t, true, allocate, meta, owner1);
    FoundTrans(fs, fs1, fs', meta, owner, owner1, owner', ino, [12], [12, t], c, b, allocate);
  }

  /** The block at pointer `j` of singly indirect block `i` of the doubly indirect range. */
  method DoublyBlock(fs: Fs, ino: int, i: int, j: int, allocate: bool, ghost meta: set<int>, ghost owner: Owner)
    returns (fs': Fs, b: int, ghost owner': Owner)
    requires VolumeOk(fs, meta, owner, {}) && ino in fs.inodes && 0 <= i < Fan(fs) && 0 <= j < Fan(fs)
    ensures Found(fs, fs', meta, owner, owner', ino, [13, i, j], b, allocate)
    ensures b == At(fs', ino, [13, i, j])
  {
    var fs1, c;
    ghost var owner1;
    fs1, c, owner1 := RootPointer(fs, ino, 13, allocate, meta, owner);
    if c == 0 {
      FoundUnset(fs, fs1, meta, owner, owner1, ino, [13], [13, i, j], allocate);
      return fs1, 0, owner1;
    }
    fs', b, owner' := ThroughDoubly(fs1, ino, c, i, j, allocate, meta, owner1);
    FoundTrans(fs, fs1, fs', meta, owner, owner1, owner', ino, [13], [13, i, j], c, b, allocate);
  }

  /** The block with index `idx` of a file. */
  method GetBlock(fs: Fs, ino: int, idx: int, allocate: bool, ghost meta: set<int>, ghost owner: Owner)
    returns (fs': Fs, b: int, ghost owner': Owner)
    requires VolumeOk(fs, meta, owner, {}) && ino in fs.inodes && 0 <= idx < Limit(Fan(fs))
    ensures Found(fs, fs', meta, owner, owner', ino, LeafSlot(Fan(fs), idx), b, allocate)
    ensures b == At(fs', ino, NthSlot(Fan(fs), idx))
  {
    var n := Fan(fs);
    if idx < 12 {
      fs', b, owner' := RootPointer(fs, ino, idx, allocate, meta, owner);
    } else if idx < 12 + n {
      fs', b, owner' := SinglyBlock(fs, ino, idx - 12, allocate, meta, owner);
    } else {
      var i, j := DoublyIndex(n, idx);
      fs', b, owner' := DoublyBlock(fs, ino, i, j, allocate, meta, owner);
    }
    LeafSlotInOrder(n, idx);
  }

  method BlockIndex(offset: int, bs: int) returns (idx: int)
    requires 0 <= offset && 0 < bs
    ensures idx == offset / bs && 0 <= idx
  {
    idx := offset / bs;
  }

  /** `get_block_for_offset` below the triply indirect range. */
  method GetBlockForOffset(fs: Fs, ino: int, offset: int, allocate: bool, ghost meta: set<int>, ghost owner: Owner)
    returns (fs': Fs, b: int, ghost owner': Owner)
    requires VolumeOk(fs, meta, owner, {}) && ino in fs.inodes && 0 <= offset
    requires allocate || offset < fs.inodes[ino].size ==> offset / fs.bs < Limit(Fan(fs))
    ensures allocate || offset < fs.inodes[ino].size ==>
              Found(fs, fs', meta, owner, owner', ino, LeafSlot(Fan(fs), offset / fs.bs), b, allocate)
    ensures allocate || offset < fs.inodes[ino].size ==> b == At(fs', ino, NthSlot(Fan(fs), offset / fs.bs))
    ensures !allocate && offset >= fs.inodes[ino].size ==> fs' == fs && owner' == owner && b == 0
  {
    if !allocate && offset >= fs.inodes[ino].size {
      return fs, 0, owner;
    }
    var idx := BlockIndex(offset, fs.bs);
    fs', b, owner' := GetBlock(fs, ino, idx, allocate, meta, owner);
  }
}
