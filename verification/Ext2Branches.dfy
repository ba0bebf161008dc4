/** The blocks behind each slot of an inode, and what is left as they are freed one slot after another. */
module Ext2Branches {
  import opened Ext2Words
  import opened Ext2Tree
  import opened Ext2Alloc
  import opened Ext2State

  /** The blocks of `ino` at slot `q` and below. */
  function Branch(owner: Owner, ino: int, q: Path): set<int>
  {
    set b | b in owner && owner[b].ino == ino && q <= owner[b].path
  }

  /** The blocks of `ino` below `p`, through the first `i` pointers there. */
  function Before(owner: Owner, ino: int, p: Path, i: int): set<int>
  {
    set b | b in owner && owner[b].ino == ino && p < owner[b].path && owner[b].path[|p|] < i
  }

  lemma BeforeNext(owner: Owner, ino: int, p: Path, i: int)
    ensures Before(owner, ino, p, i + 1) == Before(owner, ino, p, i) + Branch(owner, ino, p + [i])
    ensures Before(owner, ino, p, i) !! Branch(owner, ino, p + [i])
    ensures |Before(owner, ino, p, i + 1)| == |Before(owner, ino, p, i)| + |Branch(owner, ino, p + [i])|
  {
  }

  /** No pointer has a negative index. */
  lemma BeforeStarts(n: int, inodes: Inodes, disk: Disk, owner: Owner, ino: int, p: Path)
    requires Owned(n, inodes, disk, owner)
    ensures Before(owner, ino, p, 0) == {}
  {
    forall b | b in owner && p < owner[b].path ensures owner[b].path[|p|] >= 0 {
      assert OwnerPoints(n, inodes, disk, owner, b);
    }
  }

  /** An unset slot has nothing at it or below. */
  lemma UnsetBranch(n: int, inodes: Inodes, disk: Disk, owner: Owner, ino: int, q: Path)
    requires Owned(n, inodes, disk, owner) && q != [] && Val(inodes, disk, ino, q) == 0
    ensures Branch(owner, ino, q) == {}
  {
    forall b | b in Branch(owner, ino, q) ensures false {
      assert OwnerPoints(n, inodes, disk, owner, b);
      UnsetBelow(inodes[ino], disk, q, owner[b].path);
    }
  }

  /** A set slot has its own block and what is below it. */
  lemma SetBranch(n: int, inodes: Inodes, disk: Disk, owner: Owner, ino: int, q: Path)
    requires Owned(n, inodes, disk, owner) && IsSlot(n, q) && Val(inodes, disk, ino, q) != 0
    ensures var v := Val(inodes, disk, ino, q);
            && Branch(owner, ino, q) == Before(owner, ino, q, n) + {v} && v !in Before(owner, ino, q, n)
            && |Branch(owner, ino, q)| == |Before(owner, ino, q, n)| + 1
            && (IsLeaf(q) ==> Before(owner, ino, q, n) == {})
  {
    var v := Val(inodes, disk, ino, q);
    assert SlotOwns(n, inodes, disk, owner, ino, q);
    forall b | b in Branch(owner, ino, q) && b != v ensures b in Before(owner, ino, q, n) {
      assert OwnerPoints(n, inodes, disk, owner, b) && OwnerPoints(n, inodes, disk, owner, v);
      assert owner[b].path != q;
    }
    forall b | b in Before(owner, ino, q, n) ensures !IsLeaf(q) {
      assert OwnerPoints(n, inodes, disk, owner, b);
    }
  }

  /** What freeing the blocks in `gone` leaves. */
  ghost predicate Returned(fs: Fs, fs': Fs, meta: set<int>, owner: Owner, pending: set<int>, gone: set<int>)
  {
    VolumeOk(fs', meta, owner, pending - gone) && SameFiles(fs, fs') && fs'.sbFree == fs.sbFree + |gone|
  }

  /** Freeing what is behind one more pointer. */
  lemma ReturnedMore(fs: Fs, fs1: Fs, fs2: Fs, meta: set<int>, owner: Owner, pending: set<int>, owner0: Owner,
      ino: int, p: Path, i: int)
    requires Returned(fs, fs1, meta, owner, pending, Before(owner0, ino, p, i))
    requires Returned(fs1, fs2, meta, owner, pending - Before(owner0, ino, p, i), Branch(owner0, ino, p + [i]))
    ensures Returned(fs, fs2, meta, owner, pending, Before(owner0, ino, p, i + 1))
  {
    BeforeNext(owner0, ino, p, i);
    assert pending - Before(owner0, ino, p, i) - Branch(owner0, ino, p + [i]) == pending - Before(owner0, ino, p, i + 1);
  }

  lemma ReturnedNothing(fs: Fs, meta: set<int>, owner: Owner, pending: set<int>)
    requires VolumeOk(fs, meta, owner, pending)
    ensures Returned(fs, fs, meta, owner, pending, {})
  {
    assert pending - {} == pending;
  }

  /** Pointer `i` of the indirect block at `p`, and that nothing behind it has been freed yet. */
  lemma ChildSlot(n: int, inodes: Inodes, disk: Disk, owner: Owner, ino: int, p: Path, i: int,
      pending: set<int>) returns (q: Path)
    requires Owned(n, inodes, disk, owner) && IsSlot(n, p) && !IsLeaf(p) && Val(inodes, disk, ino, p) != 0 && 0 <= i < n
    requires Branch(owner, ino, p) <= pending
    ensures q == p + [i] && IsSlot(n, q) && |q| == |p| + 1 && q[0] == p[0]
    ensures Val(inodes, disk, ino, q) == Word(Blk(disk, Val(inodes, disk, ino, p)), i)
    ensures Branch(owner, ino, q) <= pending - Before(owner, ino, p, i)
  {
    q := p + [i];
    assert q[..|p|] == p && q[|p|] == i;
    BeforeNext(owner, ino, p, i);
    SubBranch(owner, ino, p, i);
  }

  lemma SubBranch(owner: Owner, ino: int, p: Path, i: int)
    ensures Branch(owner, ino, p + [i]) <= Branch(owner, ino, p)
  {
  }
}
