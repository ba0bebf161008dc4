/**
 The pointer trees of all inodes. A slot is a path: [k] is the inode's own pointer k; a further index is a pointer of
 the indirect block the path has reached. `owner` names, for every block a slot points to, the one slot that does.
 */
module Ext2Tree {
  import opened Ext2Words

  const NDIR := 12

  datatype Inode = Inode(size: int, sectors: int, ptrs: seq<int>)

  type Path = seq<int>

  datatype Place = Place(ino: int, path: Path)

  type Disk = map<int, Block>

  type Inodes = map<int, Inode>

  type Owner = map<int, Place>

  function Blk(disk: Disk, b: int): Block
  {
    if b in disk then disk[b] else []
  }

  /** How many indices lead to the data blocks under inode pointer `k`. */
  function Depth(k: int): int
  {
    if k < NDIR then 1 else k - 10
  }

  /** `n` pointers fit in a block. */
  predicate IsSlot(n: int, p: Path)
  {
    1 <= |p| && 0 <= p[0] <= 14 && |p| <= Depth(p[0]) && forall i :: 1 <= i < |p| ==> 0 <= p[i] < n
  }

  predicate IsLeaf(p: Path)
  {
    |p| >= 1 && |p| == Depth(p[0])
  }

  /** The block a slot points to; 0 when it, or a pointer above it, is unset. */
  function Value(x: Inode, disk: Disk, p: Path): int
  {
    if p == [] then 0
    else if |p| == 1 then (if 0 <= p[0] < |x.ptrs| then x.ptrs[p[0]] else 0)
    else
      var v := Value(x, disk, p[..|p| - 1]);
      if v == 0 then 0 else Word(Blk(disk, v), p[|p| - 1])
  }

  function Val(inodes: Inodes, disk: Disk, ino: int, p: Path): int
  {
    if ino in inodes then Value(inodes[ino], disk, p) else 0
  }

  /** `b`'s owner is a slot that points to `b`. */
  predicate OwnerPoints(n: int, inodes: Inodes, disk: Disk, owner: Owner, b: int)
  {
    b in owner ==> b != 0 && owner[b].ino in inodes && IsSlot(n, owner[b].path) && Val(inodes, disk, owner[b].ino, owner[b].path) == b
  }

  /** A slot that points somewhere is the owner of that block. */
  predicate SlotOwns(n: int, inodes: Inodes, disk: Disk, owner: Owner, ino: int, p: Path)
  {
    ino in inodes && IsSlot(n, p) && Val(inodes, disk, ino, p) != 0 ==>
      Val(inodes, disk, ino, p) in owner && owner[Val(inodes, disk, ino, p)] == Place(ino, p)
  }

  /** Every block in use by a file is reached from exactly one slot. */
  ghost predicate Owned(n: int, inodes: Inodes, disk: Disk, owner: Owner)
  {
    && (forall b :: OwnerPoints(n, inodes, disk, owner, b))
    && (forall ino, p :: SlotOwns(n, inodes, disk, owner, ino, p))
  }

  /** No two slots, of one inode or of two, point to the same block. */
  lemma SlotsDisjoint(n: int, inodes: Inodes, disk: Disk, owner: Owner, i: int, p: Path, j: int, q: Path)
    requires Owned(n, inodes, disk, owner) && IsSlot(n, p) && IsSlot(n, q)
    requires Val(inodes, disk, i, p) == Val(inodes, disk, j, q) != 0
    ensures i == j && p == q
  {
    assert SlotOwns(n, inodes, disk, owner, i, p) && SlotOwns(n, inodes, disk, owner, j, q);
  }

  lemma PrefixIsSlot(n: int, p: Path)
    requires IsSlot(n, p) && |p| > 1
    ensures IsSlot(n, p[..|p| - 1]) && !IsLeaf(p[..|p| - 1])
  {
  }

  // ----- changes of one block

  /** Nothing reads pointers from block `c`. */
  predicate HoldsNoPointers(owner: Owner, c: int)
  {
    c in owner ==> IsLeaf(owner[c].path)
  }

  /** Rewriting a block that holds no pointers changes no slot. */
  lemma {:induction false} OtherBlockValue(n: int, inodes: Inodes, disk: Disk, owner: Owner, c: int, blk: Block,
      ino: int, p: Path)
    requires Owned(n, inodes, disk, owner) && HoldsNoPointers(owner, c) && IsSlot(n, p)
    ensures Val(inodes, disk[c := blk], ino, p) == Val(inodes, disk, ino, p)
  {
    if |p| > 1 {
      var q := p[..|p| - 1];
      PrefixIsSlot(n, p);
      OtherBlockValue(n, inodes, disk, owner, c, blk, ino, q);
      assert SlotOwns(n, inodes, disk, owner, ino, q);
    }
  }

  lemma OtherBlockOwned(n: int, inodes: Inodes, disk: Disk, owner: Owner, c: int, blk: Block)
    requires Owned(n, inodes, disk, owner) && HoldsNoPointers(owner, c)
    ensures Owned(n, inodes, disk[c := blk], owner)
  {
    var disk' := disk[c := blk];
    forall b ensures OwnerPoints(n, inodes, disk', owner, b) {
      assert OwnerPoints(n, inodes, disk, owner, b);
      if b in owner { OtherBlockValue(n, inodes, disk, owner, c, blk, owner[b].ino, owner[b].path); }
    }
    forall ino, p ensures SlotOwns(n, inodes, disk', owner, ino, p) {
      assert SlotOwns(n, inodes, disk, owner, ino, p);
      if IsSlot(n, p) { OtherBlockValue(n, inodes, disk, owner, c, blk, ino, p); }
    }
  }

  /** `q` goes through entry `i` of the block at `p`. */
  predicate Through(q: Path, p: Path, i: int)
  {
    |q| > |p| && q[..|p|] == p && q[|p|] == i
  }

  /** The disk once pointer `i` of block `c` is `b`. */
  function WithPointer(disk: Disk, c: int, i: int, b: int): Disk
  {
    if 0 <= i && 4 * i + 4 <= |Blk(disk, c)| then disk[c := PutWord(Blk(disk, c), i, b)] else disk
  }

  lemma WithPointerWord(disk: Disk, c: int, i: int, b: int, d: int, j: int)
    requires 0 <= i && 4 * i + 4 <= |Blk(disk, c)| && 0 <= b < 0x1_0000_0000
    ensures Word(Blk(WithPointer(disk, c, i, b), d), j) == if d == c && j == i then b else Word(Blk(disk, d), j)
  {
    WordAfterPut(Blk(disk, c), i, b, j);
  }

  /** Setting pointer `i` of the indirect block at `p` changes only slots through it. */
  lemma {:induction false} PointerElsewhere(n: int, inodes: Inodes, disk: Disk, owner: Owner, ino: int, p: Path,
      i: int, b: int, jno: int, q: Path)
    requires Owned(n, inodes, disk, owner) && IsSlot(n, p) && IsSlot(n, q) && Val(inodes, disk, ino, p) != 0
    requires 0 <= i && 4 * i + 4 <= |Blk(disk, Val(inodes, disk, ino, p))| && 0 <= b < 0x1_0000_0000
    requires jno != ino || !Through(q, p, i)
    ensures Val(inodes, WithPointer(disk, Val(inodes, disk, ino, p), i, b), jno, q) == Val(inodes, disk, jno, q)
  {
    if |q| > 1 {
      var q' := q[..|q| - 1];
      PrefixIsSlot(n, q);
      PointerElsewhere(n, inodes, disk, owner, ino, p, i, b, jno, q');
      var v := Val(inodes, disk, jno, q');
      WithPointerWord(disk, Val(inodes, disk, ino, p), i, b, v, q[|q| - 1]);
      if v == Val(inodes, disk, ino, p) {
        SlotsDisjoint(n, inodes, disk, owner, ino, p, jno, q');
      }
    }
  }

  /** Slots below an unset one are unset. */
  lemma {:induction false} UnsetBelow(x: Inode, disk: Disk, p: Path, q: Path)
    requires p != [] && Value(x, disk, p) == 0 && |p| <= |q| && q[..|p|] == p
    ensures Value(x, disk, q) == 0
  {
    if |q| == |p| {
      assert q == p;
    } else {
      assert q[..|q| - 1][..|p|] == p;
      UnsetBelow(x, disk, p, q[..|q| - 1]);
    }
  }

  /** Block `b` is fresh for the tree: no slot owns it, and it reads as a block of unset pointers. */
  ghost predicate Blank(owner: Owner, disk: Disk, b: int)
  {
    b !in owner && 0 < b < 0x1_0000_0000 && forall i :: Word(Blk(disk, b), i) == 0
  }

  // ----- hanging a block on an indirect block

  /** The slots after block `b` was hung on pointer `i` of the indirect block at `p`. */
  lemma HungValue(n: int, inodes: Inodes, disk: Disk, owner: Owner, ino: int, p: Path, i: int, b: int, jno: int,
      q: Path)
    requires Owned(n, inodes, disk, owner) && IsSlot(n, p + [i]) && p != [] && Val(inodes, disk, ino, p) != 0
    requires 4 * i + 4 <= |Blk(disk, Val(inodes, disk, ino, p))| && Val(inodes, disk, ino, p + [i]) == 0
    requires b !in owner && 0 < b < 0x1_0000_0000 && (IsLeaf(p + [i]) || Blank(owner, disk, b)) && IsSlot(n, q)
    ensures Val(inodes, WithPointer(disk, Val(inodes, disk, ino, p), i, b), jno, q) ==
            if jno == ino && q == p + [i] then b else Val(inodes, disk, jno, q)
  {
    var s := p + [i];
    var c := Val(inodes, disk, ino, p);
    var disk' := WithPointer(disk, c, i, b);
    assert s[..|p|] == p && s[|p|] == i;
    PrefixIsSlot(n, s);
    assert 0 <= i < n;
    if jno == ino && Through(q, p, i) {
      assert q[..|p| + 1] == s;
      PointerElsewhere(n, inodes, disk, owner, ino, p, i, b, ino, p);
      WithPointerWord(disk, c, i, b, c, i);
      assert Val(inodes, disk', ino, s) == b;
      if |q| > |s| {
        UnsetBelow(inodes[ino], disk, s, q);
        var r := q[..|s| + 1];
        assert r[..|s|] == s;
        assert c != b by { assert SlotOwns(n, inodes, disk, owner, ino, p); }
        WithPointerWord(disk, c, i, b, b, q[|s|]);
        assert Value(inodes[ino], disk', r) == 0;
        UnsetBelow(inodes[ino], disk', r, q);
      } else {
        assert q == s;
      }
    } else {
      PointerElsewhere(n, inodes, disk, owner, ino, p, i, b, jno, q);
    }
  }

  lemma HungOwned(n: int, inodes: Inodes, disk: Disk, owner: Owner, ino: int, p: Path, i: int, b: int)
    requires Owned(n, inodes, disk, owner) && IsSlot(n, p + [i]) && p != [] && Val(inodes, disk, ino, p) != 0
    requires 4 * i + 4 <= |Blk(disk, Val(inodes, disk, ino, p))| && Val(inodes, disk, ino, p + [i]) == 0
    requires b !in owner && 0 < b < 0x1_0000_0000 && (IsLeaf(p + [i]) || Blank(owner, disk, b))
    ensures Owned(n, inodes, WithPointer(disk, Val(inodes, disk, ino, p), i, b), owner[b := Place(ino, p + [i])])
  {
    var disk' := WithPointer(disk, Val(inodes, disk, ino, p), i, b);
    var owner' := owner[b := Place(ino, p + [i])];
    forall c ensures OwnerPoints(n, inodes, disk', owner', c) {
      assert OwnerPoints(n, inodes, disk, owner, c);
      if c in owner' { HungValue(n, inodes, disk, owner, ino, p, i, b, owner'[c].ino, owner'[c].path); }
    }
    forall jno, q ensures SlotOwns(n, inodes, disk', owner', jno, q) {
      assert SlotOwns(n, inodes, disk, owner, jno, q);
      if IsSlot(n, q) { HungValue(n, inodes, disk, owner, ino, p, i, b, jno, q); }
    }
  }

  // ----- hanging a block on the inode

  function WithRoot(inodes: Inodes, ino: int, k: int, b: int): Inodes
  {
    if ino in inodes && 0 <= k < |inodes[ino].ptrs| then inodes[ino := inodes[ino].(ptrs := inodes[ino].ptrs[k := b])] else inodes
  }

  lemma {:induction false} RootElsewhere(inodes: Inodes, disk: Disk, ino: int, k: int, b: int, jno: int, q: Path)
    requires q != [] && (jno != ino || q[0] != k)
    ensures Val(WithRoot(inodes, ino, k, b), disk, jno, q) == Val(inodes, disk, jno, q)
  {
    if |q| > 1 {
      RootElsewhere(inodes, disk, ino, k, b, jno, q[..|q| - 1]);
    }
  }

  lemma RootValue(n: int, inodes: Inodes, disk: Disk, owner: Owner, ino: int, k: int, b: int, jno: int, q: Path)
    requires ino in inodes && 0 <= k < |inodes[ino].ptrs| && IsSlot(n, [k]) && Val(inodes, disk, ino, [k]) == 0
    requires b !in owner && 0 < b < 0x1_0000_0000 && (IsLeaf([k]) || Blank(owner, disk, b)) && IsSlot(n, q)
    ensures Val(WithRoot(inodes, ino, k, b), disk, jno, q) == if jno == ino && q == [k] then b else Val(inodes, disk, jno, q)
  {
    var inodes' := WithRoot(inodes, ino, k, b);
    if jno == ino && q[0] == k {
      assert q[..1] == [k];
      if |q| > 1 {
        UnsetBelow(inodes[ino], disk, [k], q);
        var r := q[..2];
        assert r[..1] == [k];
        assert Value(inodes'[ino], disk, r) == 0;
        UnsetBelow(inodes'[ino], disk, r, q);
      } else {
        assert q == [k];
      }
    } else {
      RootElsewhere(inodes, disk, ino, k, b, jno, q);
    }
  }

  lemma RootOwned(n: int, inodes: Inodes, disk: Disk, owner: Owner, ino: int, k: int, b: int)
    requires Owned(n, inodes, disk, owner)
    requires ino in inodes && 0 <= k < |inodes[ino].ptrs| && IsSlot(n, [k]) && Val(inodes, disk, ino, [k]) == 0
    requires b !in owner && 0 < b < 0x1_0000_0000 && (IsLeaf([k]) || Blank(owner, disk, b))
    ensures Owned(n, WithRoot(inodes, ino, k, b), disk, owner[b := Place(ino, [k])])
  {
    var inodes', owner' := WithRoot(inodes, ino, k, b), owner[b := Place(ino, [k])];
    forall c ensures OwnerPoints(n, inodes', disk, owner', c) {
      assert OwnerPoints(n, inodes, disk, owner, c);
      if c in owner' { RootValue(n, inodes, disk, owner, ino, k, b, owner'[c].ino, owner'[c].path); }
    }
    forall jno, q ensures SlotOwns(n, inodes', disk, owner', jno, q) {
      assert SlotOwns(n, inodes, disk, owner, jno, q);
      if IsSlot(n, q) { RootValue(n, inodes, disk, owner, ino, k, b, jno, q); }
    }
  }

  // ----- dropping an inode

  /** What is left of the ownership when inode `ino` is gone from the table. */
  function WithoutInode(owner: Owner, ino: int): Owner
  {
    map b | b in owner && owner[b].ino != ino :: owner[b]
  }

  lemma DropOwned(n: int, inodes: Inodes, disk: Disk, owner: Owner, ino: int)
    requires Owned(n, inodes, disk, owner)
    ensures Owned(n, inodes - {ino}, disk, WithoutInode(owner, ino))
  {
    var inodes', owner' := inodes - {ino}, WithoutInode(owner, ino);
    forall c ensures OwnerPoints(n, inodes', disk, owner', c) {
      assert OwnerPoints(n, inodes, disk, owner, c);
    }
    forall jno, q ensures SlotOwns(n, inodes', disk, owner', jno, q) {
      assert SlotOwns(n, inodes, disk, owner, jno, q);
    }
  }

  /** Sizes and sector counts do not matter to the tree. */
  lemma {:induction false} SameTreeValue(inodes: Inodes, disk: Disk, ino: int, x: Inode, jno: int, q: Path)
    requires ino in inodes && x.ptrs == inodes[ino].ptrs
    ensures Val(inodes[ino := x], disk, jno, q) == Val(inodes, disk, jno, q)
  {
    if |q| > 1 {
      SameTreeValue(inodes, disk, ino, x, jno, q[..|q| - 1]);
    }
  }

  lemma SameTreeOwned(n: int, inodes: Inodes, disk: Disk, owner: Owner, ino: int, x: Inode)
    requires Owned(n, inodes, disk, owner) && ino in inodes && x.ptrs == inodes[ino].ptrs
    ensures Owned(n, inodes[ino := x], disk, owner)
  {
    var inodes' := inodes[ino := x];
    forall c ensures OwnerPoints(n, inodes', disk, owner, c) {
      assert OwnerPoints(n, inodes, disk, owner, c);
      if c in owner { SameTreeValue(inodes, disk, ino, x, owner[c].ino, owner[c].path); }
    }
    forall jno, q ensures SlotOwns(n, inodes', disk, owner, jno, q) {
      assert SlotOwns(n, inodes, disk, owner, jno, q);
      SameTreeValue(inodes, disk, ino, x, jno, q);
    }
  }
}
