/** The block bitmap, the free counts kept beside it, and the allocator. */
module Ext2Alloc {
  import opened Ext2Words
  import opened Ext2Tree
  import opened Sums
  import opened Division

  /**
   The mounted volume: geometry, blocks, one bitmap and free count per group, the superblock's count, and the inodes.
   */
  datatype Fs = Fs(bs: int, bpg: int, disk: Disk, used: seq<seq<bool>>, groupFree: seq<int>, sbFree: int, inodes: Inodes)

  function ClearBit(bit: bool): int { if bit then 0 else 1 }

  function ClearBits(bits: seq<bool>): int { Sum(ClearBit, bits) }

  function Id(x: int): int { x }

  /** The superblock's count is the sum of the groups' counts, and each of those is the number of clear bits. */
  predicate CountsOk(fs: Fs)
  {
    && |fs.groupFree| == |fs.used|
    && (forall g :: 0 <= g < |fs.used| ==> fs.groupFree[g] == ClearBits(fs.used[g]))
    && fs.sbFree == Sum(Id, fs.groupFree)
  }

  /** So the superblock counts the clear bits of all the bitmaps. */
  lemma FreeCountIsClearBits(fs: Fs)
    requires CountsOk(fs)
    ensures fs.sbFree == Sum(ClearBits, fs.used)
  {
    SumsAgree(fs.groupFree, fs.used);
  }

  lemma {:induction false} SumsAgree(counts: seq<int>, maps: seq<seq<bool>>)
    requires |counts| == |maps| && forall g :: 0 <= g < |maps| ==> counts[g] == ClearBits(maps[g])
    ensures Sum(Id, counts) == Sum(ClearBits, maps)
  {
    if maps != [] {
      SumsAgree(counts[1..], maps[1..]);
    }
  }

  predicate Geometry(fs: Fs)
  {
    && 2048 <= fs.bs && fs.bs % 4 == 0 && 0 < fs.bpg
    && forall g :: 0 <= g < |fs.used| ==> |fs.used[g]| == fs.bpg
  }

  // ----- block numbers

  predicate InRange(fs: Fs, b: int)
    requires 0 < fs.bpg
  {
    0 <= b && b / fs.bpg < |fs.used|
  }

  /** The bitmap bit of block `b`. */
  predicate IsUsed(fs: Fs, b: int)
    requires Geometry(fs)
  {
    InRange(fs, b) && fs.used[b / fs.bpg][b % fs.bpg]
  }

  /** The volume with block `b`'s bit set to `v` and the counts moved along. */
  function WithBit(fs: Fs, g: int, i: int, v: bool): Fs
    requires 0 <= g < |fs.used| && 0 <= i < |fs.used[g]| && g < |fs.groupFree|
  {
    var d := ClearBit(v) - ClearBit(fs.used[g][i]);
    fs.(used := fs.used[g := fs.used[g][i := v]], groupFree := fs.groupFree[g := fs.groupFree[g] + d], sbFree := fs.sbFree + d)
  }

  lemma WithBitCounts(fs: Fs, g: int, i: int, v: bool)
    requires CountsOk(fs) && 0 <= g < |fs.used| && 0 <= i < |fs.used[g]|
    ensures CountsOk(WithBit(fs, g, i, v))
  {
    SumUpdate(ClearBit, fs.used[g], i, v);
    SumUpdate(Id, fs.groupFree, g, fs.groupFree[g] + ClearBit(v) - ClearBit(fs.used[g][i]));
  }

  /** Only block `g * bpg + i` changes. */
  lemma WithBitUsed(fs: Fs, g: int, i: int, v: bool, b: int)
    requires Geometry(fs) && 0 <= g < |fs.used| && 0 <= i < fs.bpg && g < |fs.groupFree|
    ensures Geometry(WithBit(fs, g, i, v)) && (InRange(WithBit(fs, g, i, v), b) <==> InRange(fs, b))
    ensures IsUsed(WithBit(fs, g, i, v), b) <==> if b == g * fs.bpg + i then v else IsUsed(fs, b)
  {
    Quotient(fs.bpg, g, i);
    Parts(fs.bpg, b);
  }

  /** `fs'` is `fs` but for the bit of `b`, which is `v`, and for the counts. */
  ghost predicate BitSet(fs: Fs, fs': Fs, b: int, v: bool)
  {
    && fs' == fs.(used := fs'.used, groupFree := fs'.groupFree, sbFree := fs'.sbFree)
    && Geometry(fs) && Geometry(fs') && CountsOk(fs')
    && forall c :: (InRange(fs', c) <==> InRange(fs, c)) && (IsUsed(fs', c) <==> if c == b then v else IsUsed(fs, c))
  }

  lemma WithBitIsBitSet(fs: Fs, g: int, i: int, v: bool)
    requires Geometry(fs) && CountsOk(fs) && 0 <= g < |fs.used| && 0 <= i < fs.bpg
    ensures BitSet(fs, WithBit(fs, g, i, v), g * fs.bpg + i, v)
  {
    WithBitCounts(fs, g, i, v);
    WithBitUsed(fs, g, i, v, 0);
    forall c
      ensures var fs' := WithBit(fs, g, i, v);
              (InRange(fs', c) <==> InRange(fs, c)) && (IsUsed(fs', c) <==> if c == g * fs.bpg + i then v else IsUsed(fs, c))
    {
      WithBitUsed(fs, g, i, v, c);
    }
  }

  // ----- searching

  lemma {:induction false} SomePositive(s: seq<int>)
    requires Sum(Id, s) > 0
    ensures exists g :: 0 <= g < |s| && s[g] > 0
  {
    if s[0] > 0 {
    } else {
      SomePositive(s[1..]);
      var g :| 0 <= g < |s[1..]| && s[1..][g] > 0;
      assert s[g + 1] > 0;
    }
  }

  lemma {:induction false} SomeClear(bits: seq<bool>)
    requires ClearBits(bits) > 0
    ensures exists i :: 0 <= i < |bits| && !bits[i]
  {
    if !bits[0] {
    } else {
      SomeClear(bits[1..]);
      var i :| 0 <= i < |bits[1..]| && !bits[1..][i];
      assert !bits[i + 1];
    }
  }

  lemma {:induction false} NoneClear(bits: seq<bool>)
    requires ClearBits(bits) <= 0
    ensures forall i :: 0 <= i < |bits| ==> bits[i]
  {
    if bits != [] {
      SumNonNegative(ClearBit, bits[1..]);
      NoneClear(bits[1..]);
      assert bits == [bits[0]] + bits[1..];
    }
  }

  /** The first clear bit of the first group with one is the lowest free block. */
  lemma LowestFree(fs: Fs, g: int, i: int, c: int)
    requires Geometry(fs) && CountsOk(fs) && 0 <= g < |fs.used| && 0 <= i < fs.bpg
    requires (forall h :: 0 <= h < g ==> fs.groupFree[h] <= 0) && forall j :: 0 <= j < i ==> fs.used[g][j]
    requires 0 <= c < g * fs.bpg + i
    ensures IsUsed(fs, c)
  {
    var h := c / fs.bpg;
    Parts(fs.bpg, c);
    NonNegative(fs.bpg, c);
    var d := h - g;
    assert d * fs.bpg == h * fs.bpg - g * fs.bpg;
    assert d >= 1 ==> d * fs.bpg >= fs.bpg;
    if h < g {
      NoneClear(fs.used[h]);
    }
  }

  /** The first group that says it has free blocks, or the number of groups. */
  method FindGroup(groupFree: seq<int>) returns (g: int)
    ensures 0 <= g <= |groupFree|
    ensures g < |groupFree| ==> groupFree[g] > 0
    ensures forall h :: 0 <= h < g ==> groupFree[h] <= 0
  {
    g := 0;
    while g < |groupFree|
      invariant 0 <= g <= |groupFree|
      invariant forall h :: 0 <= h < g ==> groupFree[h] <= 0
    {
      if groupFree[g] > 0 {
        return;
      }
      g := g + 1;
    }
  }

  /** `search_bit(0, ..)` on a bitmap just read from its block. */
  method FindClear(bits: seq<bool>) returns (found: bool, i: int)
    ensures found ==> 0 <= i < |bits| && !bits[i] && forall j :: 0 <= j < i ==> bits[j]
    ensures !found ==> forall j :: 0 <= j < |bits| ==> bits[j]
  {
    i := 0;
    while i < |bits|
      invariant 0 <= i <= |bits|
      invariant forall j :: 0 <= j < i ==> bits[j]
    {
      if !bits[i] {
        return true, i;
      }
      i := i + 1;
    }
    found := false;
  }

  /** `alloc_block` takes the lowest free block. It fails exactly when the superblock counts no free block. */
  method AllocBlock(fs: Fs) returns (fs': Fs, b: int)
    requires Geometry(fs) && CountsOk(fs) && IsUsed(fs, 0)
    ensures b == 0 <==> fs.sbFree <= 0
    ensures b == 0 ==> fs' == fs
    ensures b != 0 ==> b > 0 && InRange(fs, b) && !IsUsed(fs, b) && BitSet(fs, fs', b, true) && fs'.sbFree == fs.sbFree - 1
    ensures b != 0 ==> forall c :: 0 <= c < b ==> IsUsed(fs, c)
  {
    fs', b := fs, 0;
    if fs.sbFree <= 0 {
      return;
    }
    SomePositive(fs.groupFree);
    var g := FindGroup(fs.groupFree);
    var found, i := FindClear(fs.used[g]);
    SomeClear(fs.used[g]);
    b := g * fs.bpg + i;
    Quotient(fs.bpg, g, i);
    WithBitIsBitSet(fs, g, i, true);
    forall c | 0 <= c < b ensures IsUsed(fs, c) {
      LowestFree(fs, g, i, c);
    }
    fs' := fs.(used := fs.used[g := fs.used[g][i := true]], groupFree := fs.groupFree[g := fs.groupFree[g] - 1], sbFree := fs.sbFree - 1);
  }

  /** `free_block`: clearing a set bit moves both counts; a clear bit is left alone. */
  method FreeBlock(fs: Fs, b: int) returns (fs': Fs)
    requires Geometry(fs) && CountsOk(fs) && InRange(fs, b)
    ensures !IsUsed(fs, b) ==> fs' == fs
    ensures IsUsed(fs, b) ==> BitSet(fs, fs', b, false) && fs'.sbFree == fs.sbFree + 1
  {
    var g, i := b / fs.bpg, b % fs.bpg;
    fs' := fs;
    if !fs.used[g][i] {
      return;
    }
    assert b == g * fs.bpg + i;
    WithBitIsBitSet(fs, g, i, false);
    fs' := fs.(used := fs.used[g := fs.used[g][i := false]], groupFree := fs.groupFree[g := fs.groupFree[g] + 1], sbFree := fs.sbFree + 1);
  }
}
