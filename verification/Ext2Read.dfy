/** `read_file`, and what a file reads as after a write. */
module Ext2Read {
  import Division
  import opened Ext2Words
  import opened Ext2Tree
  import opened Ext2Alloc
  import opened Ext2State
  import opened Ext2Slots
  import opened Ext2Content
  import opened Ext2Blocks
  import opened Ext2Io

  /** Every byte of the file is below the triply indirect range; there may be holes. */
  ghost predicate Mappable(fs: Fs, ino: int)
  {
    ino in fs.inodes && forall off :: 0 <= off < fs.inodes[ino].size ==> Reachable(fs, off)
  }

  /** What is at offset `off`: its byte, or zero in a hole. */
  function Content(fs: Fs, ino: int, off: int): int
    requires fs.bs >= 4
  {
    if Covered(fs, ino, off) then ByteAt(fs, ino, off) else 0
  }

  /** None of the bytes is in a hole. */
  ghost predicate NoHole(fs: Fs, ino: int, offset: int, amount: int)
  {
    forall off :: offset <= off < offset + amount ==> Covered(fs, ino, off)
  }

  /** What a lookup gives. */
  function Looked(fs: Fs, ino: int, off: int): int
    requires fs.bs >= 4 && ino in fs.inodes
  {
    if off < fs.inodes[ino].size then BlockOf(fs, ino, off) else 0
  }

  /** A lookup that allocates nothing: the block at `off`, or 0 in a hole and at and past the end of the file. */
  method Lookup(fs: Fs, ino: int, off: int, ghost meta: set<int>, ghost owner: Owner) returns (b: int)
    requires VolumeOk(fs, meta, owner, {}) && Mappable(fs, ino) && 0 <= off
    ensures b == Looked(fs, ino, off)
  {
    var fs';
    ghost var owner';
    assert off < fs.inodes[ino].size ==> Reachable(fs, off);
    fs', b, owner' := GetBlockForOffset(fs, ino, off, false, meta, owner);
  }

  /** `len` bytes of the block at `pos`, as the drive returns them. */
  function Piece(fs: Fs, b: int, r: int, len: int): Block
  {
    var blk := Blk(fs.disk, b);
    if 0 <= r && 0 <= len && r + len <= |blk| then blk[r..r + len] else []
  }

  /** A piece of the block at `pos` is the bytes of the file from `pos`. */
  lemma PieceHolds(fs: Fs, meta: set<int>, owner: Owner, ino: int, pos: int, len: int)
    requires VolumeOk(fs, meta, owner, {}) && Reachable(fs, pos) && Covered(fs, ino, pos) && 0 <= len &&
        pos % fs.bs + len <= fs.bs
    ensures var data := Piece(fs, BlockOf(fs, ino, pos), pos % fs.bs, len);
            |data| == len && HoldsAll(fs, ino, pos, data)
  {
    CoveredIsData(fs, meta, owner, ino, pos);
    var data := Piece(fs, BlockOf(fs, ino, pos), pos % fs.bs, len);
    forall k ensures Holds(fs, ino, pos, data, k) {
      if 0 <= k < len {
        ChunkInBlock(fs.bs, pos, len, pos + k);
        SameBlockOffsets(fs.bs, pos, pos + k);
      }
    }
  }

  /**
   Of the buffer, `upto` bytes have been dealt with and are what is in the file, and the rest is as it was; `read`
   counts them, without those in holes.
   */
  ghost predicate Gathered(fs: Fs, ino: int, offset: int, buf: Block, upto: int, read: int)
  {
    && fs.bs >= 4 && 0 <= read <= upto <= |buf|
    && (forall k :: 0 <= k < |buf| ==> buf[k] == if k < upto then Content(fs, ino, offset + k) else 0)
    && (read == upto <==> NoHole(fs, ino, offset, upto))
  }

  /** The bytes of a piece are all in the block it starts in. */
  lemma OneHole(fs: Fs, ino: int, pos: int, len: int)
    requires fs.bs >= 4 && 0 <= pos && 0 <= len && pos % fs.bs + len <= fs.bs
    ensures forall off :: pos <= off < pos + len ==> (Covered(fs, ino, off) <==> Covered(fs, ino, pos))
  {
    forall off | pos <= off < pos + len ensures Covered(fs, ino, off) <==> Covered(fs, ino, pos) {
      ChunkInBlock(fs.bs, pos, len, off);
    }
  }

  /** The next piece, if it is not in a hole, is copied into the buffer. */
  lemma GatherMore(fs: Fs, meta: set<int>, owner: Owner, ino: int, offset: int, buf: Block, upto: int, read: int,
      len: int)
    requires VolumeOk(fs, meta, owner, {}) && Gathered(fs, ino, offset, buf, upto, read) && 0 <= offset && 0 <= len
    requires upto + len <= |buf| && Reachable(fs, offset + upto) && Covered(fs, ino, offset + upto)
    requires (offset + upto) % fs.bs + len <= fs.bs
    ensures var data := Piece(fs, BlockOf(fs, ino, offset + upto), (offset + upto) % fs.bs, len);
            |data| == len && |Splice(buf, upto, data)| == |buf| &&
                Gathered(fs, ino, offset, Splice(buf, upto, data), upto + len, read + len)
  {
    var pos := offset + upto;
    PieceHolds(fs, meta, owner, ino, pos, len);
    OneHole(fs, ino, pos, len);
    var data := Piece(fs, BlockOf(fs, ino, pos), pos % fs.bs, len);
    var buf' := Splice(buf, upto, data);
    forall k | 0 <= k < |buf| ensures buf'[k] == if k < upto + len then Content(fs, ino, offset + k) else 0 {
      SpliceByte(buf, upto, data, k);
      assert Holds(fs, ino, pos, data, k - upto);
    }
    HolesAdd(fs, ino, offset, upto, len);
  }

  /** A piece in a hole is left as it is: zeros. */
  lemma SkipHole(fs: Fs, ino: int, offset: int, buf: Block, upto: int, read: int, len: int)
    requires Gathered(fs, ino, offset, buf, upto, read) && 0 <= offset && 0 < len && upto + len <= |buf|
    requires !Covered(fs, ino, offset + upto) && (offset + upto) % fs.bs + len <= fs.bs
    ensures Gathered(fs, ino, offset, buf, upto + len, read)
  {
    OneHole(fs, ino, offset + upto, len);
    assert offset + upto < offset + (upto + len);
  }

  lemma HolesAdd(fs: Fs, ino: int, offset: int, upto: int, len: int)
    requires fs.bs >= 4 && 0 <= upto && 0 <= len && NoHole(fs, ino, offset + upto, len)
    ensures NoHole(fs, ino, offset, upto) <==> NoHole(fs, ino, offset, upto + len)
  {
  }

  lemma Signs(bs: int, d: int)
    requires bs > 0
    ensures d <= 0 ==> d * bs <= 0
    ensures d >= 1 ==> d * bs >= bs
  {
  }

  lemma MulLess(bs: int, q: int, e: int)
    requires bs > 0 && q * bs < e * bs
    ensures q + 1 <= e && q * bs + bs <= e * bs
  {
    Signs(bs, e - q);
    assert (e - q) * bs == e * bs - q * bs;
  }

  /** A block boundary strictly before another is at least a block before it. */
  lemma NextBoundary(bs: int, a: int, b: int)
    requires bs > 0 && a % bs == 0 && b % bs == 0 && 0 <= a < b
    ensures a + bs <= b && (a + bs) % bs == 0 && a / bs != b / bs
  {
    var q, e := a / bs, b / bs;
    assert a == q * bs && b == e * bs;
    MulLess(bs, q, e);
    assert a + bs == (q + 1) * bs + 0;
    Division.Quotient(bs, q + 1, 0);
  }

  // ----- where the pieces of a read begin and end

  lemma StartBoundary(bs: int, offset: int)
    requires bs > 0 && 0 <= offset
    ensures (offset + (bs - offset % bs)) % bs == 0 && offset % bs < bs
  {
    var q := offset / bs;
    assert offset == q * bs + offset % bs;
    assert offset + (bs - offset % bs) == (q + 1) * bs + 0;
    Division.Quotient(bs, q + 1, 0);
  }

  lemma EndBoundary(bs: int, end: int)
    requires bs > 0 && 0 <= end
    ensures (end - end % bs) % bs == 0 && 0 <= end - end % bs && (end - end % bs) / bs == end / bs
  {
    var e := end / bs;
    assert end == e * bs + end % bs;
    assert end - end % bs == e * bs + 0;
    Division.Quotient(bs, e, 0);
  }

  /** A boundary before `end` is no later than the last boundary before `end`. */
  lemma BoundaryBefore(bs: int, start: int, end: int)
    requires bs > 0 && 0 <= start < end && start % bs == 0
    ensures start <= end - end % bs
  {
    EndBoundary(bs, end);
    var last := end - end % bs;
    if last < start {
      NextBoundary(bs, last, start);
    }
  }

  /** A read that stays inside a block, or ends exactly with it. */
  lemma OneBlock(bs: int, offset: int, amount: int)
    requires bs > 0 && 0 <= offset && 0 <= amount && amount + offset % bs <= bs
    ensures amount + offset % bs < bs ==> (offset + amount) / bs == offset / bs
    ensures amount + offset % bs == bs ==> (offset + amount) % bs == 0
  {
    var q, r := offset / bs, offset % bs;
    assert offset == q * bs + r;
    if amount + r < bs {
      Division.Quotient(bs, q, amount + r);
    } else {
      StartBoundary(bs, offset);
    }
  }

  /** One turn of the loop over complete blocks. */
  method ReadBlock(fs: Fs, ino: int, offset: int, buf0: Block, read0: int, cur: int, block: int,
      ghost meta: set<int>, ghost owner: Owner)
    returns (buf: Block, read: int)
    requires VolumeOk(fs, meta, owner, {}) && Mappable(fs, ino) && 0 <= offset <= cur && cur % fs.bs == 0
    requires cur + fs.bs <= offset + |buf0| <= fs.inodes[ino].size && block == BlockOf(fs, ino, cur)
    requires Gathered(fs, ino, offset, buf0, cur - offset, read0)
    ensures |buf| == |buf0| && Gathered(fs, ino, offset, buf, cur + fs.bs - offset, read)
  {
    buf, read := buf0, read0;
    assert Reachable(fs, cur);
    if block != 0 {
      GatherMore(fs, meta, owner, ino, offset, buf, cur - offset, read, fs.bs);
      buf := Splice(buf, cur - offset, Piece(fs, block, 0, fs.bs));
      read := read + fs.bs;
    } else {
      SkipHole(fs, ino, offset, buf, cur - offset, read, fs.bs);
    }
  }

  /**
   The loop over complete blocks. It compares block numbers: it stops at the last boundary, or at a hole before it when
   what is looked up there is 0 too.
   */
  method ReadMiddle(fs: Fs, ino: int, offset: int, buf0: Block, read0: int, start: int, last: int, lastStart: int,
      polls: int, ghost meta: set<int>, ghost owner: Owner)
    returns (buf: Block, cur: int, turns: int, read: int)
    requires VolumeOk(fs, meta, owner, {}) && Mappable(fs, ino) && 0 <= offset < start <= lastStart && 0 <= polls
    requires start % fs.bs == 0 && lastStart % fs.bs == 0 && lastStart <= offset + |buf0| <= fs.inodes[ino].size
    requires last == Looked(fs, ino, lastStart) && Gathered(fs, ino, offset, buf0, start - offset, read0)
    ensures |buf| == |buf0| && start <= cur <= lastStart && Gathered(fs, ino, offset, buf, cur - offset, read)
    ensures 0 <= turns && turns + cur >= polls + start
    ensures turns > 0 && cur != lastStart ==> last == 0 && !Covered(fs, ino, cur)
  {
    buf, cur, turns, read := buf0, start, polls, read0;
    var block := Lookup(fs, ino, cur, meta, owner);
    while block != last && turns > 0
      invariant |buf| == |buf0| && start <= cur <= lastStart && cur % fs.bs == 0
      invariant Gathered(fs, ino, offset, buf, cur - offset, read)
      invariant 0 <= turns && turns + cur >= polls + start && block == Looked(fs, ino, cur)
      decreases lastStart - cur
    {
      assert cur < lastStart;
      NextBoundary(fs.bs, cur, lastStart);
      buf, read := ReadBlock(fs, ino, offset, buf, read, cur, block, meta, owner);
      cur, turns := cur + fs.bs, turns - 1;
      block := Lookup(fs, ino, cur, meta, owner);
    }
    if cur < lastStart && block == last {
      LastBlockDiffers(fs, meta, owner, ino, cur, lastStart);
    }
  }

  /** No complete block before the last boundary, unless it is a hole, is the block looked up there. */
  lemma LastBlockDiffers(fs: Fs, meta: set<int>, owner: Owner, ino: int, cur: int, lastStart: int)
    requires VolumeOk(fs, meta, owner, {}) && Mappable(fs, ino) && 0 <= cur < lastStart <= fs.inodes[ino].size
    requires cur % fs.bs == 0 && lastStart % fs.bs == 0
    ensures Covered(fs, ino, cur) ==> BlockOf(fs, ino, cur) != Looked(fs, ino, lastStart)
  {
    NextBoundary(fs.bs, cur, lastStart);
    assert Reachable(fs, cur);
    if lastStart < fs.inodes[ino].size && Covered(fs, ino, cur) {
      assert Reachable(fs, lastStart);
      DistinctBlocks(fs, meta, owner, ino, cur, ino, lastStart);
    }
  }

  /** The first block, or the part of it that is wanted. */
  method ReadFirst(fs: Fs, ino: int, offset: int, amount: int, first: int, len: int, ghost meta: set<int>,
      ghost owner: Owner) returns (buf: Block, read: int)
    requires VolumeOk(fs, meta, owner, {}) && Mappable(fs, ino) && 0 <= offset && offset + amount <= fs.inodes[ino].size
    requires 0 <= len <= amount && offset % fs.bs + len <= fs.bs && first == Looked(fs, ino, offset)
    requires len == 0 ==> amount == 0
    ensures |buf| == amount && Gathered(fs, ino, offset, buf, len, read)
  {
    buf, read := ZeroBlock(amount), 0;
    if len == 0 {
      return;
    }
    assert Reachable(fs, offset);
    if first != 0 {
      GatherMore(fs, meta, owner, ino, offset, buf, 0, 0, len);
      buf := Splice(buf, 0, Piece(fs, first, offset % fs.bs, len));
      read := len;
    } else {
      SkipHole(fs, ino, offset, buf, 0, 0, len);
    }
  }

  /** A read that crosses a block boundary does not end in the block it starts in. */
  lemma FirstDiffers(fs: Fs, meta: set<int>, owner: Owner, ino: int, offset: int, start: int, lastStart: int)
    requires VolumeOk(fs, meta, owner, {}) && Mappable(fs, ino) &&
        0 <= offset < start <= lastStart <= fs.inodes[ino].size
    requires start == offset + (fs.bs - offset % fs.bs) && lastStart % fs.bs == 0
    ensures Looked(fs, ino, offset) == 0 || Looked(fs, ino, offset) != Looked(fs, ino, lastStart)
  {
    assert Reachable(fs, offset);
    EndBoundary(fs.bs, offset);
    NextBoundary(fs.bs, offset - offset % fs.bs, lastStart);
    if lastStart < fs.inodes[ino].size && Covered(fs, ino, offset) {
      assert Reachable(fs, lastStart);
      DistinctBlocks(fs, meta, owner, ino, offset, ino, lastStart);
    }
  }

  /**
   What a read inside one block fetches from the block its end is in: nothing more, unless nothing is wanted at the end
   of the file.
   */
  lemma OneBlockLookups(fs: Fs, meta: set<int>, owner: Owner, ino: int, offset: int, amount: int)
    requires VolumeOk(fs, meta, owner, {}) && Mappable(fs, ino)
    requires 0 <= offset && 0 <= amount && offset + amount <= fs.inodes[ino].size && amount + offset % fs.bs <= fs.bs
    ensures var end := offset + amount;
            var first, last := Looked(fs, ino, offset), Looked(fs, ino, end - end % fs.bs);
            (if last != first && last != 0 then end % fs.bs else 0) == Stray(fs, ino, offset, amount)
  {
    OneBlock(fs.bs, offset, amount);
    EndBoundary(fs.bs, offset + amount);
  }

  /** How many bytes are reported when none are wanted: the tail of the last block, at an end of file inside it. */
  function Stray(fs: Fs, ino: int, offset: int, amount: int): int
    requires fs.bs >= 4 && ino in fs.inodes
  {
    if amount == 0 && offset == fs.inodes[ino].size && Looked(fs, ino, offset - offset % fs.bs) != 0 then offset % fs.bs else 0
  }

  /** A read over more than one block; the last boundary before its end is `lastStart`, `tail` bytes before the end. */
  method ReadAcross(fs: Fs, ino: int, offset: int, amount: int, start: int, lastStart: int, tail: int, first: int,
      last: int, polls: nat, ghost meta: set<int>, ghost owner: Owner)
    returns (buf: Block)
    requires VolumeOk(fs, meta, owner, {}) && Mappable(fs, ino) && 0 <= offset && offset + amount <= fs.inodes[ino].size
    requires start == offset + (fs.bs - offset % fs.bs) && offset < start <= lastStart &&
        lastStart + tail == offset + amount && 0 <= tail < fs.bs
    requires start % fs.bs == 0 && lastStart % fs.bs == 0
    requires first == Looked(fs, ino, offset) && last == Looked(fs, ino, lastStart)
    ensures ReadAs(fs, ino, offset, amount, buf)
    ensures polls > amount ==> (|buf| == amount <==> NoHole(fs, ino, offset, amount))
  {
    var read;
    buf, read := ReadFirst(fs, ino, offset, amount, first, start - offset, meta, owner);
    FirstDiffers(fs, meta, owner, ino, offset, start, lastStart);
    var cur, turns;
    buf, cur, turns, read := ReadMiddle(fs, ino, offset, buf, read, start, last, lastStart, polls, meta, owner);
    ghost var upto;
    buf, read, upto := ReadLast(fs, ino, offset, buf, read, cur, lastStart, first, last, turns, meta, owner);
    GatheredIsRead(fs, ino, offset, buf, upto, read);
    buf := buf[..read];
  }

  /** The part of the last block that is wanted. If the read then stops short, it was interrupted or met a hole. */
  method ReadLast(fs: Fs, ino: int, offset: int, buf0: Block, read0: int, cur: int, lastStart: int, first: int,
      last: int, turns: int,
      ghost meta: set<int>, ghost owner: Owner)
    returns (buf: Block, read: int, ghost upto: int)
    requires VolumeOk(fs, meta, owner, {}) && Mappable(fs, ino) && 0 <= offset <= cur <= lastStart &&
        lastStart % fs.bs == 0
    requires lastStart <= offset + |buf0| < lastStart + fs.bs && offset + |buf0| <= fs.inodes[ino].size
    requires first == Looked(fs, ino, offset) && last == Looked(fs, ino, lastStart) && (first == 0 || first != last)
    requires turns > 0 && cur != lastStart ==> last == 0 && !Covered(fs, ino, cur)
    requires Gathered(fs, ino, offset, buf0, cur - offset, read0)
    ensures |buf| == |buf0| && Gathered(fs, ino, offset, buf, upto, read)
    ensures turns > 0 && upto != |buf| ==> !NoHole(fs, ino, offset, |buf|)
  {
    buf, read, upto := buf0, read0, cur - offset;
    var amount := |buf0|;
    var tail := offset + amount - lastStart;
    if last != first && turns > 0 && last != 0 {
      assert Reachable(fs, lastStart);
      GatherMore(fs, meta, owner, ino, offset, buf, cur - offset, read, tail);
      buf := Splice(buf, amount - tail, Piece(fs, last, 0, tail));
      read, upto := read + tail, amount;
    } else if turns > 0 && upto != amount {
      ShortOfHole(fs, ino, offset, amount, cur, lastStart, first, last);
    }
  }

  /** A read that stops short met a hole. */
  lemma ShortOfHole(fs: Fs, ino: int, offset: int, amount: int, cur: int, lastStart: int, first: int, last: int)
    requires fs.bs >= 4 && ino in fs.inodes && 0 <= offset <= cur <= lastStart <= offset + amount <= fs.inodes[ino].size
    requires cur < offset + amount && last == Looked(fs, ino, lastStart) && first == Looked(fs, ino, offset)
    requires (last == 0 || last == first) && (first == 0 || first != last) && (cur != lastStart ==>
        !Covered(fs, ino, cur))
    ensures !NoHole(fs, ino, offset, amount)
  {
    assert last == 0;
    assert !Covered(fs, ino, cur);
  }

  /** The bytes read are what is in the file. */
  ghost predicate ReadAs(fs: Fs, ino: int, offset: int, amount: int, buf: Block)
  {
    && fs.bs >= 4 && |buf| <= amount
    && (forall k :: 0 <= k < |buf| ==> buf[k] == Content(fs, ino, offset + k))
  }

  lemma GatheredIsRead(fs: Fs, ino: int, offset: int, buf: Block, upto: int, read: int)
    requires Gathered(fs, ino, offset, buf, upto, read)
    ensures ReadAs(fs, ino, offset, |buf|, buf[..read])
    ensures read == |buf| <==> upto == |buf| && NoHole(fs, ino, offset, |buf|)
  {
  }

  /**
   `read_file`: what is in the file, holes as zeros, but bytes in holes are not counted, so that as many bytes are missing
   at the end; all that was asked for comes exactly when none of it is in a hole. `stray` counts bytes reported beyond
   those asked for: asked for none at an end of file that is not a block boundary, the code still fetches the tail of the
   last block.
   */
  method ReadFile(fs: Fs, ino: int, offset: int, amount: int, polls: nat, ghost meta: set<int>,
      ghost owner: Owner) returns (buf: Block, stray: int)
    requires VolumeOk(fs, meta, owner, {}) && Mappable(fs, ino) && 0 <= offset && 0 <= amount &&
        offset + amount <= fs.inodes[ino].size
    ensures ReadAs(fs, ino, offset, amount, buf)
    ensures polls > amount ==> (|buf| == amount <==> NoHole(fs, ino, offset, amount))
    ensures stray == if polls > 0 then Stray(fs, ino, offset, amount) else 0
  {
    var bs, end := fs.bs, offset + amount;
    var start, lastStart := offset + (bs - offset % bs), end - end % bs;
    StartBoundary(bs, offset);
    EndBoundary(bs, end);
    var first := Lookup(fs, ino, offset, meta, owner);
    var last := Lookup(fs, ino, lastStart, meta, owner);
    stray := 0;
    if amount + offset % bs > bs {
      BoundaryBefore(bs, start, end);
      buf := ReadAcross(fs, ino, offset, amount, start, lastStart, end % bs, first, last, polls, meta, owner);
    } else {
      var read;
      buf, read := ReadFirst(fs, ino, offset, amount, first, amount, meta, owner);
      OneBlockLookups(fs, meta, owner, ino, offset, amount);
      GatheredIsRead(fs, ino, offset, buf, amount, read);
      buf := buf[..read];
      if last != first && polls > 0 && last != 0 {
        stray := end % bs;
      }
    }
  }
}
