/** Blocks of bytes, and the little-endian 32-bit block pointers they hold when they are indirect blocks. */
module Ext2Words {

  type Block = seq<int>

  predicate IsBlock(b: Block, bs: int)
  {
    |b| == bs && forall i :: 0 <= i < bs ==> 0 <= b[i] < 256
  }

  /** Pointer `i` of an indirect block. */
  function Word(b: Block, i: int): int
  {
    if 0 <= i && 4 * i + 4 <= |b|
    then b[4 * i] + 0x100 * b[4 * i + 1] + 0x1_0000 * b[4 * i + 2] + 0x100_0000 * b[4 * i + 3]
    else 0
  }

  function PutWord(b: Block, i: int, v: int): Block
    requires 0 <= i && 4 * i + 4 <= |b|
  {
    b[4 * i := v % 0x100][4 * i + 1 := v / 0x100 % 0x100][4 * i + 2 := v / 0x1_0000 % 0x100][4 * i + 3 := v / 0x100_0000 % 0x100]
  }

  lemma FourBytes(v: int)
    requires 0 <= v < 0x1_0000_0000
    ensures v % 0x100 + 0x100 * (v / 0x100 % 0x100) + 0x1_0000 * (v / 0x1_0000 % 0x100) + 0x100_0000 * (v / 0x100_0000 % 0x100) == v
  {
    var a := v / 0x100;
    var b := a / 0x100;
    assert v / 0x1_0000 == b;
    assert v / 0x100_0000 == b / 0x100;
  }

  /** A pointer written is read back, and no other pointer of the block changes. */
  lemma WordAfterPut(b: Block, i: int, v: int, j: int)
    requires 0 <= i && 4 * i + 4 <= |b| && 0 <= v < 0x1_0000_0000
    ensures Word(PutWord(b, i, v), j) == if j == i then v else Word(b, j)
  {
    FourBytes(v);
  }

  /** The bytes of a pointer, lowest first. */
  lemma LowestByteFirst(b: Block, i: int)
    requires IsBlock(b, |b|) && 0 <= i && 4 * i + 4 <= |b|
    ensures Word(b, i) % 0x100 == b[4 * i] && Word(b, i) / 0x100 % 0x100 == b[4 * i + 1]
    ensures Word(b, i) / 0x1_0000 % 0x100 == b[4 * i + 2] && Word(b, i) / 0x100_0000 == b[4 * i + 3]
  {
    var w := Word(b, i);
    assert w / 0x100 == b[4 * i + 1] + 0x100 * b[4 * i + 2] + 0x1_0000 * b[4 * i + 3];
    assert w / 0x1_0000 == b[4 * i + 2] + 0x100 * b[4 * i + 3];
  }

  lemma PutIsBlock(b: Block, bs: int, i: int, v: int)
    requires IsBlock(b, bs) && 0 <= i && 4 * i + 4 <= bs && 0 <= v
    ensures IsBlock(PutWord(b, i, v), bs)
  {
  }

  /** A cleared block. */
  function ZeroBlock(bs: int): (b: Block)
    requires 0 <= bs
    ensures IsBlock(b, bs) && forall i :: Word(b, i) == 0
  {
    seq(bs, i => 0)
  }
}
