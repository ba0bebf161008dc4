/** The 32-bit size arithmetic at the end of a write. */
module Ext2Size {
  import opened Division

  function U32(x: int): int { x % 0x1_0000_0000 }

  /** `size_change`, as the unsigned arithmetic of its declaration computes it. */
  function SizeChange(size: int, offset: int, amount: int): int
  {
    var d := U64(amount - U64(size - offset));
    if d > 0 then U32(d) else 0
  }

  /** The inode's size after a write of which `done` of `amount` bytes went through. */
  function NewSize(size: int, offset: int, amount: int, done: int): int
  {
    if done <= 0 then size
    else
      var g := U64(SizeChange(size, offset, amount) - U64(amount - done));
      U32(size + (if g > 0 then U32(g) else 0))
  }

  lemma SizeChangeIs(size: int, offset: int, amount: int)
    ensures SizeChange(size, offset, amount) == U32(amount - size + offset)
  {
    WrapSub(amount, size - offset);
  }

  /** Whatever the old size, a write that moved any byte sets the size to where it stopped. */
  lemma NewSizeIs(size: int, offset: int, amount: int, done: int)
    requires 0 < done
    ensures NewSize(size, offset, amount, done) == U32(offset + done)
  {
    SizeChangeIs(size, offset, amount);
    var c := SizeChange(size, offset, amount);
    WrapSub(c, amount - done);
    Cancel(size, amount - size + offset, amount - done, c, U64(c - U64(amount - done)));
  }

  lemma Cancel(size: int, a: int, rest: int, c: int, g: int)
    requires c == U32(a) && U32(g) == U32(c - rest)
    ensures U32(size + U32(g)) == U32(size + a - rest)
  {
  }

  lemma Shift(x: int, k: int)
    ensures U32(x - k * 0x1_0000_0000) == U32(x)
  {
  }

  lemma WrapSub(c: int, d: int)
    ensures U32(U64(c - U64(d))) == U32(c - d)
  {
    var k, m := d / 0x1_0000_0000_0000_0000, (c - U64(d)) / 0x1_0000_0000_0000_0000;
    assert U64(d) == d - k * 0x1_0000_0000_0000_0000;
    assert U64(c - U64(d)) == c - d - (m - k) * 0x1_0000_0000 * 0x1_0000_0000;
    Shift(c - d, (m - k) * 0x1_0000_0000);
  }

  /** So a write keeps the file at least as long as it was exactly when it ends at or past the old end. */
  lemma WriteKeepsLengthIff(size: int, offset: int, amount: int, done: int)
    requires 0 < done && 0 <= offset && offset + done < 0x1_0000_0000
    ensures NewSize(size, offset, amount, done) == (if size > offset + done then size else offset + done) <==> offset + done >= size
  {
    NewSizeIs(size, offset, amount, done);
  }
}
