/** The triply indirect branch of `get_block_for_offset`: where it keeps the pointers of different blocks. */
module Ext2Triple {
  import opened Ext2Words
  import Division

  /** The byte offsets of the pointers that lead to a block, in the triply, the doubly and the singly indirect block. */
  datatype Cells = Cells(top: int, mid: int, leaf: int)

  /** For block `t` of the range, with `n` pointers to a block. The first index is used as a byte offset as it is. */
  function CellsOf(n: int, t: int): Cells
    requires n > 0
  {
    Cells(t / (n * n), 4 * (t / (n * n)), 4 * (t % n))
  }

  /** Two four-byte pointers share a byte. */
  predicate Overlap(a: int, b: int)
  {
    a < b + 4 && b < a + 4
  }

  /**
   The pointers of two blocks do not disturb each other: on the way down they are the same while the way is the same,
   then they share no byte, and they part before the end.
   */
  predicate Independent(c: Cells, d: Cells)
  {
    || !Overlap(c.top, d.top)
    || (c.top == d.top && (!Overlap(c.mid, d.mid) || (c.mid == d.mid && !Overlap(c.leaf, d.leaf))))
  }

  lemma RemainderOfSum(n: int, k: int, r: int, m: int)
    requires 0 < n && 0 <= k && 0 <= r < n && 0 <= m < n
    ensures (k * n + (r + m)) % n == if r + m < n then r + m else r + m - n
  {
    if r + m < n {
      Division.Quotient(n, k, r + m);
    } else {
      assert k * n + (r + m) == (k + 1) * n + (r + m - n);
      Division.Quotient(n, k + 1, r + m - n);
    }
  }

  lemma SumRemainder(n: int, t: int, d: int, q: int, r: int, e: int, m: int)
    requires 0 < n && 0 <= q && 0 <= e && 0 <= r < n && 0 <= m < n && t == q * n + r && d == e * n + m
    ensures (t + d) % n == if r + m < n then r + m else r + m - n
  {
    assert t + d == (q + e) * n + (r + m);
    RemainderOfSum(n, q + e, r, m);
  }

  lemma RemainderAdds(n: int, t: int, d: int)
    requires 0 < n && 0 <= t && 0 <= d
    ensures (t + d) % n == if t % n + d % n < n then t % n + d % n else t % n + d % n - n
  {
    Division.Parts(n, t);
    Division.Parts(n, d);
    Division.NonNegative(n, t);
    Division.NonNegative(n, d);
    SumRemainder(n, t, d, t / n, t % n, d / n, d % n);
  }

  lemma SameRemainder(n: int, t: int, u: int)
    requires 0 < n && 0 <= t <= u
    ensures t % n == u % n <==> (u - t) % n == 0
  {
    RemainderAdds(n, t, u - t);
    assert t + (u - t) == u;
  }

  /** The quotient does not go down. */
  lemma QuotientGrows(m: int, t: int, u: int)
    requires 0 < m && t <= u
    ensures t / m <= u / m
  {
    Division.Parts(m, t);
    Division.Parts(m, u);
    var d := u / m - t / m;
    assert d * m == (u - u % m) - (t - t % m);
    assert d <= -1 ==> d * m <= -m;
  }

  /**
   Exactly which pairs of blocks are kept apart: those whose stretches of `n * n` blocks are at least four apart, and
   those of one stretch that are not a multiple of `n` apart.
   */
  lemma IndependentIff(n: int, t: int, u: int)
    requires 0 < n && 0 <= t <= u
    ensures Independent(CellsOf(n, t), CellsOf(n, u)) <==>
              || u / (n * n) - t / (n * n) >= 4
              || (u / (n * n) == t / (n * n) && (u - t) % n != 0)
  {
    SameRemainder(n, t, u);
    QuotientGrows(n * n, t, u);
  }

  /** Blocks 0 and `n` of the range have one pointer; those of 0 and `n * n` overlap. */
  lemma FirstClashes(n: int)
    requires n > 1
    ensures CellsOf(n, 0) == CellsOf(n, n)
    ensures CellsOf(n, 0).top != CellsOf(n, n * n).top && Overlap(CellsOf(n, 0).top, CellsOf(n, n * n).top)
  {
    assert n < n * n;
    assert 0 / (n * n) == 0 && n / (n * n) == 0;
    SameRemainder(n, 0, n);
    Division.Quotient(n, 1, 0);
    Division.Quotient(n * n, 1, 0);
  }

  // ----- what overlapping pointers do to each other

  function PointerAt(b: Block, a: int): int
    requires 0 <= a && a + 4 <= |b|
  {
    b[a] + 0x100 * b[a + 1] + 0x1_0000 * b[a + 2] + 0x100_0000 * b[a + 3]
  }

  function PutPointer(b: Block, a: int, v: int): Block
    requires 0 <= a && a + 4 <= |b|
  {
    b[a := v % 0x100][a + 1 := v / 0x100 % 0x100][a + 2 := v / 0x1_0000 % 0x100][a + 3 := v / 0x100_0000 % 0x100]
  }

  /** A pointer shifted by `d` bytes. */
  function Shifted(v: int, d: int): int
  {
    if d == 1 then v / 0x100 else if d == 2 then v / 0x1_0000 else v / 0x100_0000
  }

  lemma ShiftedBytes(v: int)
    requires 0 <= v < 0x1_0000_0000
    ensures v / 0x100 == v / 0x100 % 0x100 + 0x100 * (v / 0x1_0000 % 0x100) + 0x1_0000 * (v / 0x100_0000 % 0x100)
    ensures v / 0x1_0000 == v / 0x1_0000 % 0x100 + 0x100 * (v / 0x100_0000 % 0x100)
    ensures v / 0x100_0000 == v / 0x100_0000 % 0x100
  {
    var a := v / 0x100;
    var b := a / 0x100;
    assert v / 0x1_0000 == b;
    assert v / 0x100_0000 == b / 0x100;
  }

  /**
   In a cleared triply indirect block, hanging a doubly indirect block `v` for one stretch makes the pointer of each of
   the next three read as `v` shifted: they seem to be there already, unless `v` is small.
   */
  lemma NextStretchesSeeIt(n: int, t: int, u: int, bs: int, v: int)
    requires 0 < n && 0 <= t && 0 <= v < 0x1_0000_0000
    requires 1 <= u / (n * n) - t / (n * n) <= 3 && 0 <= t / (n * n) && u / (n * n) + 4 <= bs
    ensures PointerAt(PutPointer(ZeroBlock(bs), CellsOf(n, t).top, v), CellsOf(n, u).top) == Shifted(v, u / (n * n) - t / (n * n))
  {
    ShiftedBytes(v);
    var a := t / (n * n);
    var z := ZeroBlock(bs);
    var b := PutPointer(z, a, v);
    assert b[a + 1] == v / 0x100 % 0x100 && b[a + 2] == v / 0x1_0000 % 0x100 && b[a + 3] == v / 0x100_0000 % 0x100;
    forall i | a + 4 <= i < bs ensures b[i] == 0 {
      assert b[i] == z[i];
    }
  }
}
