/** Which slot holds the pointer to a given block of a file. */
module Ext2Slots {
  import opened Division
  import opened Ext2Tree

  /** Blocks reachable without the triply indirect pointer. */
  function Limit(n: int): int { 12 + n + n * n }

  function LeafSlot(n: int, idx: int): Path
    requires n > 0
  {
    if idx < 12 then [idx]
    else if idx < 12 + n then [12, idx - 12]
    else [13, (idx - 12 - n) / n, (idx - 12 - n) % n]
  }

  lemma QuotientBound(n: int, t: int)
    requires 0 < n && 0 <= t < n * n
    ensures 0 <= t / n < n
  {
  }

  lemma LeafSlotIsLeaf(n: int, idx: int)
    requires 0 < n && 0 <= idx < Limit(n)
    ensures IsSlot(n, LeafSlot(n, idx)) && IsLeaf(LeafSlot(n, idx))
  {
    if idx >= 12 + n {
      QuotientBound(n, idx - 12 - n);
    }
  }

  /** Distinct block indices have distinct slots. */
  lemma LeafSlotInjective(n: int, i: int, j: int)
    requires 0 < n && 0 <= i < Limit(n) && 0 <= j < Limit(n) && LeafSlot(n, i) == LeafSlot(n, j)
    ensures i == j
  {
  }

  // ----- the order of a file's blocks

  /** The lexicographic order of paths, which is the order in which a walk of the pointers meets them. */
  predicate Precedes(p: Path, q: Path)
  {
    q != [] && (p == [] || p[0] < q[0] || (p[0] == q[0] && Precedes(p[1..], q[1..])))
  }

  lemma QuotientSteps(n: int, t: int, u: int)
    requires 0 < n && 0 <= t < u
    ensures t / n < u / n || (t / n == u / n && t % n < u % n)
  {
    Parts(n, t);
    Parts(n, u);
    var d := t / n - u / n;
    assert d * n == (t / n) * n - (u / n) * n;
    assert d >= 1 ==> d * n >= n;
  }

  /** Slots follow the order of the file. */
  lemma LeafSlotAscends(n: int, i: int, j: int)
    requires 0 < n && 0 <= i < j < Limit(n)
    ensures Precedes(LeafSlot(n, i), LeafSlot(n, j))
  {
    var p, q := LeafSlot(n, i), LeafSlot(n, j);
    if i >= 12 + n {
      QuotientSteps(n, i - 12 - n, j - 12 - n);
      assert p[1..] == [p[1], p[2]] && q[1..] == [q[1], q[2]] && p[1..][1..] == [p[2]] && q[1..][1..] == [q[2]];
      assert Precedes([p[2]], [q[2]]) <==> p[2] < q[2];
      assert Precedes(p[1..], q[1..]);
    } else if i >= 12 && j < 12 + n {
      assert p[1..] == [p[1]] && q[1..] == [q[1]];
    }
  }

  lemma Combined(n: int, i: int, j: int)
    requires 0 <= i < n && 0 <= j < n
    ensures 0 <= i * n + j < n * n
  {
    var d := n - 1 - i;
    assert n * n == d * n + (1 + i) * n == d * n + n + i * n;
    assert d * n >= 0 && i * n >= 0;
  }

  /** Every leaf slot under pointers 0 to 13 is the slot of a block index. */
  lemma LeafSlotOnto(n: int, p: Path) returns (idx: int)
    requires 0 < n && IsSlot(n, p) && IsLeaf(p) && p[0] <= 13
    ensures 0 <= idx < Limit(n) && LeafSlot(n, idx) == p
  {
    if p[0] < 12 {
      idx := p[0];
    } else if p[0] == 12 {
      idx := 12 + p[1];
    } else {
      Combined(n, p[1], p[2]);
      Quotient(n, p[1], p[2]);
      idx := 12 + n + (p[1] * n + p[2]);
    }
  }

  /** The leaves below `p`, `d` levels down, as a walk of the pointers meets them. */
  function Below(n: int, p: Path, d: nat): seq<Path>
    decreases d, 1, 0
  {
    if d == 0 then [p] else BelowFrom(n, p, d, 0)
  }

  /** The same from pointer `i` on. */
  function BelowFrom(n: int, p: Path, d: nat, i: nat): seq<Path>
    requires d > 0
    decreases d, 0, n - i
  {
    if i >= n then [] else Below(n, p + [i], d - 1) + BelowFrom(n, p, d, i + 1)
  }

  /** The blocks of a file in order: the leaves below the inode's pointers 0 to 13, one after the other. */
  function FileOrder(n: int): seq<Path>
  {
    seq(12, k => [k]) + Below(n, [12], 1) + Below(n, [13], 2)
  }

  function NthSlot(n: int, idx: int): Path
  {
    if 0 <= idx < |FileOrder(n)| then FileOrder(n)[idx] else []
  }

  lemma {:induction false} OneLevel(n: int, p: Path, i: nat)
    requires i <= n
    ensures |BelowFrom(n, p, 1, i)| == n - i && forall k :: 0 <= k < n - i ==> BelowFrom(n, p, 1, i)[k] == p + [i + k]
    decreases n - i
  {
    if i < n {
      OneLevel(n, p, i + 1);
      var rest := BelowFrom(n, p, 1, i + 1);
      assert BelowFrom(n, p, 1, i) == [p + [i]] + rest;
    }
  }

  lemma QuotientLess(n: int, k: int)
    requires 0 < n <= k
    ensures (k - n) / n == k / n - 1 && (k - n) % n == k % n
  {
    Parts(n, k - n);
    NonNegative(n, k - n);
    assert k == ((k - n) / n + 1) * n + (k - n) % n;
    Quotient(n, (k - n) / n + 1, (k - n) % n);
  }

  lemma {:induction false} TwoLevels(n: int, p: Path, i: nat, k: int)
    requires 0 < n && i <= n && 0 <= k < (n - i) * n
    ensures |BelowFrom(n, p, 2, i)| == (n - i) * n && BelowFrom(n, p, 2, i)[k] == p + [i + k / n, k % n]
    decreases n - i
  {
    var first, rest := Below(n, p + [i], 1), BelowFrom(n, p, 2, i + 1);
    assert (n - i) * n == (n - (i + 1)) * n + n;
    OneLevel(n, p + [i], 0);
    TwoLevelsSize(n, p, i);
    assert BelowFrom(n, p, 2, i) == first + rest;
    if k < n {
      Quotient(n, 0, k);
      assert first[k] == (p + [i]) + [k];
    } else {
      QuotientLess(n, k);
      TwoLevels(n, p, i + 1, k - n);
      assert BelowFrom(n, p, 2, i)[k] == rest[k - n];
    }
  }

  lemma {:induction false} TwoLevelsSize(n: int, p: Path, i: nat)
    requires 0 < n && i <= n
    ensures |BelowFrom(n, p, 2, i)| == (n - i) * n
    decreases n - i
  {
    if i < n {
      OneLevel(n, p + [i], 0);
      TwoLevelsSize(n, p, i + 1);
      assert (n - i) * n == (n - (i + 1)) * n + n;
    }
  }

  lemma {:induction false} ThreeLevelsSize(n: int, p: Path, i: nat)
    requires 0 < n && i <= n
    ensures |BelowFrom(n, p, 3, i)| == (n - i) * (n * n)
    decreases n - i
  {
    if i < n {
      TwoLevelsSize(n, p + [i], 0);
      ThreeLevelsSize(n, p, i + 1);
      assert |Below(n, p + [i], 2)| == (n - 0) * n;
      assert (n - i) * (n * n) == (n - (i + 1)) * (n * n) + n * n;
    }
  }

  /** The leaf slots under all fifteen pointers. */
  lemma LeafSlots(n: int)
    requires 0 < n
    ensures |FileOrder(n)| + |Below(n, [14], 3)| == 12 + n + n * n + n * n * n
  {
    FileOrderSize(n);
    ThreeLevelsSize(n, [14], 0);
    var m := n * n;
    assert (n - 0) * m == m * n;
  }

  lemma FileOrderSize(n: int)
    requires 0 < n
    ensures |Below(n, [12], 1)| == n && |Below(n, [13], 2)| == n * n && |FileOrder(n)| == Limit(n)
  {
    OneLevel(n, [12], 0);
    TwoLevelsSize(n, [13], 0);
    assert (n - 0) * n == n * n;
  }

  /** The arithmetic finds the blocks where that walk meets them. */
  lemma LeafSlotInOrder(n: int, idx: int)
    requires 0 < n && 0 <= idx < Limit(n)
    ensures |FileOrder(n)| == Limit(n) && NthSlot(n, idx) == LeafSlot(n, idx)
  {
    FileOrderSize(n);
    if 12 <= idx < 12 + n {
      OneLevel(n, [12], 0);
      assert FileOrder(n)[idx] == Below(n, [12], 1)[idx - 12] == [12] + [idx - 12];
    } else if idx >= 12 + n {
      assert (n - 0) * n == n * n;
      assert FileOrder(n)[idx] == Below(n, [13], 2)[idx - 12 - n];
      TwoLevels(n, [13], 0, idx - 12 - n);
    }
  }

  /** That walk meets exactly the leaf slots under pointers 0 to 13, each once and in ascending order. */
  lemma FileOrderSorted(n: int)
    requires 0 < n
    ensures forall i, j :: 0 <= i < j < |FileOrder(n)| ==> Precedes(FileOrder(n)[i], FileOrder(n)[j])
    ensures forall p :: p in FileOrder(n) <==> IsSlot(n, p) && IsLeaf(p) && p[0] <= 13
  {
    var order := FileOrder(n);
    FileOrderSize(n);
    forall i, j | 0 <= i < j < |order| ensures Precedes(order[i], order[j]) {
      LeafSlotInOrder(n, i);
      LeafSlotInOrder(n, j);
      LeafSlotAscends(n, i, j);
    }
    forall p | p in order ensures IsSlot(n, p) && IsLeaf(p) && p[0] <= 13 {
      var idx :| 0 <= idx < |order| && order[idx] == p;
      LeafSlotInOrder(n, idx);
      LeafSlotIsLeaf(n, idx);
    }
    forall p | IsSlot(n, p) && IsLeaf(p) && p[0] <= 13 ensures p in order {
      var idx := LeafSlotOnto(n, p);
      LeafSlotInOrder(n, idx);
    }
  }

  /** Where block `idx` of the doubly indirect range is. */
  method DoublyIndex(n: int, idx: int) returns (i: int, j: int)
    requires 0 < n && 12 + n <= idx < Limit(n)
    ensures LeafSlot(n, idx) == [13, i, j] && 0 <= i < n && 0 <= j < n
    ensures NthSlot(n, idx) == [13, i, j]
  {
    var t := idx - 12 - n;
    QuotientBound(n, t);
    LeafSlotInOrder(n, idx);
    i, j := t / n, t % n;
  }
}
