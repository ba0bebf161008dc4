/** `bitmap`: setting, range setting and the two searches, one word at a time. */
module BitmapSearch {
  import opened Division
  import opened BitWords

  /** `bit::set` through an index. */
  method SetBit(b: Bitmap, i: int, v: bool) returns (b': Bitmap)
    requires Shape(b) && InWords(b, i)
    ensures Shape(b') && b' == b.(words := b'.words) && |b'.words| == |b.words|
    ensures forall j :: InWords(b, j) ==> BitAt(b', j) == if j == i then v else BitAt(b, j)
  {
    BitNode(b, i);
    var n, k := i / b.width, i % b.width;
    b' := b.(words := b.words[n := b.words[n][Shift(b, k) := v]]);
    forall j | InWords(b, j) ensures BitAt(b', j) == if j == i then v else BitAt(b, j) {
      SetOne(b, n, k, v, j);
    }
    SetOne(b, n, k, v, 0);
  }

  /** The bits of `b'` are those of `b`, but `v` from `lo` up to `hi`. */
  ghost predicate RangeSet(b: Bitmap, b': Bitmap, lo: int, hi: int, v: bool)
  {
    && Shape(b) && Shape(b') && b' == b.(words := b'.words) && |b'.words| == |b.words|
    && forall j :: InWords(b, j) ==> BitAt(b', j) == if lo <= j < hi then v else BitAt(b, j)
  }

  lemma Below(w: int, j: int, size: int)
    requires 0 < w && 0 <= j <= size
    ensures j / w <= size / w
  {
    Parts(w, j);
    Parts(w, size);
    var d := j / w - size / w;
    assert d * w == (j / w) * w - (size / w) * w;
    assert d >= 1 ==> d * w >= w;
  }

  /** The loop over full nodes: at most `count` of them, and none once `len` bits are done. */
  method SetNodes(b: Bitmap, first: int, count: int, done0: int, len: int, v: bool)
    returns (b': Bitmap, done: int, n: int)
    requires Shape(b) && 0 <= first && 0 <= count && (done0 < len ==> first * b.width + (len - done0) <= b.size)
    ensures RangeSet(b, b', first * b.width, first * b.width + n * b.width, v)
    ensures 0 <= n <= count && done == done0 + n * b.width
    ensures n < count && n < b.size / b.width ==> done >= len
    ensures n > 0 ==> done - b.width < len
  {
    b', done, n := b, done0, 0;
    var w := b.width;
    while n < count && n < b.size / b.width && done < len
      invariant RangeSet(b, b', first * w, first * w + n * w, v)
      invariant 0 <= n <= count && done == done0 + n * w && (n > 0 ==> done - w < len)
    {
      ghost var was := b';
      NodeThere(b, first, n, len - done);
      b' := b'.(words := b'.words[first + n := Full(w, v)]);
      NodeAdded(b, was, b', first + n, first * w, first * w + n * w, v);
      n, done := n + 1, done + w;
    }
  }

  /** A node that some bit of the range is in is one of the bitmap's. */
  lemma NodeThere(b: Bitmap, first: int, n: int, left: int)
    requires Shape(b) && 0 <= first && 0 <= n && 0 < left && first * b.width + n * b.width + left <= b.size
    ensures first + n < |b.words| && (first + n) * b.width == first * b.width + n * b.width
    ensures (n + 1) * b.width == n * b.width + b.width && first * b.width <= first * b.width + n * b.width
  {
    assert (first + n) * b.width == (first + n) * b.width + 0;
    Quotient(b.width, first + n, 0);
    Below(b.width, (first + n) * b.width, b.size);
    Ordered(0, n, b.width);
    Ordered(0, first, b.width);
  }

  lemma NodeAdded(b: Bitmap, was: Bitmap, b': Bitmap, n: int, lo: int, mid: int, v: bool)
    requires 0 <= n < |b.words| && mid == n * b.width && lo <= mid && RangeSet(b, was, lo, mid, v)
    requires b' == was.(words := was.words[n := Full(b.width, v)])
    ensures RangeSet(b, b', lo, mid + b.width, v)
  {
    SetNode(was, n, v, 0);
    forall j | InWords(b, j) ensures BitAt(b', j) == if lo <= j < mid + b.width then v else BitAt(b, j) {
      SetNode(was, n, v, j);
    }
  }

  /** The loop over the bits left in the last node. */
  method SetTail(b: Bitmap, first: int, count: int, v: bool) returns (b': Bitmap)
    requires Shape(b) && 0 <= first && 0 <= count && forall j :: first <= j < first + count ==> InWords(b, j)
    ensures RangeSet(b, b', first, first + count, v)
  {
    b' := b;
    var i := 0;
    while i < count
      invariant 0 <= i <= count && RangeSet(b, b', first, first + i, v)
    {
      assert InWords(b, first + i);
      b' := SetBit(b', first + i, v);
      i := i + 1;
    }
  }

  /** The number of whole nodes as `set` computes it, in unsigned arithmetic. */
  function WholeNodes(w: int, start: int, len: int): int
    requires 0 < w
  {
    U64(len - start % w - (start + len) % w) / w
  }

  /** The range starts in the second half of a node and ends inside the next one. */
  predicate Spills(w: int, start: int, len: int)
    requires 0 < w
  {
    2 * (start % w) > w && w - start % w < len < 2 * w - start % w
  }

  /** How far from its start `set` reaches: to the end of the second node when the range spills into it. */
  function Reach(w: int, start: int, len: int): int
    requires 0 < w
  {
    if Spills(w, start, len) then 2 * w - start % w else len
  }

  /** What is left of the range past its first node, in nodes and bits. */
  lemma PastFirst(w: int, start: int, len: int, f: int, e: int)
    requires 0 < w && 0 <= start && start % w != 0 && len == w - start % w + f * w + e && 0 <= f && 0 <= e < w
    ensures (start + len) % w == e && len - start % w - e == f * w + (w - 2 * (start % w))
  {
    Parts(w, start);
    NonNegative(w, start);
    assert start + len == (start / w + 1 + f) * w + e;
    Quotient(w, start / w + 1 + f, e);
  }

  /** With at least one whole node, or a start in the first half, the computed number is right or one too small. */
  lemma WholeNodesAre(w: int, start: int, len: int, f: int, e: int)
    requires 0 < w && 0 <= start && start % w != 0 && len == w - start % w + f * w + e && 0 <= f && 0 <= e < w
    requires (f > 0 || 2 * (start % w) <= w) && len < 0x1_0000_0000_0000_0000
    ensures WholeNodes(w, start, len) == if 2 * (start % w) <= w then f else f - 1
  {
    PastFirst(w, start, len, f, e);
    var a := start % w;
    if 2 * a <= w {
      Divided(w, len - a - e, f, w - 2 * a);
    } else {
      assert (f - 1) * w == f * w - w;
      Divided(w, len - a - e, f - 1, 2 * w - 2 * a);
    }
  }

  lemma Divided(w: int, x: int, q: int, r: int)
    requires 0 < w && x == q * w + r && 0 <= r < w && 0 <= q && x < 0x1_0000_0000_0000_0000
    ensures U64(x) / w == q
  {
    Ordered(0, q, w);
    Quotient(w, q, r);
  }

  /** A range that spills makes the subtraction wrap. */
  lemma SpillWraps(w: int, start: int, len: int)
    requires 0 < w && 0 <= start && Spills(w, start, len) && 2 * w < 0x1_0000_0000
    ensures WholeNodes(w, start, len) > 0
  {
    var a := start % w;
    PastFirst(w, start, len, 0, len - (w - a));
    var x := len - a - (start + len) % w;
    assert x == w - 2 * a && -w < x < 0;
    assert U64(x) == 0x1_0000_0000_0000_0000 + x > w;
    Parts(w, U64(x));
    if U64(x) / w <= 0 {
      Ordered(U64(x) / w, 0, w);
    }
  }

  lemma AlignedNodes(w: int, start: int, len: int)
    requires 0 < w && 0 <= start && start % w == 0 && 0 <= len < 0x1_0000_0000_0000_0000
    ensures WholeNodes(w, start, len) == len / w && 0 <= len / w && (len / w) * w <= len < (len / w) * w + w
  {
    AlignedEnd(w, start, len);
    Parts(w, len);
    NonNegative(w, len);
    Divided(w, len - len % w, len / w, 0);
  }

  lemma AlignedEnd(w: int, start: int, len: int)
    requires 0 < w && 0 <= start && start % w == 0 && 0 <= len
    ensures (start + len) % w == len % w
  {
    Parts(w, start);
    Parts(w, len);
    NonNegative(w, start);
    NonNegative(w, len);
    assert start + len == (start / w + len / w) * w + len % w;
    Quotient(w, start / w + len / w, len % w);
  }

  /**
   What the computed number is good for, by where the range starts: from a node on, and past the first bits otherwise,
   the nodes fit the range and leave less than two nodes of it; a range that spills makes the number huge.
   */
  predicate NodesFit(w: int, start: int, len: int, n: int)
    requires 0 < w
  {
    && 0 <= n
    && (start % w == 0 ==> n * w <= len < n * w + w)
    && (start % w != 0 && w - start % w < len && !Spills(w, start, len) ==>
        w - start % w + n * w <= len < w - start % w + n * w + 2 * w)
    && (Spills(w, start, len) ==> n > 0)
  }

  lemma UnalignedFit(w: int, start: int, len: int)
    requires 0 < w && 0 <= start && start % w != 0 && w - start % w < len < 0x1_0000_0000_0000_0000 &&
        !Spills(w, start, len)
    ensures var n := WholeNodes(w, start, len);
            0 <= n && w - start % w + n * w <= len < w - start % w + n * w + 2 * w
  {
    var rest := len - (w - start % w);
    var f, e := rest / w, rest % w;
    Parts(w, rest);
    NonNegative(w, rest);
    assert f == 0 ==> f * w == 0;
    assert f > 0 || 2 * (start % w) <= w;
    WholeNodesAre(w, start, len, f, e);
    assert (f - 1) * w == f * w - w;
  }

  lemma WholeNodesFit(w: int, start: int, len: int)
    requires 0 < w <= 64 && 0 <= start && 0 <= len < 0x1_0000_0000_0000_0000
    ensures NodesFit(w, start, len, WholeNodes(w, start, len))
  {
    NonNegative(w, U64(len - start % w - (start + len) % w));
    if start % w == 0 {
      AlignedNodes(w, start, len);
    } else if Spills(w, start, len) {
      SpillWraps(w, start, len);
    } else if w - start % w < len {
      UnalignedFit(w, start, len);
    }
  }

  lemma RangeJoin(b: Bitmap, b1: Bitmap, b2: Bitmap, lo: int, mid: int, hi: int, v: bool)
    requires RangeSet(b, b1, lo, mid, v) && RangeSet(b1, b2, mid, hi, v) && lo <= mid <= hi
    ensures RangeSet(b, b2, lo, hi, v)
  {
    forall j | InWords(b, j) ensures BitAt(b2, j) == if lo <= j < hi then v else BitAt(b, j) {
      assert InWords(b1, j);
    }
  }

  /** The bits up to `hi`, which is inside the bitmap, are in its words. */
  lemma RangeInWords(b: Bitmap, lo: int, hi: int)
    requires Shape(b) && 0 <= lo && hi <= b.size
    ensures forall j :: lo <= j < hi ==> InWords(b, j)
  {
    forall j | lo <= j < hi ensures InWords(b, j) {
      Below(b.width, j, b.size);
    }
  }

  method Amount(w: int, start: int, len: int) returns (n: int)
    requires 0 < w <= 64 && 0 <= start && 0 <= len < 0x1_0000_0000_0000_0000
    ensures NodesFit(w, start, len, n)
  {
    n := WholeNodes(w, start, len);
    WholeNodesFit(w, start, len);
  }

  /** Where the node of a bit, and the one after it, begin. */
  lemma StartNode(w: int, start: int)
    requires 0 < w && 0 <= start
    ensures 0 <= start / w && (start / w) * w == start - start % w && (start / w + 1) * w == start - start % w + w
  {
    Parts(w, start);
    NonNegative(w, start);
  }

  /** The first node of `set`, up to its end or the range's, and the rest. */
  method SetFrom(b: Bitmap, start: int, len: int, v: bool) returns (b': Bitmap)
    requires Shape(b) && 0 <= start && 0 <= len && start + len <= b.size < 0x1_0000_0000_0000_0000 && b.width <= 64
    ensures RangeSet(b, b', start, start + Reach(b.width, start, len), v)
  {
    b' := b;
    var w, node, done := b.width, start / b.width, 0;
    var amount := Amount(w, start, len);
    StartNode(w, start);
    RangeInWords(b, start, start + len);
    if start % w != 0 {
      done := if w - start % w < len then w - start % w else len;
      b' := SetTail(b, start, done, v);
      node := node + 1;
    }
    b' := SetRest(b, b', start, len, node, amount, done, v);
  }

  /**
   `set` of a range of the bitmap, from any start. It sets exactly the range, unless that spills: then the rest of the
   second node goes with it. A start past the end does nothing.
   */
  method SetRange(b: Bitmap, start: int, len: int, v: bool) returns (b': Bitmap)
    requires Shape(b) && 0 <= start && 0 <= len && (start > b.size || start + len <= b.size)
    requires b.size < 0x1_0000_0000_0000_0000 && b.width <= 64
    ensures start > b.size ==> b' == b
    ensures start <= b.size ==> RangeSet(b, b', start, start + Reach(b.width, start, len), v)
    ensures start <= b.size ==>
              (RangeSet(b, b', start, start + len, v) <==>
                 !Spills(b.width, start, len) || Matched(b, start + len, start + Reach(b.width, start, len), v))
  {
    if start > b.size {
      return b;
    }
    b' := SetFrom(b, start, len, v);
    if Spills(b.width, start, len) {
      SecondNode(b, start, len);
      TooFarIff(b, b', start, start + len, start + Reach(b.width, start, len), v);
    }
  }

  /** The node a range spills into is one of the bitmap's. */
  lemma SecondNode(b: Bitmap, start: int, len: int)
    requires Shape(b) && 0 <= start && start + len <= b.size && Spills(b.width, start, len)
    ensures forall j :: start <= j < start + Reach(b.width, start, len) ==> InWords(b, j)
  {
    var w, q := b.width, start / b.width;
    StartNode(w, start);
    AtLeast(w, q + 1, b.size);
    forall j | start <= j < start + Reach(w, start, len) ensures InWords(b, j) {
      SameQuotient(w, q, j);
      SameQuotient(w, q + 1, j);
    }
  }

  /** Setting too many bits does no harm exactly when the others had the value already. */
  lemma TooFarIff(b: Bitmap, b': Bitmap, lo: int, mid: int, hi: int, v: bool)
    requires RangeSet(b, b', lo, hi, v) && lo <= mid <= hi && forall j :: lo <= j < hi ==> InWords(b, j)
    ensures RangeSet(b, b', lo, mid, v) <==> Matched(b, mid, hi, v)
  {
    if RangeSet(b, b', lo, mid, v) {
      forall i | mid <= i < hi ensures InWords(b, i) && BitAt(b, i) == v {
        assert BitAt(b', i) == v && BitAt(b', i) == BitAt(b, i);
      }
    }
  }

  /** The part of `set` after the first node. */
  method SetRest(b: Bitmap, b1: Bitmap, start: int, len: int, node: int, amount: int, done0: int, v: bool)
    returns (b': Bitmap)
    requires Shape(b) && 0 <= start && 0 <= len && start + len <= b.size
    requires NodesFit(b.width, start, len, amount) && 0 <= node && RangeSet(b, b1, start, start + done0, v)
    requires done0 == if start % b.width == 0 then 0 else if b.width - start % b.width < len then b.width - start % b.width else len
    requires done0 < len ==> node * b.width == start + done0
    ensures RangeSet(b, b', start, start + Reach(b.width, start, len), v)
  {
    var w := b.width;
    if done0 == len {
      return b1;
    }
    var b2, done, n := SetNodes(b1, node, amount, done0, len, v);
    NodesDone(b, start, len, done0, n, amount);
    assert done0 <= done by { Ordered(0, n, w); }
    RangeJoin(b, b1, b2, start, start + done0, start + done, v);
    b' := b2;
    if done < len {
      b' := SetLast(b, b2, start, len, node, amount, done, v);
    }
  }

  /** The bits left in the last node. */
  method SetLast(b: Bitmap, b2: Bitmap, start: int, len: int, node: int, amount: int, done: int, v: bool)
    returns (b': Bitmap)
    requires Shape(b) && 0 <= start && start + len <= b.size && 0 <= done < len && 0 <= node && 0 <= amount
    requires node * b.width + amount * b.width == start + done && RangeSet(b, b2, start, start + done, v)
    ensures RangeSet(b, b', start, start + len, v)
  {
    var first := (node + amount) * b.width;
    assert first == start + done;
    RangeInWords(b2, first, start + len);
    b' := SetTail(b2, first, len - done, v);
    RangeJoin(b, b2, b', start, first, start + len, v);
  }

  /** How many nodes the loop sets: all that were computed, or one when the range spills. */
  lemma NodesDone(b: Bitmap, start: int, len: int, done0: int, n: int, amount: int)
    requires Shape(b) && 0 <= start && start + len <= b.size && 0 <= done0 < len &&
        NodesFit(b.width, start, len, amount)
    requires done0 == if start % b.width == 0 then 0 else b.width - start % b.width
    requires 0 <= n <= amount && (n < amount && n < b.size / b.width ==> done0 + n * b.width >= len)
    requires n > 0 ==> done0 + n * b.width - b.width < len
    ensures Spills(b.width, start, len) ==> done0 + n * b.width == Reach(b.width, start, len)
    ensures !Spills(b.width, start, len) ==> n == amount && done0 + n * b.width <= len
  {
    var w := b.width;
    if Spills(w, start, len) {
      Parts(w, start);
      NonNegative(w, start);
      Ordered(0, start / w, w);
      OneNode(w, len, b.size, done0, n, amount);
    } else {
      EveryNode(w, len, b.size, done0, n, amount);
    }
  }

  lemma OneNode(w: int, len: int, size: int, done0: int, n: int, amount: int)
    requires 0 < w <= size && done0 < len < done0 + w && 0 <= n <= amount && 0 < amount
    requires (n < amount && n < size / w ==> done0 + n * w >= len) && (n > 0 ==> done0 + n * w - w < len)
    ensures n == 1
  {
    AtLeast(w, 1, size);
    assert n == 0 ==> n * w == 0;
    if n > 1 { Ordered(2, n, w); }
  }

  lemma EveryNode(w: int, len: int, size: int, done0: int, n: int, amount: int)
    requires 0 < w && 0 <= done0 && len <= size && 0 <= n <= amount && done0 + amount * w <= len
    requires n < amount && n < size / w ==> done0 + n * w >= len
    ensures n == amount
  {
    AtLeast(w, amount, size);
    assert (n + 1) * w == n * w + w;
    if n < amount {
      Ordered(n + 1, amount, w);
    }
  }

  lemma AtLeast(w: int, n: int, size: int)
    requires 0 < w && 0 <= n && n * w <= size
    ensures n <= size / w
  {
    Ordered(0, n, w);
    Below(w, n * w, size);
    assert n * w == n * w + 0;
    Quotient(w, n, 0);
  }

  // ----- searching one bit

  /** The private `search_bit`. */
  method SearchBitIn(b: Bitmap, start: int, end: int, v: bool) returns (found: bool, i: int)
    requires Shape(b) && 0 <= start && end <= b.size
    ensures found ==> start <= i < end && BitAt(b, i) == v && forall j :: start <= j < i ==> BitAt(b, j) != v
    ensures !found ==> forall j :: start <= j < end ==> BitAt(b, j) != v
  {
    i := start;
    while i < end
      invariant start <= i && forall j :: start <= j < i && j < end ==> BitAt(b, j) != v
    {
      if BitAt(b, i) == v {
        return true, i;
      }
      i := i + 1;
    }
    found := false;
  }

  /** Bit `j` is looked at before bit `i` by a search that starts at bit `here` and comes round once. */
  predicate Sooner(b: Bitmap, here: int, i: int, j: int)
  {
    if here <= i then here <= j < i else here <= j < b.size || 0 <= j < i
  }

  /**
   `search_bit`: from the remembered node to the end, then from the start to that node. It succeeds exactly when some
   bit matches, with the first in that order, and remembers its node.
   */
  method SearchBit(b: Bitmap, v: bool) returns (b': Bitmap, found: bool, i: int)
    requires Shape(b) && NextOk(b)
    ensures found <==> exists j :: 0 <= j < b.size && BitAt(b, j) == v
    ensures found ==> 0 <= i < b.size && BitAt(b, i) == v
    ensures found ==> forall j :: Sooner(b, b.next * b.width, i, j) ==> BitAt(b, j) != v
    ensures Shape(b') && NextOk(b') && b' == if found then b.(next := i / b.width) else b
  {
    var here := b.next * b.width;
    StartInside(b);
    b' := b;
    found, i := SearchBitIn(b, here, b.size, v);
    if !found && b.next != 0 {
      found, i := SearchBitIn(b, 0, here, v);
    }
    if found {
      Parts(b.width, i);
      NonNegative(b.width, i);
      b' := b.(next := i / b.width);
    }
  }

  lemma StartInside(b: Bitmap)
    requires Shape(b) && NextOk(b)
    ensures 0 <= b.next * b.width <= b.size
    ensures b.next == 0 ==> b.next * b.width == 0
  {
  }

  // ----- searching a run of bits that starts with a node

  /** The first `count` bits of a node, one by one. */
  method CheckBits(b: Bitmap, n: int, count: int, v: bool) returns (all: bool, ghost bad: int)
    requires Shape(b) && 0 <= n < |b.words| && 0 <= count <= b.width
    ensures all ==> Matched(b, n * b.width, n * b.width + count, v)
    ensures !all ==> n * b.width <= bad < n * b.width + count && BitAt(b, bad) != v
  {
    var i := 0;
    bad := 0;
    while i < count
      invariant 0 <= i <= count && Matched(b, n * b.width, n * b.width + i, v)
    {
      NodeBit(b, n, i);
      if BitAt(b, n * b.width + i) != v {
        bad := n * b.width + i;
        return false, bad;
      }
      i := i + 1;
    }
    all := true;
  }

  /** A run of `batch` matching bits begins with node `t` and ends by node `end`. */
  predicate RunAt(b: Bitmap, t: int, end: int, batch: int, v: bool)
    requires Shape(b)
  {
    t * b.width + batch <= (end + 1) * b.width && Matched(b, t * b.width, t * b.width + batch, v)
  }

  /** A bit that does not match rules out every start from which the run would reach it. */
  lemma Blocked(b: Bitmap, t: int, end: int, batch: int, v: bool, s: int, c: int, bad: int)
    requires Shape(b) && s <= t <= c && c * b.width <= bad < s * b.width + batch && BitAt(b, bad) != v
    ensures !RunAt(b, t, end, batch, v)
  {
    Ordered(s, t, b.width);
    Ordered(t, c, b.width);
  }

  lemma Ordered(s: int, t: int, w: int)
    requires s <= t && 0 < w
    ensures s * w <= t * w
  {
  }

  /** Past the last node the run does not fit. */
  lemma TooLate(b: Bitmap, t: int, end: int, batch: int, v: bool, s: int, c: int)
    requires Shape(b) && s <= t && c == end + 1 && c * b.width < s * b.width + batch
    ensures !RunAt(b, t, end, batch, v)
  {
  }

  /** One turn of the search: `z` bits from node `s` on match, and the next node is `c`. */
  method SearchStep(b: Bitmap, s: int, z: int, c: int, end: int, batch: int, v: bool) returns (s': int, z': int)
    requires Shape(b) && 0 <= s <= c <= end < |b.words| && 0 <= z < batch
    requires c * b.width == s * b.width + z && Matched(b, s * b.width, s * b.width + z, v)
    ensures s <= s' <= c + 1 && 0 <= z' <= batch && Matched(b, s' * b.width, s' * b.width + z', v)
    ensures z' == batch ==> s' == s && s * b.width + batch <= (c + 1) * b.width
    ensures z' < batch ==> (c + 1) * b.width == s' * b.width + z'
    ensures forall t :: s <= t < s' ==> !RunAt(b, t, end, batch, v)
  {
    var w := b.width;
    assert (c + 1) * w == c * w + w;
    ghost var bad := 0;
    if batch - z >= w && b.words[c] == Full(w, v) {
      FullNode(b, c, v);
      return s, z + w;
    } else if batch - z < w {
      var all;
      all, bad := CheckBits(b, c, batch - z, v);
      if all {
        return s, batch;
      }
    } else {
      bad := OtherNode(b, c, v);
    }
    s', z' := c + 1, 0;
    forall t | s <= t < c + 1 ensures !RunAt(b, t, end, batch, v) {
      Blocked(b, t, end, batch, v, s, c, bad);
    }
  }

  /** The private `search`: the first node from which the whole batch matches, if there is one. */
  method SearchIn(b: Bitmap, start: int, end: int, batch: int, v: bool) returns (found: bool, index: int, ghost s: int)
    requires Shape(b) && 0 <= start && end < |b.words| && 0 <= batch
    ensures found ==> start <= s && index == s * b.width && Matched(b, index, index + batch, v)
    ensures found && batch != 0 ==> index + batch <= (end + 1) * b.width
    ensures found ==> forall t :: start <= t < s ==> !RunAt(b, t, end, batch, v)
    ensures batch == 0 ==> found && s == start
    ensures !found ==> forall t :: start <= t <= end ==> !RunAt(b, t, end, batch, v)
  {
    var first, z, c := start, 0, start;
    while z != batch && c <= end
      invariant start <= first <= c && 0 <= z <= batch && (start <= end + 1 ==> c <= end + 1)
      invariant Matched(b, first * b.width, first * b.width + z, v)
      invariant z < batch ==> c * b.width == first * b.width + z
      invariant z == batch && batch > 0 ==> first * b.width + batch <= (end + 1) * b.width
      invariant batch == 0 ==> first == start
      invariant forall t :: start <= t < first ==> !RunAt(b, t, end, batch, v)
      decreases end + 1 - c
    {
      first, z := SearchStep(b, first, z, c, end, batch, v);
      Ordered(c + 1, end + 1, b.width);
      c := c + 1;
    }
    found, index, s := z == batch, first * b.width, first;
    if !found {
      forall t | start <= t <= end ensures !RunAt(b, t, end, batch, v) {
        if t >= first { TooLate(b, t, end, batch, v, first, c); }
      }
    }
  }

  /** A run that begins with a node lies between the remembered node and the end, or ends by the remembered node. */
  ghost predicate InSight(b: Bitmap, batch: int, v: bool)
    requires Shape(b)
  {
    || (exists t :: b.next <= t <= b.size / b.width && RunAt(b, t, b.size / b.width, batch, v))
    || (exists t :: 0 <= t <= b.next && RunAt(b, t, b.next, batch, v))
  }

  /** The run at node `s` is the first from the remembered node on, or, when there is none, the first from the start. */
  ghost predicate FirstRun(b: Bitmap, s: int, batch: int, v: bool)
    requires Shape(b)
  {
    || (&& b.next <= s && RunAt(b, s, b.size / b.width, batch, v)
        && forall t :: b.next <= t < s ==> !RunAt(b, t, b.size / b.width, batch, v))
    || (&& 0 <= s <= b.next && RunAt(b, s, b.next, batch, v)
        && (forall t :: b.next <= t <= b.size / b.width ==> !RunAt(b, t, b.size / b.width, batch, v))
        && (forall t :: 0 <= t < s ==> !RunAt(b, t, b.next, batch, v)))
  }

  /** The node of a run that was found is one of those searched. */
  lemma FoundInSight(b: Bitmap, s: int, start: int, end: int, batch: int, v: bool)
    requires Shape(b) && start <= s && 0 < batch && s * b.width + batch <= (end + 1) * b.width
    requires Matched(b, s * b.width, s * b.width + batch, v)
    ensures start <= s <= end && RunAt(b, s, end, batch, v)
  {
    if s > end {
      Ordered(end + 1, s, b.width);
    }
  }

  /**
   `search`: from the remembered node to the end, then from the start up to and including that node. It succeeds exactly
   when one of the two stretches has room.
   */
  method Search(b: Bitmap, batch: int, v: bool) returns (b': Bitmap, found: bool, index: int)
    requires Shape(b) && NextOk(b) && 0 <= batch
    ensures found ==> 0 <= index && index % b.width == 0 && Matched(b, index, index + batch, v)
    ensures batch == 0 ==> found && index == b.next * b.width
    ensures found <==> batch == 0 || InSight(b, batch, v)
    ensures found && batch != 0 ==> FirstRun(b, index / b.width, batch, v)
    ensures b' == if found then b.(next := index / b.width + batch / b.width) else b
    ensures Shape(b') && (!found || index + batch <= b.size ==> NextOk(b'))
  {
    NextNodeInside(b);
    b' := b;
    ghost var s;
    found, index, s := SearchEither(b, batch, v);
    if found {
      b' := b.(next := index / b.width + batch / b.width);
      RunFound(b, s, batch);
    }
  }

  /** What is remembered after a run was found at node `s`: the node it ends in. */
  lemma RunFound(b: Bitmap, s: int, batch: int)
    requires Shape(b) && NextOk(b) && 0 <= s && 0 <= batch
    ensures 0 <= s * b.width && s * b.width / b.width == s && s * b.width % b.width == 0
    ensures s * b.width + batch <= b.size ==> NextOk(b.(next := s + batch / b.width))
  {
    var w := b.width;
    Quotient(w, s, 0);
    assert s * w == s * w + 0;
    Ordered(0, s, w);
    Parts(w, batch);
    NonNegative(w, batch);
    assert (s + batch / w) * w == s * w + (batch / w) * w;
  }

  /** The two stretches of a search; `s` is the node of the run that was found. */
  method SearchEither(b: Bitmap, batch: int, v: bool) returns (found: bool, index: int, ghost s: int)
    requires Shape(b) && NextOk(b) && 0 <= batch
    ensures found ==> 0 <= s && index == s * b.width && Matched(b, index, index + batch, v)
    ensures found && batch != 0 ==> FirstRun(b, s, batch, v)
    ensures batch == 0 ==> found && s == b.next
    ensures found <==> batch == 0 || InSight(b, batch, v)
  {
    NextNodeInside(b);
    found, index, s := SearchIn(b, b.next, b.size / b.width, batch, v);
    if found {
      if batch != 0 {
        FoundInSight(b, s, b.next, b.size / b.width, batch, v);
      }
      return;
    }
    if b.next != 0 {
      found, index, s := SearchIn(b, 0, b.next, batch, v);
      if found {
        FoundInSight(b, s, 0, b.next, batch, v);
      }
    } else {
      NoRunInFirst(b, batch, v);
    }
  }

  lemma NextNodeInside(b: Bitmap)
    requires Shape(b) && NextOk(b)
    ensures b.next <= b.size / b.width < |b.words|
  {
    StartInside(b);
    Below(b.width, b.next * b.width, b.size);
    Quotient(b.width, b.next, 0);
    assert b.next * b.width == b.next * b.width + 0;
  }

  /** A search from node 0 has looked at node 0 already. */
  lemma NoRunInFirst(b: Bitmap, batch: int, v: bool)
    requires Shape(b) && !RunAt(b, 0, b.size / b.width, batch, v)
    ensures !RunAt(b, 0, 0, batch, v)
  {
  }
}
