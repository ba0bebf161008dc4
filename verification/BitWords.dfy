/** A bitmap kept in machine words, in either bit order, and the set of bits it stands for. */
module BitWords {
  import opened Division

  /** A machine word, bit 0 first. */
  type Word = seq<bool>

  /** `next` is the node the next search starts at. */
  datatype Bitmap = Bitmap(width: int, reversed: bool, words: seq<Word>, size: int, next: int)

  /** The words reach past the last bit, by at least the rest of the node it is in. */
  predicate Shape(b: Bitmap)
  {
    && 0 < b.width && 0 <= b.size && b.size / b.width < |b.words|
    && forall n :: 0 <= n < |b.words| ==> |b.words[n]| == b.width
  }

  /** The search starts inside the bitmap. */
  predicate NextOk(b: Bitmap)
  {
    0 <= b.next && b.next * b.width <= b.size
  }

  /** How far bit `k` of a node is shifted. */
  function Shift(b: Bitmap, k: int): int
  {
    if b.reversed then b.width - k - 1 else k
  }

  predicate InWords(b: Bitmap, i: int)
    requires 0 < b.width
  {
    0 <= i && i / b.width < |b.words|
  }

  function BitAt(b: Bitmap, i: int): bool
    requires Shape(b)
  {
    InWords(b, i) && b.words[i / b.width][Shift(b, i % b.width)]
  }

  /** The bits from `lo` up to `hi` are all `v`. */
  predicate Matched(b: Bitmap, lo: int, hi: int, v: bool)
    requires Shape(b)
  {
    forall i :: lo <= i < hi ==> InWords(b, i) && BitAt(b, i) == v
  }

  /** Bit `k` of node `n`. */
  lemma NodeBit(b: Bitmap, n: int, k: int)
    requires Shape(b) && 0 <= n < |b.words| && 0 <= k < b.width
    ensures InWords(b, n * b.width + k) && BitAt(b, n * b.width + k) == b.words[n][Shift(b, k)]
  {
    Quotient(b.width, n, k);
  }

  /** Where bit `i` is. */
  lemma BitNode(b: Bitmap, i: int)
    requires Shape(b) && InWords(b, i)
    ensures 0 <= i / b.width < |b.words| && 0 <= i % b.width < b.width && i == (i / b.width) * b.width + i % b.width
  {
  }

  /** Setting one bit of one word changes that bit only. */
  lemma SetOne(b: Bitmap, n: int, k: int, v: bool, i: int)
    requires Shape(b) && 0 <= n < |b.words| && 0 <= k < b.width
    ensures var b' := b.(words := b.words[n := b.words[n][Shift(b, k) := v]]);
            && Shape(b') && (InWords(b', i) <==> InWords(b, i))
            && (InWords(b, i) ==> BitAt(b', i) == if i == n * b.width + k then v else BitAt(b, i))
  {
    Quotient(b.width, n, k);
    if InWords(b, i) {
      BitNode(b, i);
    }
  }

  function Full(width: int, v: bool): Word
    requires 0 <= width
  {
    seq(width, j => v)
  }

  /** A word equal to the full one is a node of matching bits. */
  lemma FullNode(b: Bitmap, n: int, v: bool)
    requires Shape(b) && 0 <= n < |b.words| && b.words[n] == Full(b.width, v)
    ensures Matched(b, n * b.width, n * b.width + b.width, v)
  {
    forall i | n * b.width <= i < n * b.width + b.width ensures InWords(b, i) && BitAt(b, i) == v {
      NodeBit(b, n, i - n * b.width);
    }
  }

  lemma FullOrNot(w: Word, v: bool)
    ensures w == Full(|w|, v) || exists j :: 0 <= j < |w| && w[j] != v
  {
  }

  /** A word that is not has a bit of the other value. */
  lemma OtherNode(b: Bitmap, n: int, v: bool) returns (i: int)
    requires Shape(b) && 0 <= n < |b.words| && b.words[n] != Full(b.width, v)
    ensures n * b.width <= i < n * b.width + b.width && BitAt(b, i) != v
  {
    var w := b.words[n];
    FullOrNot(w, v);
    var j :| 0 <= j < b.width && w[j] != v;
    var k := if b.reversed then b.width - j - 1 else j;
    NodeBit(b, n, k);
    i := n * b.width + k;
  }

  /** Writing a whole word sets the bits of its node. */
  lemma SetNode(b: Bitmap, n: int, v: bool, i: int)
    requires Shape(b) && 0 <= n < |b.words|
    ensures var b' := b.(words := b.words[n := Full(b.width, v)]);
            && Shape(b') && (InWords(b', i) <==> InWords(b, i))
            && (InWords(b, i) ==> BitAt(b', i) == if n * b.width <= i < n * b.width + b.width then v else BitAt(b, i))
  {
    if InWords(b, i) {
      BitNode(b, i);
      SameQuotient(b.width, n, i);
    }
  }
}
