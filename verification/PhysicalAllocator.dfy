/** `physical_allocator`: pages handed out from a bitmap in which a set bit is a page in use. */
module PhysicalAllocator {
  import opened Division
  import opened BitWords
  import opened BitmapSearch

  /** The bits past the last page read as in use. */
  ghost predicate PaddingSet(b: Bitmap)
    requires Shape(b)
  {
    forall i :: b.size <= i && InWords(b, i) ==> BitAt(b, i)
  }

  /** So a run of free pages lies among the pages. */
  lemma FreeRunInside(b: Bitmap, first: int, count: int)
    requires Shape(b) && PaddingSet(b) && 0 < count && Matched(b, first, first + count, false)
    ensures first + count <= b.size
  {
    assert InWords(b, first + count - 1) && !BitAt(b, first + count - 1);
  }

  /** Pages `lo` up to `hi` have become used, or free, and no other page changed. */
  ghost predicate PagesSet(b: Bitmap, b': Bitmap, lo: int, hi: int, v: bool)
  {
    && Shape(b) && Shape(b') && NextOk(b') && PaddingSet(b') && b'.size == b.size && b'.width == b.width
    && forall i :: 0 <= i < b.size ==> BitAt(b', i) == if lo <= i < hi then v else BitAt(b, i)
  }

  lemma RangeSetPages(b: Bitmap, b': Bitmap, lo: int, hi: int, v: bool)
    requires NextOk(b) && Shape(b) && PaddingSet(b) && RangeSet(b, b', lo, hi, v) && hi <= b.size
    ensures PagesSet(b, b', lo, hi, v)
  {
    forall i | 0 <= i < b.size ensures BitAt(b', i) == if lo <= i < hi then v else BitAt(b, i) {
      Below(b.width, i, b.size);
    }
    forall i | b'.size <= i && InWords(b', i) ensures BitAt(b', i) {
      assert InWords(b, i);
    }
  }

  /** Where the search starts next is no matter to the pages. */
  lemma SameWords(b: Bitmap, b': Bitmap)
    requires Shape(b) && PaddingSet(b) && b' == b.(next := b'.next) && Shape(b') && NextOk(b')
    ensures PaddingSet(b') && forall i :: InWords(b, i) ==> BitAt(b', i) == BitAt(b, i)
    ensures PagesSet(b, b', 0, 0, false)
  {
    forall i | b'.size <= i && InWords(b', i) ensures BitAt(b', i) {
      assert InWords(b, i) && BitAt(b, i);
    }
  }

  lemma Then(b: Bitmap, b1: Bitmap, b2: Bitmap, lo: int, hi: int, v: bool)
    requires PagesSet(b, b1, 0, 0, false) && PagesSet(b1, b2, lo, hi, v)
    ensures PagesSet(b, b2, lo, hi, v)
  {
  }

  /** One page's bit. */
  method SetPage(b: Bitmap, page: int, v: bool) returns (b': Bitmap)
    requires Shape(b) && NextOk(b) && PaddingSet(b) && 0 <= page < b.size
    ensures PagesSet(b, b', page, page + 1, v) && b'.next == b.next
  {
    assert InWords(b, page) by { Below(b.width, page, b.size); }
    b' := SetBit(b, page, v);
    RangeSetPages(b, b', page, page + 1, v);
  }

  /** The first free page found. */
  method TakePage(b: Bitmap) returns (b': Bitmap, page: int)
    requires Shape(b) && NextOk(b) && PaddingSet(b)
    ensures page == -1 <==> forall i :: 0 <= i < b.size ==> BitAt(b, i)
    ensures page == -1 ==> PagesSet(b, b', 0, 0, false)
    ensures page != -1 ==> 0 <= page < b.size && !BitAt(b, page) && PagesSet(b, b', page, page + 1, true)
    ensures page != -1 ==> b'.next == page / b.width && forall i :: Sooner(b, b.next * b.width, page, i) ==> BitAt(b, i)
  {
    var b1, found, i := SearchBit(b, false);
    SameWords(b, b1);
    if !found {
      return b1, -1;
    }
    b' := SetPage(b1, i, true);
    page := i;
    Then(b, b1, b', page, page + 1, true);
  }

  /** A free run that begins with a node. */
  method TakeRun(b: Bitmap, amount: int) returns (b': Bitmap, first: int)
    requires Shape(b) && NextOk(b) && PaddingSet(b) && 0 <= amount && b.size < 0x1_0000_0000_0000_0000 && b.width <= 64
    ensures first == -1 <==> amount > 0 && !InSight(b, amount, false)
    ensures first == -1 ==> PagesSet(b, b', 0, 0, false)
    ensures first != -1 ==> 0 <= first && first % b.width == 0 && first + amount <= b.size
    ensures first != -1 ==> Matched(b, first, first + amount, false) && PagesSet(b, b', first, first + amount, true)
    ensures first != -1 ==> b'.next == first / b.width + amount / b.width && (amount > 0 ==> FirstRun(b, first / b.width, amount, false))
  {
    var b1, found, index := Search(b, amount, false);
    StartInside(b);
    if amount > 0 && found {
      FreeRunInside(b, index, amount);
    }
    SameWords(b, b1);
    if !found {
      return b1, -1;
    }
    b' := SetRange(b1, index, amount, true);
    assert !Spills(b1.width, index, amount);
    RangeSetPages(b1, b', index, index + amount, true);
    first := index;
    Then(b, b1, b', first, first + amount, true);
  }

  /** Three nodes of free pages, and the search to start at the second. */
  function ThreeFreeNodes(w: int): Bitmap
    requires 0 < w
  {
    Bitmap(w, false, [Full(w, false), Full(w, false), Full(w, false), Full(w, true)], 3 * w, 1)
  }

  /** A free run around the remembered node is not seen: all pages are free, but they cannot be had in one run. */
  lemma RunAcrossMissed(w: int)
    requires 0 < w
    ensures var b := ThreeFreeNodes(w);
            && Shape(b) && NextOk(b) && PaddingSet(b) && Matched(b, 0, 3 * w, false)
            && !InSight(b, 3 * w, false)
  {
    var b := ThreeFreeNodes(w);
    Quotient(w, 3, 0);
    FullNode(b, 0, false);
    FullNode(b, 1, false);
    FullNode(b, 2, false);
    FullNode(b, 3, true);
    forall i | b.size <= i && InWords(b, i) ensures BitAt(b, i) {
      SameQuotient(w, i / w, i);
      Below(w, 3 * w, i);
    }
    forall t | 1 <= t <= 3 ensures !RunAt(b, t, 3, 3 * w, false) {
      if t == 1 {
        assert BitAt(b, 3 * w);
      }
    }
  }

  class Allocator {
    var b: Bitmap

    ghost predicate Valid()
      reads this
    {
      Shape(b) && NextOk(b) && PaddingSet(b) && b.size < 0x1_0000_0000_0000_0000 && b.width <= 64
    }

    /** Page `i` is in use. */
    ghost predicate Used(i: int)
      reads this
      requires Valid()
    {
      BitAt(b, i)
    }

    constructor (b0: Bitmap)
      requires Shape(b0) && NextOk(b0) && PaddingSet(b0) && b0.size < 0x1_0000_0000_0000_0000 && b0.width <= 64
      ensures Valid() && b == b0
    {
      b := b0;
    }

    /** `alloc_page`: a given page, or the first free one found; it fails exactly when every page is in use. */
    method AllocPage(existing: int) returns (page: int)
      requires Valid() && existing < b.size
      modifies this
      ensures Valid() && b.size == old(b.size)
      ensures existing >= 0 ==> page == existing
      ensures existing < 0 && page != -1 ==> 0 <= page < b.size && !old(Used(page)) && b.next == page / b.width
      ensures existing < 0 && page != -1 ==> forall i :: Sooner(old(b), old(b.next * b.width), page, i) ==> old(Used(i))
      ensures page == -1 <==> existing < 0 && forall i :: 0 <= i < b.size ==> old(Used(i))
      ensures forall i :: 0 <= i < b.size ==> (Used(i) <==> old(Used(i)) || i == page)
    {
      var b1;
      if existing < 0 {
        b1, page := TakePage(b);
      } else {
        page := existing;
        b1 := SetPage(b, existing, true);
      }
      b := b1;
    }

    /**
     `alloc_consecutive_pages`: a run that begins with a node and was free becomes used, and no other page changes. It
     fails exactly when there is none from the remembered node on and none that ends by that node.
     */
    method AllocConsecutivePages(amount: int) returns (first: int)
      requires Valid() && 0 <= amount
      modifies this
      ensures Valid() && b.size == old(b.size)
      ensures first == -1 <==> amount > 0 && !InSight(old(b), amount, false)
      ensures first == -1 ==> forall i :: 0 <= i < b.size ==> (Used(i) <==> old(Used(i)))
      ensures first != -1 ==> 0 <= first && first % b.width == 0 && first + amount <= b.size
      ensures first != -1 ==> forall i :: first <= i < first + amount ==> !old(Used(i))
      ensures first != -1 && amount > 0 ==> FirstRun(old(b), first / b.width, amount, false)
      ensures first != -1 ==> b.next == first / b.width + amount / b.width
      ensures first != -1 ==> forall i :: 0 <= i < b.size ==> (Used(i) <==> old(Used(i)) || first <= i < first + amount)
    {
      var b1;
      b1, first := TakeRun(b, amount);
      b := b1;
    }

    /** `free_page`; a page past the end is ignored. */
    method FreePage(page: int)
      requires Valid() && 0 <= page
      modifies this
      ensures Valid() && b.size == old(b.size)
      ensures forall i :: 0 <= i < b.size ==> (Used(i) <==> old(Used(i)) && i != page)
    {
      if page < b.size {
        var b1 := SetPage(b, page, false);
        b := b1;
      }
    }
  }
}
