/** `add_kernel_memory_entry`: carving the kernel's ranges out of the boot memory map. */
module BootMap {

  datatype Kind = Unmapped | Available | Reserved | Kernel

  datatype Entry = Entry(base: int, size: int, kind: Kind)

  /** The range being added. */
  datatype Range = Range(start: int, end: int)

  function End(e: Entry): int { e.base + e.size }

  predicate InEntry(e: Entry, a: int) { e.base <= a < End(e) }

  predicate InRange(k: Range, a: int) { k.start <= a < k.end }

  /** The entries are in ascending order, disjoint, and inside `[lo, hi)`. */
  predicate Within(list: seq<Entry>, lo: int, hi: int)
  {
    if list == [] then lo <= hi else lo <= list[0].base && 0 <= list[0].size && Within(list[1..], End(list[0]), hi)
  }

  /** What the map says of address `a`. */
  function KindAt(list: seq<Entry>, a: int): Kind
  {
    if list == [] then Unmapped else if InEntry(list[0], a) then list[0].kind else KindAt(list[1..], a)
  }

  function Max(a: int, b: int): int { if a < b then b else a }

  function Min(a: int, b: int): int { if a < b then a else b }

  /** What one entry becomes. */
  function Split(e: Entry, k: Range): seq<Entry>
  {
    var start, end := Max(e.base, k.start), Min(End(e), k.end);
    if end <= start then [e]
    else if start == e.base then
      if end == End(e) then [Entry(e.base, e.size, Kernel)]
      else [Entry(e.base, end - start, Kernel), Entry(end, e.size - (end - start), e.kind)]
    else if end == End(e) then [Entry(e.base, e.size - (end - start), e.kind), Entry(start, end - start, Kernel)]
    else [Entry(e.base, start - e.base, e.kind), Entry(start, end - start, Kernel), Entry(end, End(e) - end, e.kind)]
  }

  function Pieces(list: seq<Entry>, k: Range): seq<Entry>
  {
    if list == [] then [] else Split(list[0], k) + Pieces(list[1..], k)
  }

  /** The kind of an address once range `k` is the kernel's; addresses outside the map stay outside. */
  function Marked(kind: Kind, inside: bool): Kind
  {
    if kind != Unmapped && inside then Kernel else kind
  }

  lemma {:induction false} WithinOrder(list: seq<Entry>, lo: int, hi: int)
    requires Within(list, lo, hi)
    ensures lo <= hi
  {
    if list != [] {
      WithinOrder(list[1..], End(list[0]), hi);
    }
  }

  lemma {:induction false} WithinJoin(a: seq<Entry>, b: seq<Entry>, lo: int, mid: int, hi: int)
    requires Within(a, lo, mid) && Within(b, mid, hi)
    ensures Within(a + b, lo, hi)
  {
    if a == [] {
      assert a + b == b;
      WithinLower(b, lo, mid, hi);
    } else {
      assert (a + b)[1..] == a[1..] + b;
      WithinJoin(a[1..], b, End(a[0]), mid, hi);
    }
  }

  lemma WithinLower(b: seq<Entry>, lo: int, mid: int, hi: int)
    requires Within(b, mid, hi) && lo <= mid
    ensures Within(b, lo, hi)
  {
  }

  lemma {:induction false} KindJoin(a: seq<Entry>, b: seq<Entry>, x: int)
    ensures KindAt(a + b, x) == if KindAt(a, x) == Unmapped && !(exists i :: 0 <= i < |a| && InEntry(a[i], x)) then KindAt(b, x) else KindAt(a, x)
  {
    if a == [] {
      assert a + b == b;
    } else {
      assert (a + b)[1..] == a[1..] + b;
      KindJoin(a[1..], b, x);
      if InEntry(a[0], x) {
      } else {
        if exists i :: 0 <= i < |a[1..]| && InEntry(a[1..][i], x) {
          var i :| 0 <= i < |a[1..]| && InEntry(a[1..][i], x);
          assert InEntry(a[i + 1], x);
        }
        if exists i :: 0 <= i < |a| && InEntry(a[i], x) {
          var i :| 0 <= i < |a| && InEntry(a[i], x);
          assert InEntry(a[1..][i - 1], x);
        }
      }
    }
  }

  /** The pieces of one entry stay inside it, in order, cover it, and are the kernel's exactly inside the range. */
  lemma SplitOk(e: Entry, k: Range, x: int)
    requires 0 <= e.size
    ensures Within(Split(e, k), e.base, End(e))
    ensures (exists i :: 0 <= i < |Split(e, k)| && InEntry(Split(e, k)[i], x)) <==> InEntry(e, x)
    ensures InEntry(e, x) ==> KindAt(Split(e, k), x) == if InRange(k, x) then Kernel else e.kind
  {
    var s := Split(e, k);
    if |s| == 1 {
      assert s == [s[0]];
    } else if |s| == 2 {
      assert s[1..] == [s[1]];
    } else {
      var rest := [s[1], s[2]];
      assert s[1..] == rest && rest[1..] == [s[2]];
      assert Within([s[2]], s[2].base, End(s[2])) && Within(rest, s[1].base, End(s[2]));
      assert KindAt(rest, x) == if InEntry(s[1], x) then s[1].kind else KindAt([s[2]], x);
    }
    assert forall i :: 0 <= i < |s| ==> InEntry(s[i], x) ==> InEntry(e, x);
    if InEntry(e, x) {
      assert InEntry(s[0], x) || (|s| > 1 && InEntry(s[1], x)) || (|s| > 2 && InEntry(s[2], x));
    }
  }

  /** Adding a range keeps the map sorted and disjoint. */
  lemma {:induction false} PiecesWithin(list: seq<Entry>, k: Range, lo: int, hi: int)
    requires Within(list, lo, hi)
    ensures Within(Pieces(list, k), lo, hi)
  {
    if list != [] {
      SplitOk(list[0], k, 0);
      WithinLower(Split(list[0], k), lo, list[0].base, End(list[0]));
      PiecesWithin(list[1..], k, End(list[0]), hi);
      WithinJoin(Split(list[0], k), Pieces(list[1..], k), lo, End(list[0]), hi);
    }
  }

  /** It keeps the coverage, and an address is the kernel's exactly when it already was or is in the range. */
  lemma {:induction false} PiecesKind(list: seq<Entry>, k: Range, lo: int, hi: int, x: int)
    requires Within(list, lo, hi) && forall i :: 0 <= i < |list| ==> list[i].kind != Unmapped
    ensures KindAt(Pieces(list, k), x) == Marked(KindAt(list, x), InRange(k, x))
    ensures forall i :: 0 <= i < |Pieces(list, k)| ==> Pieces(list, k)[i].kind != Unmapped
  {
    if list != [] {
      var s := Split(list[0], k);
      SplitOk(list[0], k, x);
      PiecesKind(list[1..], k, End(list[0]), hi, x);
      KindJoin(s, Pieces(list[1..], k), x);
      NotIn(s, x);
    }
  }

  lemma {:induction false} NotIn(s: seq<Entry>, x: int)
    ensures !(exists i :: 0 <= i < |s| && InEntry(s[i], x)) ==> KindAt(s, x) == Unmapped
  {
    if s != [] {
      NotIn(s[1..], x);
      assert forall i :: 0 <= i < |s[1..]| ==> s[1..][i] == s[i + 1];
    }
  }

  // ----- growth

  /** In how many entries a point is strictly inside. */
  function Inside(list: seq<Entry>, p: int): int
  {
    if list == [] then 0 else (if list[0].base < p < End(list[0]) then 1 else 0) + Inside(list[1..], p)
  }

  lemma {:induction false} InsideOne(list: seq<Entry>, p: int, lo: int, hi: int)
    requires Within(list, lo, hi)
    ensures 0 <= Inside(list, p) <= 1 && (p <= lo ==> Inside(list, p) == 0)
  {
    if list != [] {
      InsideOne(list[1..], p, End(list[0]), hi);
    }
  }

  lemma {:induction false} PiecesCount(list: seq<Entry>, k: Range)
    ensures |Pieces(list, k)| <= |list| + Inside(list, k.start) + Inside(list, k.end)
  {
    if list != [] {
      PiecesCount(list[1..], k);
    }
  }

  /** However many entries the range meets, the map grows by at most two. */
  lemma GrowsByTwo(list: seq<Entry>, k: Range, lo: int, hi: int)
    requires Within(list, lo, hi)
    ensures |list| <= |Pieces(list, k)| <= |list| + 2
  {
    PiecesCount(list, k);
    InsideOne(list, k.start, lo, hi);
    InsideOne(list, k.end, lo, hi);
    NeverShrinks(list, k);
  }

  lemma {:induction false} NeverShrinks(list: seq<Entry>, k: Range)
    ensures |list| <= |Pieces(list, k)|
  {
    if list != [] {
      NeverShrinks(list[1..], k);
    }
  }

  // ----- the loop

  /** One old entry: what of it is added to the new map. */
  method AddPieces(out: seq<Entry>, e: Entry, k: Range) returns (out': seq<Entry>)
    ensures out' == out + Split(e, k)
  {
    out' := out;
    var start, end := Max(e.base, k.start), Min(End(e), k.end);
    if end <= start {
      out' := out' + [e];
    } else if start == e.base {
      if end == End(e) {
        out' := out' + [Entry(e.base, e.size, Kernel)];
      } else {
        out' := out' + [Entry(e.base, end - start, Kernel)];
        out' := out' + [Entry(end, e.size - (end - start), e.kind)];
      }
    } else if end == End(e) {
      out' := out' + [Entry(e.base, e.size - (end - start), e.kind)];
      out' := out' + [Entry(start, end - start, Kernel)];
    } else {
      out' := out' + [Entry(e.base, start - e.base, e.kind)];
      out' := out' + [Entry(start, end - start, Kernel)];
      out' := out' + [Entry(end, End(e) - end, e.kind)];
    }
  }

  /** The loop over the old entries. */
  method AddEntries(list: seq<Entry>, k: Range) returns (out: seq<Entry>)
    ensures out == Pieces(list, k)
  {
    out := [];
    var i := 0;
    while i < |list|
      invariant 0 <= i <= |list| && out + Pieces(list[i..], k) == Pieces(list, k)
    {
      assert list[i..][1..] == list[i + 1..];
      ghost var before := out;
      out := AddPieces(out, list[i], k);
      Regroup(before, Split(list[i], k), Pieces(list[i + 1..], k));
      i := i + 1;
    }
  }

  lemma Regroup(a: seq<Entry>, b: seq<Entry>, c: seq<Entry>)
    ensures (a + b) + c == a + (b + c)
  {
  }

  /** A map on which any number of ranges was added. */
  function AddAll(list: seq<Entry>, ks: seq<Range>): seq<Entry>
    decreases |ks|
  {
    if ks == [] then list else AddAll(Pieces(list, ks[0]), ks[1..])
  }

  /**
   After any sequence of calls: sorted, disjoint, same coverage, and the kernel's exactly where it was or was added.
   */
  lemma {:induction false} AddAllOk(list: seq<Entry>, ks: seq<Range>, lo: int, hi: int, x: int)
    requires Within(list, lo, hi) && forall i :: 0 <= i < |list| ==> list[i].kind != Unmapped
    ensures Within(AddAll(list, ks), lo, hi)
    ensures KindAt(AddAll(list, ks), x) == Marked(KindAt(list, x), exists j :: 0 <= j < |ks| && InRange(ks[j], x))
    ensures |list| <= |AddAll(list, ks)| <= |list| + 2 * |ks|
    decreases |ks|
  {
    if ks != [] {
      PiecesWithin(list, ks[0], lo, hi);
      PiecesKind(list, ks[0], lo, hi, x);
      GrowsByTwo(list, ks[0], lo, hi);
      AddAllOk(Pieces(list, ks[0]), ks[1..], lo, hi, x);
      assert forall j :: 0 <= j < |ks[1..]| ==> ks[1..][j] == ks[j + 1];
      if exists j :: 0 <= j < |ks| && InRange(ks[j], x) {
        var j :| 0 <= j < |ks| && InRange(ks[j], x);
        assert j > 0 ==> InRange(ks[1..][j - 1], x);
      }
    }
  }

  class MemoryMap {
    var entries: seq<Entry>

    constructor (list: seq<Entry>)
      ensures entries == list
    {
      entries := list;
    }

    /** `add_kernel_memory_entry`. */
    method AddKernelEntry(base: int, size: int, ghost lo: int, ghost hi: int)
      requires Within(entries, lo, hi) && forall i :: 0 <= i < |entries| ==> entries[i].kind != Unmapped
      modifies this
      ensures Within(entries, lo, hi) && forall i :: 0 <= i < |entries| ==> entries[i].kind != Unmapped
      ensures forall x :: KindAt(entries, x) == Marked(KindAt(old(entries), x), base <= x < base + size)
      ensures |old(entries)| <= |entries| <= |old(entries)| + 2
    {
      var k := Range(base, base + size);
      PiecesWithin(entries, k, lo, hi);
      GrowsByTwo(entries, k, lo, hi);
      PiecesKind(entries, k, lo, hi, 0);
      forall x ensures KindAt(Pieces(entries, k), x) == Marked(KindAt(entries, x), base <= x < base + size) {
        PiecesKind(entries, k, lo, hi, x);
      }
      entries := AddEntries(entries, k);
    }
  }
}
