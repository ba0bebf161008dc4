/** The list of virtual memory regions: it tiles the kernel's address range, and gives every address its attributes. */
module VmaList {

  datatype Region = Region(base: int, size: int, prot: int, used: bool)

  function End(r: Region): int { r.base + r.size }

  function Attr(r: Region): (int, bool) { (r.prot, r.used) }

  const FREE: (int, bool) := (0, false)

  predicate InRegion(r: Region, a: int) { r.base <= a < End(r) }

  /** The regions, in order and without gaps, cover exactly `[lo, hi)`. */
  predicate Tiled(list: seq<Region>, lo: int, hi: int)
  {
    if list == [] then lo == hi
    else list[0].base == lo && list[0].size > 0 && Tiled(list[1..], End(list[0]), hi)
  }

  /** The attributes of address `a`. */
  function AttrAt(list: seq<Region>, a: int): (int, bool)
  {
    if list == [] then FREE else if InRegion(list[0], a) then Attr(list[0]) else AttrAt(list[1..], a)
  }

  lemma {:induction false} TiledOrder(list: seq<Region>, lo: int, hi: int)
    requires Tiled(list, lo, hi)
    ensures lo <= hi && (list != [] ==> lo < hi)
  {
    if list != [] {
      TiledOrder(list[1..], End(list[0]), hi);
    }
  }

  /** Where the second part begins. */
  function Seam(b: seq<Region>, hi: int): int
  {
    if b == [] then hi else b[0].base
  }

  lemma {:induction false} TiledSplit(a: seq<Region>, b: seq<Region>, lo: int, hi: int)
    requires Tiled(a + b, lo, hi)
    ensures Tiled(a, lo, Seam(b, hi)) && Tiled(b, Seam(b, hi), hi)
  {
    if a == [] {
      assert a + b == b;
    } else {
      assert (a + b)[1..] == a[1..] + b;
      TiledSplit(a[1..], b, End(a[0]), hi);
    }
  }

  lemma {:induction false} TiledJoin(a: seq<Region>, b: seq<Region>, lo: int, mid: int, hi: int)
    requires Tiled(a, lo, mid) && Tiled(b, mid, hi)
    ensures Tiled(a + b, lo, hi)
  {
    if a == [] {
      assert a + b == b;
    } else {
      assert (a + b)[1..] == a[1..] + b;
      TiledJoin(a[1..], b, End(a[0]), mid, hi);
    }
  }

  lemma {:induction false} AttrJoin(a: seq<Region>, b: seq<Region>, lo: int, mid: int, hi: int, x: int)
    requires Tiled(a, lo, mid) && Tiled(b, mid, hi) && lo <= x < hi
    ensures AttrAt(a + b, x) == if x < mid then AttrAt(a, x) else AttrAt(b, x)
  {
    TiledOrder(a, lo, mid);
    if a == [] {
      assert a + b == b;
    } else {
      assert (a + b)[1..] == a[1..] + b;
      TiledOrder(a[1..], End(a[0]), mid);
      if x >= End(a[0]) {
        AttrJoin(a[1..], b, End(a[0]), mid, hi, x);
      }
    }
  }

  /** `list` with its `n` regions from place `i` on replaced. */
  function Splice(list: seq<Region>, i: int, n: int, mid: seq<Region>): seq<Region>
    requires 0 <= i && 0 <= n && i + n <= |list|
  {
    list[..i] + mid + list[i + n..]
  }

  /** Three consecutive stretches. */
  lemma AttrThree(a: seq<Region>, m: seq<Region>, b: seq<Region>, lo: int, p: int, q: int, hi: int, x: int)
    requires Tiled(a, lo, p) && Tiled(m, p, q) && Tiled(b, q, hi) && lo <= x < hi
    ensures Tiled(a + m + b, lo, hi)
    ensures AttrAt(a + m + b, x) == if x < p then AttrAt(a, x) else if x < q then AttrAt(m, x) else AttrAt(b, x)
  {
    TiledOrder(m, p, q);
    TiledJoin(a, m, lo, p, q);
    TiledJoin(a + m, b, lo, q, hi);
    AttrJoin(a + m, b, lo, q, hi, x);
    if x < q {
      AttrJoin(a, m, lo, p, q, x);
    }
  }

  /** Replacing a stretch by another over the same addresses changes attributes there only. */
  lemma SpliceAttr(list: seq<Region>, i: int, n: int, mid: seq<Region>, lo: int, hi: int, p: int, q: int, x: int)
    requires Tiled(list, lo, hi) && 0 <= i && 0 <= n && i + n <= |list| && lo <= x < hi
    requires Tiled(list[i..i + n], p, q) && Tiled(list[..i], lo, p) && Tiled(list[i + n..], q, hi) && Tiled(mid, p, q)
    ensures Tiled(Splice(list, i, n, mid), lo, hi)
    ensures AttrAt(Splice(list, i, n, mid), x) == if p <= x < q then AttrAt(mid, x) else AttrAt(list, x)
  {
    AttrThree(list[..i], mid, list[i + n..], lo, p, q, hi, x);
    AttrThree(list[..i], list[i..i + n], list[i + n..], lo, p, q, hi, x);
    assert list[..i] + list[i..i + n] + list[i + n..] == list;
  }

  /** The stretch of one or two regions from place `i` on, and what is around it. */
  lemma Around(list: seq<Region>, i: int, n: int, lo: int, hi: int)
    requires Tiled(list, lo, hi) && 0 <= i && 1 <= n <= 2 && i + n <= |list|
    ensures var p, q := list[i].base, End(list[i + n - 1]);
            Tiled(list[..i], lo, p) && Tiled(list[i..i + n], p, q) && Tiled(list[i + n..], q, hi)
    ensures list[i].size > 0 && lo <= list[i].base < End(list[i + n - 1]) <= hi && End(list[i]) <= hi
    ensures n == 2 ==> End(list[i]) == list[i + 1].base && list[i + 1].size > 0
  {
    var a, m, b := list[..i], list[i..i + n], list[i + n..];
    assert a + (m + b) == list;
    TiledSplit(a, m + b, lo, hi);
    TiledSplit(m, b, list[i].base, hi);
    TiledOrder(a, lo, list[i].base);
    TiledOrder(b, Seam(b, hi), hi);
    assert m[0] == list[i] && (n == 2 ==> m[1..] == [list[i + 1]]);
  }

  /** The attributes of every address, changed on `[p, q)` to what `mid` says. */
  ghost predicate Changed(list: seq<Region>, list': seq<Region>, lo: int, hi: int, p: int, q: int, attr: (int, bool))
  {
    forall x :: lo <= x < hi ==> AttrAt(list', x) == if p <= x < q then attr else AttrAt(list, x)
  }

  ghost predicate Same(list: seq<Region>, list': seq<Region>, lo: int, hi: int)
  {
    forall x :: lo <= x < hi ==> AttrAt(list', x) == AttrAt(list, x)
  }

  /** Replacing one region. */
  lemma ReplaceOne(list: seq<Region>, i: int, mid: seq<Region>, lo: int, hi: int)
    requires Tiled(list, lo, hi) && 0 <= i < |list| && Tiled(mid, list[i].base, End(list[i]))
    ensures Tiled(Splice(list, i, 1, mid), lo, hi)
    ensures forall x :: lo <= x < hi ==>
              AttrAt(Splice(list, i, 1, mid), x) == if InRegion(list[i], x) then AttrAt(mid, x) else AttrAt(list, x)
  {
    Around(list, i, 1, lo, hi);
    SpliceAttr(list, i, 1, mid, lo, hi, list[i].base, End(list[i]), list[i].base);
    forall x | lo <= x < hi
      ensures AttrAt(Splice(list, i, 1, mid), x) == if InRegion(list[i], x) then AttrAt(mid, x) else AttrAt(list, x)
    {
      SpliceAttr(list, i, 1, mid, lo, hi, list[i].base, End(list[i]), x);
    }
  }

  /** The attributes of the addresses of one region are its own. */
  lemma AttrInside(list: seq<Region>, i: int, lo: int, hi: int, x: int)
    requires Tiled(list, lo, hi) && 0 <= i < |list| && InRegion(list[i], x)
    ensures lo <= x < hi && AttrAt(list, x) == Attr(list[i])
  {
    Around(list, i, 1, lo, hi);
    AttrThree(list[..i], list[i..i + 1], list[i + 1..], lo, list[i].base, End(list[i]), hi, x);
    assert list[..i] + list[i..i + 1] + list[i + 1..] == list;
    assert list[i..i + 1][0] == list[i];
  }

  /** Two neighbours with the same attributes become one region: no attribute changes. */
  lemma MergeSame(list: seq<Region>, i: int, lo: int, hi: int)
    requires Tiled(list, lo, hi) && 0 <= i && i + 1 < |list| && Attr(list[i]) == Attr(list[i + 1])
    ensures var list' := Splice(list, i, 2, [list[i].(size := list[i].size + list[i + 1].size)]);
            Tiled(list', lo, hi) && Same(list, list', lo, hi)
  {
    var mid := [list[i].(size := list[i].size + list[i + 1].size)];
    var list' := Splice(list, i, 2, mid);
    Around(list, i, 2, lo, hi);
    var p, q := list[i].base, End(list[i + 1]);
    assert Tiled(mid[1..], q, q);
    SpliceAttr(list, i, 2, mid, lo, hi, p, q, p);
    forall x | lo <= x < hi ensures AttrAt(list', x) == AttrAt(list, x) {
      SpliceAttr(list, i, 2, mid, lo, hi, p, q, x);
      if p <= x < q {
        AttrInside(list, if x < End(list[i]) then i else i + 1, lo, hi, x);
      }
    }
  }
}
