/**
 Four-level page tables in physical memory, as the hardware walks them (section 4.5 of Intel SDM Volume 3A).
 A table is a frame of 512 entries; it is named by the path of indices that leads to it from the PML4.
 Slot 511 of the PML4 points to the PML4 itself, so paths through it are set apart.
 */
module PageTables {

  const ENTRIES := 512
  const SELF := 511

  /** The fields of an entry the walk and the kernel use. All levels share the layout. */
  datatype Entry = Entry(present: bool, writable: bool, user: bool, noExecute: bool, frame: nat)

  const ZERO := Entry(false, false, false, false, 0)

  /** Physical memory that holds entries, by frame and index in the frame. */
  type Memory = map<(int, int), Entry>

  datatype Frame = Missing | Frame(frame: nat)

  function Read(mem: Memory, frame: int, i: int): Entry
  {
    if (frame, i) in mem then mem[(frame, i)] else ZERO
  }

  type Path = seq<int>

  predicate Indices(p: Path)
  {
    forall i :: 0 <= i < |p| ==> 0 <= p[i] < ENTRIES
  }

  /** A path of the tree proper: at most four indices, not through the recursive slot. */
  predicate IsPath(p: Path)
  {
    |p| <= 4 && Indices(p) && (p != [] ==> p[0] != SELF)
  }

  /** The frame `p` leads to: a table for up to three indices, the page for four. */
  function Follow(mem: Memory, root: nat, p: Path): Frame
  {
    if p == [] then Frame(root) else
    match Follow(mem, root, p[..|p| - 1])
    case Missing => Missing
    case Frame(t) =>
      var e := Read(mem, t, p[|p| - 1]);
      if e.present then Frame(e.frame) else Missing
  }

  /** The entry at the end of `q`; a table that is not there has none. */
  function EntryOf(mem: Memory, root: nat, q: Path): Entry
    requires q != []
  {
    match Follow(mem, root, q[..|q| - 1])
    case Missing => ZERO
    case Frame(t) => Read(mem, t, q[|q| - 1])
  }

  /** If both paths lead to tables, they lead to different frames. */
  predicate Differ(mem: Memory, root: nat, p: Path, q: Path)
  {
    IsPath(p) && IsPath(q) && |p| <= 3 && |q| <= 3 && p != q && Follow(mem, root, p).Frame? && Follow(mem, root, q).Frame? ==>
      Follow(mem, root, p) != Follow(mem, root, q)
  }

  /** Different paths to tables lead to different frames. */
  ghost predicate Tree(mem: Memory, root: nat)
  {
    forall p, q :: Differ(mem, root, p, q)
  }

  /** If `p` leads to a table, it is not in `frame`. */
  predicate Avoids(mem: Memory, root: nat, p: Path, frame: int)
  {
    IsPath(p) && |p| <= 3 && Follow(mem, root, p).Frame? ==> Follow(mem, root, p).frame != frame
  }

  /** No table is in `frame`. */
  ghost predicate Unused(mem: Memory, root: nat, frame: int)
  {
    forall p :: Avoids(mem, root, p, frame)
  }

  predicate SelfMapped(mem: Memory, root: nat)
  {
    Read(mem, root, SELF).present && Read(mem, root, SELF).frame == root
  }

  /** `p` then `i` is a prefix of `q`. */
  predicate Through(q: Path, p: Path, i: int)
  {
    |q| > |p| && q[..|p|] == p && q[|p|] == i
  }

  // ----- writing one entry

  /** Writing entry `i` of the table at `p` changes only what is reached through it. */
  lemma {:induction false} StoreElsewhere(mem: Memory, root: nat, p: Path, i: int, e: Entry, q: Path)
    requires Tree(mem, root) && IsPath(p) && |p| <= 3 && IsPath(q) && Follow(mem, root, p).Frame?
    requires !Through(q, p, i)
    ensures Follow(mem[(Follow(mem, root, p).frame, i) := e], root, q) == Follow(mem, root, q)
  {
    if q != [] {
      var q', last := q[..|q| - 1], q[|q| - 1];
      assert !Through(q', p, i);
      StoreElsewhere(mem, root, p, i, e, q');
      assert Differ(mem, root, q', p);
    }
  }

  /** What is reached through a written entry: nothing if it is absent, the frame it names if `q` ends there. */
  lemma StoreHere(mem: Memory, root: nat, p: Path, i: int, e: Entry)
    requires Tree(mem, root) && IsPath(p) && |p| <= 3 && IsPath(p + [i]) && Follow(mem, root, p).Frame?
    ensures Follow(mem[(Follow(mem, root, p).frame, i) := e], root, p + [i]) == if e.present then Frame(e.frame) else Missing
  {
    assert (p + [i])[..|p|] == p;
    StoreElsewhere(mem, root, p, i, e, p);
  }

  /** Nothing is found beyond a missing frame. */
  lemma {:induction false} MissingBeyond(mem: Memory, root: nat, p: Path, q: Path)
    requires Follow(mem, root, p) == Missing && |p| <= |q| && q[..|p|] == p
    ensures Follow(mem, root, q) == Missing
  {
    if |q| == |p| {
      assert q == p;
    } else {
      assert q[..|q| - 1][..|p|] == p;
      MissingBeyond(mem, root, p, q[..|q| - 1]);
    }
  }

  // ----- clearing and attaching a table

  /** Frame `f` holds 512 absent entries; the rest of memory is as it was. */
  ghost predicate Cleared(mem: Memory, mem': Memory, f: int)
  {
    forall t, i :: Read(mem', t, i) == if t == f && 0 <= i < ENTRIES then ZERO else Read(mem, t, i)
  }

  lemma {:induction false} ClearElsewhere(mem: Memory, mem': Memory, root: nat, f: nat, q: Path)
    requires Cleared(mem, mem', f) && Unused(mem, root, f) && IsPath(q)
    ensures Follow(mem', root, q) == Follow(mem, root, q)
  {
    if q != [] {
      var q', last := q[..|q| - 1], q[|q| - 1];
      ClearElsewhere(mem, mem', root, f, q');
      if Follow(mem, root, q').Frame? {
        assert Avoids(mem, root, q', f);
        assert Read(mem', Follow(mem, root, q').frame, last) == Read(mem, Follow(mem, root, q').frame, last);
      }
    }
  }

  lemma ClearKeeps(mem: Memory, mem': Memory, root: nat, f: nat)
    requires Cleared(mem, mem', f) && Unused(mem, root, f) && Tree(mem, root) && SelfMapped(mem, root)
    ensures Tree(mem', root) && SelfMapped(mem', root) && Unused(mem', root, f)
    ensures forall q :: IsPath(q) ==> Follow(mem', root, q) == Follow(mem, root, q)
    ensures forall g :: Unused(mem, root, g) ==> Unused(mem', root, g)
  {
    forall q | IsPath(q) ensures Follow(mem', root, q) == Follow(mem, root, q) {
      ClearElsewhere(mem, mem', root, f, q);
    }
    forall p, q ensures Differ(mem', root, p, q) { assert Differ(mem, root, p, q); }
    forall p, g | Unused(mem, root, g) ensures Avoids(mem', root, p, g) { assert Avoids(mem, root, p, g); }
    assert Avoids(mem, root, [], f);
    assert Read(mem', root, SELF) == Read(mem, root, SELF);
  }

  /** `mem'` is `mem` with the empty table in frame `f` hung on entry `i` of the table at `p`. */
  ghost predicate Attached(mem: Memory, mem': Memory, root: nat, p: Path, i: int, f: nat)
  {
    && Follow(mem', root, p + [i]) == Frame(f)
    && (forall q :: IsPath(q) && !Through(q, p, i) ==> Follow(mem', root, q) == Follow(mem, root, q))
    && (forall q :: IsPath(q) && Through(q, p, i) && |q| > |p| + 1 ==> Follow(mem', root, q) == Missing)
  }

  lemma AttachTable(mem: Memory, root: nat, p: Path, i: int, f: nat, e: Entry)
    requires Tree(mem, root) && IsPath(p) && |p| <= 2 && IsPath(p + [i]) && Follow(mem, root, p).Frame?
    requires forall j :: 0 <= j < ENTRIES ==> Read(mem, f, j) == ZERO
    requires Unused(mem, root, f) && e.present && e.frame == f
    ensures Attached(mem, mem[(Follow(mem, root, p).frame, i) := e], root, p, i, f)
  {
    var t := Follow(mem, root, p).frame;
    var mem' := mem[(t, i) := e];
    assert Avoids(mem, root, p, f);
    assert forall j :: 0 <= j < ENTRIES ==> Read(mem', f, j) == ZERO by {
      forall j | 0 <= j < ENTRIES ensures Read(mem', f, j) == ZERO { assert Read(mem, f, j) == ZERO; }
    }
    StoreHere(mem, root, p, i, e);
    forall q | IsPath(q) && !Through(q, p, i)
      ensures Follow(mem', root, q) == Follow(mem, root, q)
    {
      StoreElsewhere(mem, root, p, i, e, q);
    }
    forall q | IsPath(q) && Through(q, p, i) && |q| > |p| + 1
      ensures Follow(mem', root, q) == Missing
    {
      assert 0 <= q[|p| + 1] < ENTRIES;
      EmptyBeyond(mem', root, p, i, f, q);
    }
  }

  lemma EmptyBeyond(mem: Memory, root: nat, p: Path, i: int, f: nat, q: Path)
    requires Follow(mem, root, p + [i]) == Frame(f) && Through(q, p, i) && |q| > |p| + 1
    requires Read(mem, f, q[|p| + 1]) == ZERO
    ensures Follow(mem, root, q) == Missing
  {
    var r := q[..|p| + 2];
    assert r[..|r| - 1] == p + [i];
    MissingBeyond(mem, root, r, q);
  }

  lemma AttachedKeepsTree(mem: Memory, mem': Memory, root: nat, p: Path, i: int, f: nat)
    requires Tree(mem, root) && Unused(mem, root, f) && IsPath(p + [i]) && Attached(mem, mem', root, p, i, f)
    ensures Tree(mem', root)
    ensures forall g :: g != f && Unused(mem, root, g) ==> Unused(mem', root, g)
  {
    forall q | IsPath(q) && |q| <= 3 && Follow(mem', root, q).Frame?
      ensures q == p + [i] || (Follow(mem, root, q) == Follow(mem', root, q) && Follow(mem, root, q).frame != f)
    {
      if Through(q, p, i) {
        assert |q| == |p| + 1 && q == p + [i];
      }
      assert Avoids(mem, root, q, f);
    }
    forall q, r ensures Differ(mem', root, q, r) { assert Differ(mem, root, q, r); }
    forall q, g | g != f && Unused(mem, root, g) ensures Avoids(mem', root, q, g) { assert Avoids(mem, root, q, g); }
  }

  /** Hanging an empty table where none was changes no page's translation. */
  lemma AttachedKeepsPages(mem: Memory, mem': Memory, root: nat, p: Path, i: int, f: nat, q: Path)
    requires Attached(mem, mem', root, p, i, f) && Follow(mem, root, p + [i]) == Missing
    requires IsPath(q) && |q| > |p| + 1
    ensures Follow(mem', root, q) == Follow(mem, root, q)
  {
    if Through(q, p, i) {
      assert q[..|p| + 1] == p + [i];
      MissingBeyond(mem, root, p + [i], q);
    }
  }
}
