/** What each step of `map_page` and `unmap_page` does to the tables, in terms of paths. */
module TableSteps {
  import opened PageTables

  const FRAMES := 0x100_0000_0000   // frame numbers are 40 bits wide

  ghost predicate TablesOk(mem: Memory, root: nat)
  {
    Tree(mem, root) && SelfMapped(mem, root)
  }

  /** A page outside the recursive slot. */
  predicate PagePath(q: Path)
  {
    IsPath(q) && |q| == 4
  }

  /** No page's translation differs between the two memories. */
  ghost predicate SamePages(mem: Memory, mem': Memory, root: nat)
  {
    forall q :: PagePath(q) ==> Follow(mem', root, q) == Follow(mem, root, q)
  }

  /** The buffer's pages, given by the paths of their addresses, lie on consecutive frames that hold no table. */
  ghost predicate BufferOk(mem: Memory, root: nat, pages: seq<Path>, frame: nat)
  {
    && frame + |pages| <= FRAMES
    && (forall k :: 0 <= k < |pages| ==> PagePath(pages[k]) && Follow(mem, root, pages[k]) == Frame(frame + k))
    && (forall g :: frame <= g < frame + |pages| ==> Unused(mem, root, g))
  }

  /** Frames that held no table hold none still, except perhaps those of [lo, hi). */
  ghost predicate UnusedKept(mem: Memory, mem': Memory, root: nat, lo: int, hi: int)
  {
    forall g :: Unused(mem, root, g) && !(lo <= g < hi) ==> Unused(mem', root, g)
  }

  /** Nothing that was there has moved. */
  ghost predicate Grown(mem: Memory, mem': Memory, root: nat)
  {
    forall q :: IsPath(q) && Follow(mem, root, q).Frame? ==> Follow(mem', root, q) == Follow(mem, root, q)
  }

  /** Every entry but the one at `q0` is as it was. */
  ghost predicate EntriesKept(mem: Memory, mem': Memory, root: nat, q0: Path)
  {
    forall q :: IsPath(q) && q != [] && q != q0 ==> EntryOf(mem', root, q) == EntryOf(mem, root, q)
  }

  /** A present entry keeps all its bits; one that appears takes no right away, and who may use it does not change. */
  predicate EntryRights(e: Entry, e': Entry)
  {
    e'.user == e.user && (e.present ==> e' == e) && (!e.present && e'.present ==> e'.writable && !e'.noExecute)
  }

  ghost predicate RightsKept(mem: Memory, mem': Memory, root: nat, but: seq<Path>)
  {
    forall q :: IsPath(q) && q != [] && q !in but ==> EntryRights(EntryOf(mem, root, q), EntryOf(mem', root, q))
  }

  lemma RightsThrough(mem: Memory, mem1: Memory, mem2: Memory, root: nat, a: seq<Path>, b: seq<Path>, c: seq<Path>)
    requires RightsKept(mem, mem1, root, a) && RightsKept(mem1, mem2, root, b)
    requires forall q :: q in a || q in b ==> q in c
    ensures RightsKept(mem, mem2, root, c)
  {
    forall q | IsPath(q) && q != [] && q !in c ensures EntryRights(EntryOf(mem, root, q), EntryOf(mem2, root, q)) {
      assert q !in a && q !in b;
      assert EntryRights(EntryOf(mem, root, q), EntryOf(mem1, root, q));
    }
  }

  /** One entry at a time. */
  lemma RightsStep(mem: Memory, mem': Memory, root: nat, q0: Path)
    requires EntriesKept(mem, mem', root, q0) && q0 != [] &&
        EntryRights(EntryOf(mem, root, q0), EntryOf(mem', root, q0))
    ensures RightsKept(mem, mem', root, [])
  {
    forall q | IsPath(q) && q != [] ensures EntryRights(EntryOf(mem, root, q), EntryOf(mem', root, q)) {
      if q != q0 { assert EntryOf(mem', root, q) == EntryOf(mem, root, q); }
    }
  }

  /** Hanging a cleared table on the absent entry at `p` and `i` writes that entry and no other. */
  lemma HungEntry(mem: Memory, mem1: Memory, root: nat, p: Path, i: int, f: nat, e: Entry, q: Path)
    requires TablesOk(mem, root) && IsPath(p) && |p| <= 2 && IsPath(p + [i]) && Follow(mem, root, p).Frame?
    requires Follow(mem, root, p + [i]) == Missing && Unused(mem, root, f) && Cleared(mem, mem1, f) && e.present &&
        e.frame == f
    requires Attached(mem1, mem1[(Follow(mem, root, p).frame, i) := e], root, p, i, f) && IsPath(q) && q != []
    requires forall r :: IsPath(r) ==> Follow(mem1, root, r) == Follow(mem, root, r)
    ensures EntryOf(mem1[(Follow(mem, root, p).frame, i) := e], root, q) == if q == p + [i] then e else EntryOf(mem, root, q)
  {
    var t := Follow(mem, root, p).frame;
    var mem' := mem1[(t, i) := e];
    var q', last := q[..|q| - 1], q[|q| - 1];
    assert IsPath(q') && q == q' + [last];
    if q' == p + [i] {
      assert Avoids(mem, root, p, f);
      assert Read(mem', f, last) == Read(mem1, f, last) == ZERO;
    } else if Through(q', p, i) {
      assert q'[..|p| + 1] == p + [i];
      MissingBeyond(mem, root, p + [i], q');
    } else {
      assert Follow(mem', root, q') == Follow(mem, root, q');
      if Follow(mem, root, q').Frame? { OtherEntry(mem, mem1, root, p, i, f, e, q', last); }
    }
  }

  /** The entries of another table, or other entries of the same. */
  lemma OtherEntry(mem: Memory, mem1: Memory, root: nat, p: Path, i: int, f: nat, e: Entry, q: Path, last: int)
    requires Tree(mem, root) && IsPath(p) && |p| <= 2 && Follow(mem, root, p).Frame? && IsPath(q) && |q| <= 3
    requires Unused(mem, root, f) && Cleared(mem, mem1, f) && Follow(mem, root, q).Frame?
    ensures Read(mem1[(Follow(mem, root, p).frame, i) := e], Follow(mem, root, q).frame, last) ==
            if q == p && last == i then e else Read(mem, Follow(mem, root, q).frame, last)
  {
    assert Avoids(mem, root, q, f) && Differ(mem, root, q, p);
    assert Read(mem1, Follow(mem, root, q).frame, last) == Read(mem, Follow(mem, root, q).frame, last);
  }

  /** What clearing the first buffer page and hanging it on the missing entry of `path` at depth `k` does. */
  lemma GrowTables(mem: Memory, mem1: Memory, root: nat, path: Path, k: int, f: nat, e: Entry) returns (mem': Memory)
    requires TablesOk(mem, root) && PagePath(path) && 0 <= k < 3
    requires Follow(mem, root, path[..k]).Frame? && Follow(mem, root, path[..k + 1]) == Missing
    requires Unused(mem, root, f) && Cleared(mem, mem1, f) && e.present && e.frame == f
    ensures Follow(mem1, root, path[..k]) == Follow(mem, root, path[..k]) && SelfMapped(mem1, root)
    ensures mem' == mem1[(Follow(mem, root, path[..k]).frame, path[k]) := e]
    ensures TablesOk(mem', root) && SamePages(mem, mem', root)
    ensures Follow(mem', root, path[..k + 1]) == Frame(f)
    ensures forall j :: k + 1 < j <= 4 ==> Follow(mem', root, path[..j]) == Missing
    ensures forall g :: g != f && Unused(mem, root, g) ==> Unused(mem', root, g)
    ensures Grown(mem, mem', root)
    ensures EntriesKept(mem, mem', root, path[..k + 1]) && EntryOf(mem', root, path[..k + 1]) == e
  {
    var p, i := path[..k], path[k];
    assert p + [i] == path[..k + 1] && IsPath(p) && IsPath(p + [i]);
    ClearKeeps(mem, mem1, root, f);
    var t := Follow(mem1, root, p).frame;
    mem' := mem1[(t, i) := e];
    assert forall j :: 0 <= j < ENTRIES ==> Read(mem1, f, j) == ZERO;
    AttachTable(mem1, root, p, i, f, e);
    AttachedKeepsTree(mem1, mem', root, p, i, f);
    forall q | PagePath(q) ensures Follow(mem', root, q) == Follow(mem, root, q) {
      AttachedKeepsPages(mem1, mem', root, p, i, f, q);
    }
    forall j | k + 1 < j <= 4 ensures Follow(mem', root, path[..j]) == Missing {
      assert IsPath(path[..j]) && Through(path[..j], p, i);
    }
    SelfSurvives(mem1, root, p, i, e);
    forall q | IsPath(q) && Follow(mem, root, q).Frame? ensures Follow(mem', root, q) == Follow(mem, root, q) {
      if Through(q, p, i) {
        assert q[..k + 1] == p + [i];
        MissingBeyond(mem, root, p + [i], q);
      }
    }
    forall q | IsPath(q) && q != [] ensures EntryOf(mem', root, q) == if q == p + [i] then e else EntryOf(mem, root, q) {
      HungEntry(mem, mem1, root, p, i, f, e, q);
    }
  }

  /** Entries outside the recursive slot are not the recursive entry. */
  lemma SelfSurvives(mem: Memory, root: nat, p: Path, i: int, e: Entry)
    requires TablesOk(mem, root) && IsPath(p) && |p| <= 3 && IsPath(p + [i]) && Follow(mem, root, p).Frame?
    ensures SelfMapped(mem[(Follow(mem, root, p).frame, i) := e], root)
  {
    if Follow(mem, root, p).frame == root {
      assert Differ(mem, root, p, []);
      assert p == [];
      assert i == (p + [i])[0];
    }
  }

  /** Taking the first page off the buffer leaves a buffer for the grown tables. */
  lemma RestOfBuffer(mem: Memory, mem': Memory, root: nat, pages: seq<Path>, frame: nat)
    requires BufferOk(mem, root, pages, frame) && pages != [] && SamePages(mem, mem', root)
    requires forall g :: g != frame && Unused(mem, root, g) ==> Unused(mem', root, g)
    ensures BufferOk(mem', root, pages[1..], frame + 1)
  {
  }

  /** How many tables are missing on the way to the page. */
  function MissingTables(mem: Memory, root: nat, path: Path): int
    requires |path| == 4
  {
    if Follow(mem, root, path[..1]) == Missing then 3
    else if Follow(mem, root, path[..2]) == Missing then 2
    else if Follow(mem, root, path[..3]) == Missing then 1
    else 0
  }

  /**
   The tables down to depth `k` are there; the steps so far used as many pages as the difference in missing tables.
   */
  ghost predicate Built(mem0: Memory, mem: Memory, root: nat, path: Path, k: int, pages0: seq<Path>, pages: seq<Path>,
      frame0: nat, frame: nat)
    requires |path| == 4 && 0 <= k <= 3
  {
    && TablesOk(mem, root) && SamePages(mem0, mem, root) && BufferOk(mem, root, pages, frame)
    && Follow(mem, root, path[..k]).Frame?
    && |pages0| - |pages| == frame - frame0 == MissingTables(mem0, root, path) - MissingTables(mem, root, path)
    && |pages| <= |pages0| && pages == pages0[|pages0| - |pages|..]
    && UnusedKept(mem0, mem, root, frame0, frame) && Grown(mem0, mem, root) && (frame == frame0 ==> mem == mem0)
    && RightsKept(mem0, mem, root, [])
  }

  lemma BuildStart(mem: Memory, root: nat, path: Path, pages: seq<Path>, frame: nat)
    requires TablesOk(mem, root) && PagePath(path) && BufferOk(mem, root, pages, frame)
    ensures Built(mem, mem, root, path, 0, pages, pages, frame, frame)
  {
  }

  /** The entry at depth `k` is present: nothing to do. */
  lemma BuildPresent(mem0: Memory, mem: Memory, root: nat, path: Path, k: int, pages0: seq<Path>, pages: seq<Path>,
      frame0: nat, frame: nat)
    requires PagePath(path) && 0 <= k < 3 && Built(mem0, mem, root, path, k, pages0, pages, frame0, frame)
    requires Follow(mem, root, path[..k + 1]).Frame?
    ensures Built(mem0, mem, root, path, k + 1, pages0, pages, frame0, frame)
  {
  }

  /** The entry at depth `k` is absent and a page was hung there. */
  lemma BuildGrown(mem0: Memory, mem: Memory, mem1: Memory, root: nat, path: Path, k: int, pages0: seq<Path>,
      pages: seq<Path>, frame0: nat, frame: nat, e: Entry)
    returns (mem': Memory)
    requires PagePath(path) && 0 <= k < 3 && Built(mem0, mem, root, path, k, pages0, pages, frame0, frame)
    requires Follow(mem, root, path[..k + 1]) == Missing && pages != []
    requires Cleared(mem, mem1, frame) && e.present && e.frame == frame
    requires EntryRights(EntryOf(mem, root, path[..k + 1]), e)
    ensures Follow(mem1, root, path[..k]) == Follow(mem, root, path[..k]) && SelfMapped(mem1, root)
    ensures mem' == mem1[(Follow(mem, root, path[..k]).frame, path[k]) := e]
    ensures Built(mem0, mem', root, path, k + 1, pages0, pages[1..], frame0, frame + 1)
  {
    mem' := GrowTables(mem, mem1, root, path, k, frame, e);
    RestOfBuffer(mem, mem', root, pages, frame);
    MissingDrops(mem, mem', root, path, k, frame);
    GrownTwice(mem0, mem, mem', root, frame0, frame);
    RightsStep(mem, mem', root, path[..k + 1]);
    RightsThrough(mem0, mem, mem', root, [], [], []);
    assert pages[1..] == pages0[|pages0| - |pages[1..]|..];
  }

  lemma GrownTwice(mem0: Memory, mem: Memory, mem': Memory, root: nat, frame0: nat, frame: nat)
    requires frame0 <= frame && UnusedKept(mem0, mem, root, frame0, frame) && Grown(mem0, mem, root) &&
        Grown(mem, mem', root)
    requires forall g :: g != frame && Unused(mem, root, g) ==> Unused(mem', root, g)
    ensures UnusedKept(mem0, mem', root, frame0, frame + 1) && Grown(mem0, mem', root)
  {
  }

  /** Hanging the table missing at depth `k` leaves one table less to build. */
  lemma MissingDrops(mem: Memory, mem': Memory, root: nat, path: Path, k: int, f: nat)
    requires PagePath(path) && 0 <= k < 3
    requires Follow(mem, root, path[..k]).Frame? && Follow(mem, root, path[..k + 1]) == Missing
    requires Follow(mem', root, path[..k + 1]) == Frame(f)
    requires forall j :: k + 1 < j <= 4 ==> Follow(mem', root, path[..j]) == Missing
    ensures MissingTables(mem', root, path) == MissingTables(mem, root, path) - 1 == 2 - k
  {
    assert forall j :: 0 < j <= k ==> Follow(mem, root, path[..j]).Frame? by {
      forall j | 0 < j <= k ensures Follow(mem, root, path[..j]).Frame? {
        if Follow(mem, root, path[..j]) == Missing {
          assert path[..k][..j] == path[..j];
          MissingBeyond(mem, root, path[..j], path[..k]);
        }
      }
    }
    assert forall j :: 0 < j <= k + 1 ==> Follow(mem', root, path[..j]).Frame? by {
      forall j | 0 < j <= k + 1 ensures Follow(mem', root, path[..j]).Frame? {
        if Follow(mem', root, path[..j]) == Missing {
          assert path[..k + 1][..j] == path[..j];
          MissingBeyond(mem', root, path[..j], path[..k + 1]);
        }
      }
    }
  }

  // ----- the page's own entry

  /** Only the page's own entry, and so its translation, differs. */
  ghost predicate LeafOnly(mem: Memory, mem': Memory, root: nat, path: Path)
  {
    && TablesOk(mem', root) && UnusedKept(mem, mem', root, 0, 0) && EntriesKept(mem, mem', root, path)
    && forall q :: IsPath(q) && q != path ==> Follow(mem', root, q) == Follow(mem, root, q)
  }

  /** Writing the page's entry changes that page's translation and nothing else. */
  lemma LeafStore(mem: Memory, root: nat, path: Path, e: Entry)
    requires TablesOk(mem, root) && PagePath(path) && Follow(mem, root, path[..3]).Frame?
    ensures var mem' := mem[(Follow(mem, root, path[..3]).frame, path[3]) := e];
            && LeafOnly(mem, mem', root, path)
            && Follow(mem', root, path) == (if e.present then Frame(e.frame) else Missing)
            && EntryOf(mem', root, path) == e
  {
    var p, i := path[..3], path[3];
    var mem' := mem[(Follow(mem, root, p).frame, i) := e];
    assert p + [i] == path && IsPath(p);
    StoreHere(mem, root, p, i, e);
    forall q | IsPath(q) && q != path
      ensures Follow(mem', root, q) == Follow(mem, root, q)
    {
      assert Through(q, p, i) ==> q == p + [i];
      StoreElsewhere(mem, root, p, i, e, q);
    }
    forall q, r ensures Differ(mem', root, q, r) { assert Differ(mem, root, q, r); }
    forall q, g | Unused(mem, root, g) ensures Avoids(mem', root, q, g) { assert Avoids(mem, root, q, g); }
    SelfSurvives(mem, root, p, i, e);
    forall q | IsPath(q) && q != [] && q != path ensures EntryOf(mem', root, q) == EntryOf(mem, root, q) {
      var q' := q[..|q| - 1];
      assert q == q' + [q[|q| - 1]] && IsPath(q') && q' != path;
      assert Differ(mem, root, q', p);
    }
  }

  lemma LeafRights(mem: Memory, mem': Memory, root: nat, path: Path)
    requires LeafOnly(mem, mem', root, path)
    ensures RightsKept(mem, mem', root, [path])
  {
    forall q | IsPath(q) && q != [] && q !in [path] ensures EntryRights(EntryOf(mem, root, q), EntryOf(mem', root, q)) {
      assert q != path;
    }
  }

  /** Every level of the walk through the first `n` allows writing, or execution. */
  predicate WalkWrites(mem: Memory, root: nat, path: Path, n: int)
    requires 0 <= n <= |path|
  {
    forall k :: 1 <= k <= n ==> EntryOf(mem, root, path[..k]).writable
  }

  predicate WalkExecutes(mem: Memory, root: nat, path: Path, n: int)
    requires 0 <= n <= |path|
  {
    forall k :: 1 <= k <= n ==> !EntryOf(mem, root, path[..k]).noExecute
  }

  /**
   The rights of a walk are what all its levels allow (section 4.6 of Intel SDM Volume 3A): above the page they are exactly
   what the levels that were there before allowed, so the new ones take nothing away.
   */
  lemma NewLevelsTakeNothing(mem: Memory, mem': Memory, root: nat, path: Path, but: seq<Path>)
    requires PagePath(path) && RightsKept(mem, mem', root, but) && (forall q :: q in but ==> |q| == 4)
    requires Follow(mem', root, path[..3]).Frame?
    ensures WalkWrites(mem', root, path, 3) <==>
              forall k :: 1 <= k <= 3 && EntryOf(mem, root, path[..k]).present ==>
                  EntryOf(mem, root, path[..k]).writable
    ensures WalkExecutes(mem', root, path, 3) <==>
              forall k :: 1 <= k <= 3 && EntryOf(mem, root, path[..k]).present ==>
                  !EntryOf(mem, root, path[..k]).noExecute
  {
    forall k | 1 <= k <= 3
      ensures EntryRights(EntryOf(mem, root, path[..k]), EntryOf(mem', root, path[..k])) &&
          EntryOf(mem', root, path[..k]).present
    {
      var q := path[..k];
      assert IsPath(q) && q !in but;
      assert path[..3][..k] == q;
      if Follow(mem', root, q) == Missing {
        MissingBeyond(mem', root, q, path[..3]);
      }
    }
  }

  /** The page translates to `frame`; every other page outside the recursive slot translates as before. */
  ghost predicate Mapped(mem: Memory, mem': Memory, root: nat, path: Path, frame: Frame)
  {
    && TablesOk(mem', root)
    && Follow(mem', root, path) == frame
    && forall q :: PagePath(q) && q != path ==> Follow(mem', root, q) == Follow(mem, root, q)
  }

  /** A buffer the page is not part of is one still. */
  lemma BufferAfterLeaf(mem: Memory, mem': Memory, root: nat, path: Path, pages: seq<Path>, frame: nat)
    requires BufferOk(mem, root, pages, frame) && LeafOnly(mem, mem', root, path) && path !in pages
    ensures BufferOk(mem', root, pages, frame)
  {
  }

  lemma MappedAfter(mem0: Memory, mem: Memory, mem': Memory, root: nat, path: Path, frame: Frame)
    requires SamePages(mem0, mem, root) && Mapped(mem, mem', root, path, frame)
    ensures Mapped(mem0, mem', root, path, frame)
  {
  }

  /** Unmapping a page that had no translation before it was mapped restores every translation. */
  lemma UnmapUndoesMap(mem: Memory, mem1: Memory, mem2: Memory, root: nat, path: Path, frame: Frame)
    requires PagePath(path) && Follow(mem, root, path) == Missing
    requires Mapped(mem, mem1, root, path, frame) && Mapped(mem1, mem2, root, path, Missing)
    ensures SamePages(mem, mem2, root)
  {
  }
}
