/** The end of a process: the loop that closes its open files. */
module ProcessExit {
  import opened VnodeCounts
  import opened VnodeOps
  import opened HashChains
  import opened HashTable

  /** Every open file that names `v` belongs to process `pid`. */
  ghost predicate OnlyBy(live: Live, v: int, pid: int)
  {
    forall k :: k in live && live[k] == v ==> k.0 == pid
  }

  /** What the loop over a dying process's open files keeps of the counts: `todo` of them are left. */
  ghost predicate Closing(t0: VnodeCounts.Table, t: VnodeCounts.Table, open: map<Key, OpenFile>, pid: int, live: Live,
      todo: set<Key>)
  {
    && TableOk(t, live) && OnlyCloses(t0, t) && 0 !in t.dir
    && (forall k :: k in todo ==> k in open && k.0 == pid)
    && (forall k :: k in live <==> k in open && (k.0 != pid || k in todo))
    && (forall k :: k in live ==> live[k] == open[k].vnode)
  }

  lemma ClosingStep(t0: VnodeCounts.Table, t: VnodeCounts.Table, open: map<Key, OpenFile>, pid: int, live: Live,
      todo: set<Key>, k: Key)
    requires Closing(t0, t, open, pid, live, todo) && k in todo
    ensures open[k].vnode in t.vnodes && Closing(t0, Closed(t, open[k].vnode), open, pid, live - {k}, todo - {k})
  {
    assert live[k] in t.vnodes;
    CloseKeeps(t, live, k);
    ClosedOnlyCloses(t0, t, open[k].vnode);
  }

  /** What it keeps of the map of deleted paths: it only erased nodes without back pointers. */
  ghost predicate Backs(deleted0: HashChains.Table<int>, paths0: map<int, int>, deleted: HashChains.Table<int>,
      paths: map<int, int>)
  {
    && Shape(deleted0) && Rep(deleted, paths)
    && (forall v :: v in paths ==> v in paths0 && (HasBack(deleted, v) <==> HasBack(deleted0, v)))
    && (forall v :: v in paths0 && v !in paths ==> !HasBack(deleted0, v))
    && (Apart(deleted0) ==> Apart(deleted))
  }

  lemma BacksStep(deleted0: HashChains.Table<int>, paths0: map<int, int>, deleted: HashChains.Table<int>,
      paths: map<int, int>, v: int)
    requires Backs(deleted0, paths0, deleted, paths) && v in paths && !HasBack(deleted, v) &&
        Rep(Erased(deleted, v), paths - {v})
    ensures Backs(deleted0, paths0, Erased(deleted, v), paths - {v})
  {
    var deleted', paths' := Erased(deleted, v), paths - {v};
    forall w | w in paths' ensures w in paths0 && (HasBack(deleted', w) <==> HasBack(deleted0, w)) {
      EraseKeepsBack(deleted, paths, v, w);
    }
    if Apart(deleted) { ErasedApart(deleted, paths, v); }
  }

  /** A vnode on its last open file, one of this process's, was open in this process only. */
  lemma LastByProcess(t0: VnodeCounts.Table, t: VnodeCounts.Table, open: map<Key, OpenFile>, pid: int, live: Live,
      todo: set<Key>, k: Key)
    requires Closing(t0, t, open, pid, live, todo) && k in todo && open[k].vnode in t.vnodes &&
        t.vnodes[open[k].vnode].opens == 1
    ensures OnlyBy(LiveOf(open), open[k].vnode, pid)
  {
    var v := open[k].vnode;
    assert VnodeOk(t, live, v);
    assert k in Refs(live, v) && |Refs(live, v)| == 1;
    forall q | q in LiveOf(open) && LiveOf(open)[q] == v ensures q.0 == pid {
      if q.0 != pid {
        assert q in Refs(live, v);
        OnlyMember(Refs(live, v), k, q);
      }
    }
  }

  lemma OnlyMember(s: set<Key>, a: Key, b: Key)
    requires a in s && b in s && |s| == 1
    ensures a == b
  {
    assert |s - {a}| == 0;
    assert b !in s - {a};
  }

  /** Some deleted path that the end of `pid` erases has a node with its back pointer set. */
  ghost predicate ExitDangles(deleted: HashChains.Table<int>, paths: map<int, int>, live: Live, pid: int)
  {
    Shape(deleted) && exists v :: v in paths && OnlyBy(live, v, pid) && HasBack(deleted, v)
  }

  lemma AllClosed(t0: VnodeCounts.Table, t: VnodeCounts.Table, deleted0: HashChains.Table<int>,
      deleted: HashChains.Table<int>,
      open: map<Key, OpenFile>, pid: int, live: Live)
    requires Closing(t0, t, open, pid, live, {}) && Backs(deleted0, t0.paths, deleted, t.paths)
    ensures !ExitDangles(deleted0, t0.paths, LiveOf(open), pid) && live == LiveOf(WithoutProcess(open, pid))
  {
    forall v | v in t0.paths && OnlyBy(LiveOf(open), v, pid) ensures !HasBack(deleted0, v) {
      assert PathOk(t, v);
      ListedWhileOpen(t, live, v);
      assert forall k :: k in live ==> k in LiveOf(open) && LiveOf(open)[k] == live[k];
    }
  }

  /** The vnodes are exactly those that some other process than `pid` has open. */
  ghost predicate ListedByOthers(vnodes: map<int, Vnode>, open: map<Key, OpenFile>, pid: int)
  {
    forall v :: v in vnodes <==> exists k :: k in open && k.0 != pid && open[k].vnode == v
  }

  lemma OthersListed(t: VnodeCounts.Table, open: map<Key, OpenFile>, pid: int)
    requires TableOk(t, LiveOf(WithoutProcess(open, pid)))
    ensures ListedByOthers(t.vnodes, open, pid)
  {
    var live := LiveOf(WithoutProcess(open, pid));
    forall v ensures v in t.vnodes <==> exists k :: k in open && k.0 != pid && open[k].vnode == v {
      ListedWhileOpen(t, live, v);
      assert forall k :: k in live <==> k in open && k.0 != pid;
    }
  }

  /**
   Two files unlinked while open in one process, with vnodes 0 and 16: on 16 buckets the second path is behind the
   first.
   */
  function PendingPaths(p: int, q: int): HashChains.Table<int>
  {
    Inserted(Inserted(Empty(16), 0, p), 16, q)
  }

  lemma PendingTable(p: int, q: int)
    requires p != q
    ensures var t := VnodeCounts.Table(map[0 := Vnode(p, 1, true), 16 := Vnode(q, 1, true)], map[0 := p, 16 := q], map[p := p, q := q]);
            TableOk(t, map[(1, 0) := 0, (1, 1) := 16])
  {
    var t := VnodeCounts.Table(map[0 := Vnode(p, 1, true), 16 := Vnode(q, 1, true)], map[0 := p, 16 := q], map[p := p, q := q]);
    var live: Live := map[(1, 0) := 0, (1, 1) := 16];
    assert Refs(live, 0) == {(1, 0)} && Refs(live, 16) == {(1, 1)};
    assert p in t.dir && t.dir[p] == t.vnodes[0].file;
    assert q in t.dir && t.dir[q] == t.vnodes[16].file;
    forall v ensures VnodeOk(t, live, v) && PathOk(t, v) {
      assert v in t.vnodes ==> v == 0 || v == 16;
    }
  }

  lemma PendingShareBucket(p: int, q: int)
    requires p != q && p != 0 && q != 0
    ensures var live: Live := map[(1, 0) := 0, (1, 1) := 16];
            && Rep(PendingPaths(p, q), map[0 := p, 16 := q]) && HasBack(PendingPaths(p, q), 16)
            && ExitDangles(PendingPaths(p, q), map[0 := p, 16 := q], live, 1)
  {
    var live: Live := map[(1, 0) := 0, (1, 1) := 16];
    EmptyRep<int>(16);
    InsertedRep(Empty<int>(16), map[], 0, p);
    InsertedRep(Inserted(Empty<int>(16), 0, p), map[0 := p], 16, q);
    assert map[][0 := p] == map[0 := p];
    assert map[0 := p][16 := q] == map[0 := p, 16 := q];
    CollidingNodes(p, q);
    assert OnlyBy(live, 16, 1);
  }

  /** One open file of the process is closed, unless that erases from behind another node. */
  method CloseOne(vnodes: map<int, Vnode>, dir: map<int, int>, deleted: HashChains.Table<int>, open: map<Key,
      OpenFile>, pid: int, k: Key,
      ghost t0: VnodeCounts.Table, ghost deleted0: HashChains.Table<int>, ghost paths: map<int, int>, ghost live: Live, ghost todo: set<Key>)
    returns (sound: bool, vnodes': map<int, Vnode>, dir': map<int, int>, deleted': HashChains.Table<int>, ghost paths': map<int, int>)
    requires Closing(t0, VnodeCounts.Table(vnodes, paths, dir), open, pid, live, todo) && k in todo && k in open
    requires Backs(deleted0, t0.paths, deleted, paths)
    ensures sound ==> Closing(t0, VnodeCounts.Table(vnodes', paths', dir'), open, pid, live - {k}, todo - {k})
    ensures sound ==> Backs(deleted0, t0.paths, deleted', paths')
    ensures !sound ==> ExitDangles(deleted0, t0.paths, LiveOf(open), pid) && !Apart(deleted0)
  {
    var v := open[k].vnode;
    ghost var t := VnodeCounts.Table(vnodes, paths, dir);
    assert live[k] in vnodes;
    assert VnodeOk(t, live, v);
    ClosingStep(t0, t, open, pid, live, todo, k);
    sound := !(vnodes[v].opens == 1 && vnodes[v].deleted && HasBack(deleted, v));
    if sound {
      if vnodes[v].opens == 1 && v in paths {
        ErasedRep(deleted, paths, v);
        BacksStep(deleted0, t0.paths, deleted, paths, v);
      }
    } else {
      LastByProcess(t0, t, open, pid, live, todo, k);
      if Apart(deleted) { ErasedApart(deleted, paths, v); }
    }
    vnodes', dir', deleted', paths' := CloseOpenFile(vnodes, dir, deleted, v, paths, live, k);
  }

  /**
   The loop over a dying process's open files. It stops where a node behind another is erased: from there on nothing is
   said.
   */
  method CloseAll(vnodes0: map<int, Vnode>, dir0: map<int, int>, deleted0: HashChains.Table<int>, open: map<Key,
      OpenFile>,
      pid: int, ghost paths0: map<int, int>)
    returns (sound: bool, vnodes: map<int, Vnode>, dir: map<int, int>, deleted: HashChains.Table<int>, ghost paths: map<int, int>)
    requires TableOk(VnodeCounts.Table(vnodes0, paths0, dir0), LiveOf(open)) && 0 !in dir0 && Rep(deleted0, paths0)
    ensures sound <==> !ExitDangles(deleted0, paths0, LiveOf(open), pid)
    ensures Apart(deleted0) ==> sound && Apart(deleted)
    ensures sound ==> TableOk(VnodeCounts.Table(vnodes, paths, dir), LiveOf(WithoutProcess(open, pid))) && 0 !in dir && Rep(deleted, paths)
    ensures sound ==> OnlyCloses(VnodeCounts.Table(vnodes0, paths0, dir0), VnodeCounts.Table(vnodes, paths, dir))
    ensures sound ==> ListedByOthers(vnodes, open, pid)
  {
    vnodes, dir, deleted, paths := vnodes0, dir0, deleted0, paths0;
    ghost var t0 := VnodeCounts.Table(vnodes0, paths0, dir0);
    ghost var live := LiveOf(open);
    var todo := set k | k in open && k.0 == pid;
    NothingCloses(t0);
    while todo != {}
      invariant Closing(t0, VnodeCounts.Table(vnodes, paths, dir), open, pid, live, todo)
      invariant Backs(deleted0, paths0, deleted, paths)
      decreases |todo|
    {
      var k :| k in todo;
      sound, vnodes, dir, deleted, paths := CloseOne(vnodes, dir, deleted, open, pid, k, t0, deleted0, paths, live, todo);
      if !sound {
        return;
      }
      live, todo := live - {k}, todo - {k};
    }
    AllClosed(t0, VnodeCounts.Table(vnodes, paths, dir), deleted0, deleted, open, pid, live);
    OthersListed(VnodeCounts.Table(vnodes, paths, dir), open, pid);
    sound := true;
  }

  /**
   What the end of process `pid` leaves: the tables of the others, their vnodes, and the directory without the files
   that were unlinked under the vnodes now gone.
   */
  ghost predicate Exited(t: VnodeCounts.Table, open: map<Key, OpenFile>, fds: map<Key, int>,
      t': VnodeCounts.Table, open': map<Key, OpenFile>, fds': map<Key, int>, pid: int)
  {
    && open' == WithoutProcess(open, pid) && fds' == WithoutProcess(fds, pid)
    && OnlyCloses(t, t') && ListedByOthers(t'.vnodes, open, pid)
  }

  /** The end of process `pid`, on all the tables. */
  method ExitTables(vnodes: map<int, Vnode>, dir: map<int, int>, deleted: HashChains.Table<int>, open: map<Key,
      OpenFile>,
      fds: map<Key, int>, pid: int, ghost paths: map<int, int>)
    returns (sound: bool, vnodes': map<int, Vnode>, dir': map<int, int>, deleted': HashChains.Table<int>,
        open': map<Key, OpenFile>, fds': map<Key, int>, ghost paths': map<int, int>)
    requires TableOk(VnodeCounts.Table(vnodes, paths, dir), LiveOf(open)) && FilesOk(open, fds) && 0 !in dir &&
        Rep(deleted, paths)
    ensures sound <==> !ExitDangles(deleted, paths, LiveOf(open), pid)
    ensures Apart(deleted) ==> sound && Apart(deleted')
    ensures sound ==> TableOk(VnodeCounts.Table(vnodes', paths', dir'), LiveOf(open')) && FilesOk(open', fds') && 0 !in dir' && Rep(deleted', paths')
    ensures sound ==> Exited(VnodeCounts.Table(vnodes, paths, dir), open, fds, VnodeCounts.Table(vnodes', paths', dir'), open', fds', pid)
  {
    sound, vnodes', dir', deleted', paths' := CloseAll(vnodes, dir, deleted, open, pid, paths);
    ExitKeeps(open, fds, pid);
    open', fds' := WithoutProcess(open, pid), WithoutProcess(fds, pid);
  }
}
