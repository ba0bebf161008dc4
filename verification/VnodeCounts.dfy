/** Vnodes, the open files that name them, and the descriptors that name those. */
module VnodeCounts {

  /** `file` is the file system's own name for the file (an inode). */
  datatype Vnode = Vnode(file: int, opens: int, deleted: bool)

  /** A process and an index in one of its tables. */
  type Key = (int, int)

  datatype OpenFile = OpenFile(vnode: int, descriptors: int)

  type Live = map<Key, int>

  /** The open files that name vnode `v`. */
  function Refs(live: Live, v: int): set<Key>
  {
    set k | k in live && live[k] == v
  }

  /** The descriptors of an open file. */
  function FdsOf(fds: map<Key, int>, k: Key): set<Key>
  {
    set d | d in fds && d.0 == k.0 && fds[d] == k.1
  }

  /** `dir` names files by path; a path that was unlinked while its file was open is in `paths`. */
  datatype Table = Table(vnodes: map<int, Vnode>, paths: map<int, int>, dir: map<int, int>)

  predicate VnodeOk(t: Table, live: Live, v: int)
  {
    v in t.vnodes ==>
      && 0 <= v && t.vnodes[v].opens == |Refs(live, v)| && t.vnodes[v].opens > 0
      && (t.vnodes[v].deleted <==> v in t.paths)
      && exists p :: p in t.dir && t.dir[p] == t.vnodes[v].file
  }

  predicate PathOk(t: Table, v: int)
  {
    v in t.paths ==> v in t.vnodes && t.paths[v] in t.dir && t.dir[t.paths[v]] == t.vnodes[v].file
  }

  predicate OneVnodePerFile(vnodes: map<int, Vnode>)
  {
    forall v, w :: v in vnodes && w in vnodes && vnodes[v].file == vnodes[w].file ==> v == w
  }

  predicate OnePathPerFile(dir: map<int, int>)
  {
    forall p, q :: p in dir && q in dir && dir[p] == dir[q] ==> p == q
  }

  /** What the vnode table keeps; `live` are the open files not yet closed. */
  ghost predicate TableOk(t: Table, live: Live)
  {
    && (forall k :: k in live ==> live[k] in t.vnodes)
    && (forall v :: VnodeOk(t, live, v)) && (forall v :: PathOk(t, v))
    && OneVnodePerFile(t.vnodes) && OnePathPerFile(t.dir)
  }

  predicate OpenFileOk(open: map<Key, OpenFile>, fds: map<Key, int>, k: Key)
  {
    k in open ==> open[k].descriptors == |FdsOf(fds, k)| && open[k].descriptors > 0
  }

  /** What the processes' tables keep. */
  ghost predicate FilesOk(open: map<Key, OpenFile>, fds: map<Key, int>)
  {
    (forall k :: OpenFileOk(open, fds, k)) && (forall d :: d in fds ==> (d.0, fds[d]) in open)
  }

  function LiveOf(open: map<Key, OpenFile>): Live
  {
    map k | k in open :: open[k].vnode
  }

  /** Vnode `w` of the file has one open file more, or is new and has one; no other vnode changes. */
  predicate OneMoreOpen(vnodes: map<int, Vnode>, vnodes': map<int, Vnode>, file: int, w: int)
  {
    && vnodes'.Keys == vnodes.Keys + {w}
    && (forall v :: v in vnodes && v != w ==> vnodes'[v] == vnodes[v])
    && if exists v :: v in vnodes && vnodes[v].file == file
       then w in vnodes && vnodes[w].file == file && vnodes'[w] == Vnode(file, vnodes[w].opens + 1, vnodes[w].deleted)
       else w !in vnodes && vnodes'[w] == Vnode(file, 1, false)
  }

  // ----- references come and go

  lemma RefsGain(live: Live, k: Key, v: int, w: int)
    requires k !in live
    ensures Refs(live[k := v], w) == if w == v then Refs(live, w) + {k} else Refs(live, w)
    ensures |Refs(live[k := v], w)| == |Refs(live, w)| + if w == v then 1 else 0
  {
  }

  lemma RefsLose(live: Live, k: Key, w: int)
    requires k in live
    ensures |Refs(live - {k}, w)| == |Refs(live, w)| - if live[k] == w then 1 else 0
  {
    assert Refs(live - {k}, w) == if live[k] == w then Refs(live, w) - {k} else Refs(live, w);
  }

  /** An erased vnode has no reference left. */
  lemma NoRefs(live: Live, w: int)
    requires |Refs(live, w)| == 0
    ensures forall k :: k in live ==> live[k] != w
  {
    forall k | k in live ensures live[k] != w {
      assert live[k] == w ==> k in Refs(live, w);
    }
  }

  // ----- the table steps

  /** One more open file on a vnode of the table. */
  lemma ReferenceKeeps(t: Table, live: Live, k: Key, v: int)
    requires TableOk(t, live) && k !in live && v in t.vnodes
    ensures TableOk(t.(vnodes := t.vnodes[v := t.vnodes[v].(opens := t.vnodes[v].opens + 1)]), live[k := v])
  {
    var t', live' := t.(vnodes := t.vnodes[v := t.vnodes[v].(opens := t.vnodes[v].opens + 1)]), live[k := v];
    forall w ensures VnodeOk(t', live', w) {
      assert VnodeOk(t, live, w);
      RefsGain(live, k, v, w);
    }
    forall w ensures PathOk(t', w) {
      assert PathOk(t, w);
    }
  }

  /** A vnode made for a file that has none, with its first open file. */
  lemma NewVnodeKeeps(t: Table, live: Live, k: Key, v: int, file: int)
    requires TableOk(t, live) && k !in live && 0 <= v && v !in t.vnodes && (forall w :: w in t.vnodes ==>
        t.vnodes[w].file != file)
    requires exists p :: p in t.dir && t.dir[p] == file
    ensures TableOk(t.(vnodes := t.vnodes[v := Vnode(file, 1, false)]), live[k := v])
  {
    var t', live' := t.(vnodes := t.vnodes[v := Vnode(file, 1, false)]), live[k := v];
    assert Refs(live, v) == {};
    forall w ensures VnodeOk(t', live', w) {
      assert VnodeOk(t, live, w) && PathOk(t, w);
      RefsGain(live, k, v, w);
    }
    forall w ensures PathOk(t', w) {
      assert PathOk(t, w);
    }
  }

  /** A path that did not exist. */
  lemma CreateKeeps(t: Table, live: Live, p: int, file: int)
    requires TableOk(t, live) && p !in t.dir && forall q :: q in t.dir ==> t.dir[q] != file
    ensures TableOk(t.(dir := t.dir[p := file]), live)
  {
    var t' := t.(dir := t.dir[p := file]);
    forall w ensures VnodeOk(t', live, w) {
      assert VnodeOk(t, live, w);
      if w in t.vnodes {
        var q :| q in t.dir && t.dir[q] == t.vnodes[w].file;
        assert q in t'.dir && t'.dir[q] == t.vnodes[w].file;
      }
    }
    forall w ensures PathOk(t', w) {
      assert PathOk(t, w);
    }
  }

  /** A path whose file nobody has open goes at once. */
  lemma UnlinkNowKeeps(t: Table, live: Live, p: int)
    requires TableOk(t, live) && p in t.dir && forall w :: w in t.vnodes ==> t.vnodes[w].file != t.dir[p]
    ensures TableOk(t.(dir := t.dir - {p}), live)
  {
    var t' := t.(dir := t.dir - {p});
    forall w ensures VnodeOk(t', live, w) {
      assert VnodeOk(t, live, w);
      if w in t.vnodes {
        var q :| q in t.dir && t.dir[q] == t.vnodes[w].file;
        assert q in t'.dir && t'.dir[q] == t.vnodes[w].file;
      }
    }
    forall w ensures PathOk(t', w) {
      assert PathOk(t, w);
    }
  }

  /** A path whose file is open is only marked. */
  lemma UnlinkLaterKeeps(t: Table, live: Live, p: int, v: int)
    requires TableOk(t, live) && p in t.dir && v in t.vnodes && t.vnodes[v].file == t.dir[p]
    ensures TableOk(t.(vnodes := t.vnodes[v := t.vnodes[v].(deleted := true)], paths := t.paths[v := p]), live)
  {
    var t' := t.(vnodes := t.vnodes[v := t.vnodes[v].(deleted := true)], paths := t.paths[v := p]);
    forall w ensures VnodeOk(t', live, w) {
      assert VnodeOk(t, live, w);
    }
    forall w ensures PathOk(t', w) {
      assert PathOk(t, w);
    }
  }

  /** The table once open file `k` is closed. */
  function Closed(t: Table, v: int): Table
    requires v in t.vnodes
  {
    if t.vnodes[v].opens != 1 then t.(vnodes := t.vnodes[v := t.vnodes[v].(opens := t.vnodes[v].opens - 1)])
    else if t.vnodes[v].deleted && v in t.paths then Table(t.vnodes - {v}, t.paths - {v}, t.dir - {t.paths[v]})
    else t.(vnodes := t.vnodes - {v})
  }

  lemma CloseCounts(t: Table, live: Live, k: Key, w: int)
    requires TableOk(t, live) && k in live
    ensures w in Closed(t, live[k]).vnodes ==>
              w in t.vnodes && Closed(t, live[k]).vnodes[w].opens == |Refs(live - {k}, w)| &&
                  Closed(t, live[k]).vnodes[w].opens > 0
  {
    assert VnodeOk(t, live, w);
    RefsLose(live, k, w);
  }

  /** Closing erases a path only with the vnode it was kept for. */
  lemma CloseNames(t: Table, live: Live, k: Key, w: int)
    requires TableOk(t, live) && k in live && w in Closed(t, live[k]).vnodes
    ensures exists p :: p in Closed(t, live[k]).dir && Closed(t, live[k]).dir[p] == t.vnodes[w].file
  {
    var v, t' := live[k], Closed(t, live[k]);
    assert VnodeOk(t, live, w) && PathOk(t, v);
    var p :| p in t.dir && t.dir[p] == t.vnodes[w].file;
    assert w != v ==> t.vnodes[w].file != t.vnodes[v].file;
    assert p in t'.dir && t'.dir[p] == t.vnodes[w].file;
  }

  lemma CloseKeeps(t: Table, live: Live, k: Key)
    requires TableOk(t, live) && k in live
    ensures TableOk(Closed(t, live[k]), live - {k})
  {
    var v, t', live' := live[k], Closed(t, live[k]), live - {k};
    assert VnodeOk(t, live, v);
    RefsLose(live, k, v);
    if t.vnodes[v].opens == 1 {
      NoRefs(live', v);
    }
    forall w ensures VnodeOk(t', live', w) {
      assert VnodeOk(t, live, w) && PathOk(t, w);
      CloseCounts(t, live, k, w);
      if w in t'.vnodes { CloseNames(t, live, k, w); }
    }
    forall w ensures PathOk(t', w) {
      assert PathOk(t, w) && PathOk(t, v) && VnodeOk(t, live, w);
    }
  }

  // ----- the processes' tables

  lemma FdsGain(fds: map<Key, int>, d: Key, i: int, k: Key)
    requires d !in fds
    ensures |FdsOf(fds[d := i], k)| == |FdsOf(fds, k)| + if k == (d.0, i) then 1 else 0
  {
    assert FdsOf(fds[d := i], k) == if k == (d.0, i) then FdsOf(fds, k) + {d} else FdsOf(fds, k);
  }

  lemma FdsLose(fds: map<Key, int>, d: Key, k: Key)
    requires d in fds
    ensures |FdsOf(fds - {d}, k)| == |FdsOf(fds, k)| - if k == (d.0, fds[d]) then 1 else 0
  {
    assert FdsOf(fds - {d}, k) == if k == (d.0, fds[d]) then FdsOf(fds, k) - {d} else FdsOf(fds, k);
  }

  /** `add_file_descriptor`: a new open file with its first descriptor. */
  lemma AddFileKeeps(open: map<Key, OpenFile>, fds: map<Key, int>, k: Key, d: Key, v: int)
    requires FilesOk(open, fds) && k !in open && d !in fds && d.0 == k.0
    ensures FilesOk(open[k := OpenFile(v, 1)], fds[d := k.1]) && LiveOf(open[k := OpenFile(v, 1)]) == LiveOf(open)[k := v]
  {
    var open', fds' := open[k := OpenFile(v, 1)], fds[d := k.1];
    assert FdsOf(fds, k) == {};
    forall j ensures OpenFileOk(open', fds', j) {
      assert OpenFileOk(open, fds, j);
      FdsGain(fds, d, k.1, j);
    }
  }

  /** `duplicate_file_descriptor` to a fresh descriptor. */
  lemma DuplicateKeeps(open: map<Key, OpenFile>, fds: map<Key, int>, k: Key, d: Key)
    requires FilesOk(open, fds) && k in open && d !in fds && d.0 == k.0
    ensures var open' := open[k := open[k].(descriptors := open[k].descriptors + 1)];
            FilesOk(open', fds[d := k.1]) && LiveOf(open') == LiveOf(open)
  {
    var open', fds' := open[k := open[k].(descriptors := open[k].descriptors + 1)], fds[d := k.1];
    forall j ensures OpenFileOk(open', fds', j) {
      assert OpenFileOk(open, fds, j);
      FdsGain(fds, d, k.1, j);
    }
  }

  /** The open files once descriptor `d` is removed. */
  function Released(open: map<Key, OpenFile>, k: Key): map<Key, OpenFile>
    requires k in open
  {
    if open[k].descriptors == 1 then open - {k} else open[k := open[k].(descriptors := open[k].descriptors - 1)]
  }

  lemma RemoveKeeps(open: map<Key, OpenFile>, fds: map<Key, int>, d: Key)
    requires FilesOk(open, fds) && d in fds
    ensures (d.0, fds[d]) in open
    ensures var k := (d.0, fds[d]);
            && FilesOk(Released(open, k), fds - {d})
            && LiveOf(Released(open, k)) == if open[k].descriptors == 1 then LiveOf(open) - {k} else LiveOf(open)
  {
    var k := (d.0, fds[d]);
    var open', fds' := Released(open, k), fds - {d};
    assert OpenFileOk(open, fds, k);
    FdsLose(fds, d, k);
    forall j ensures OpenFileOk(open', fds', j) {
      assert OpenFileOk(open, fds, j);
      FdsLose(fds, d, j);
    }
    forall e | e in fds' ensures (e.0, fds'[e]) in open' {
      if (e.0, fds[e]) == k && open[k].descriptors == 1 {
        LastDescriptor(fds, d, e);
      }
    }
  }

  lemma LastDescriptor(fds: map<Key, int>, d: Key, e: Key)
    requires d in fds && e in fds && (e.0, fds[e]) == (d.0, fds[d]) && |FdsOf(fds, (d.0, fds[d]))| == 1
    ensures e == d
  {
    var s := FdsOf(fds, (d.0, fds[d]));
    assert d in s && e in s;
    assert |s - {d}| == 0;
    assert e !in s - {d};
  }

  /** The tables without process `pid`. */
  function WithoutProcess<V>(m: map<Key, V>, pid: int): map<Key, V>
  {
    map k | k in m && k.0 != pid :: m[k]
  }

  lemma ExitKeeps(open: map<Key, OpenFile>, fds: map<Key, int>, pid: int)
    requires FilesOk(open, fds)
    ensures FilesOk(WithoutProcess(open, pid), WithoutProcess(fds, pid))
  {
    var open', fds' := WithoutProcess(open, pid), WithoutProcess(fds, pid);
    forall j ensures OpenFileOk(open', fds', j) {
      assert OpenFileOk(open, fds, j);
      assert j.0 != pid ==> FdsOf(fds', j) == FdsOf(fds, j);
    }
  }
}
