/** The vnode table and the map of deleted paths: what open, close and unlink do to them. */
module VnodeOps {
  import opened VnodeCounts
  import opened HashChains
  import opened HashTable

  lemma HasMember(s: set<int>)
    ensures s == {} || exists x :: x in s
  {
    if forall x :: x !in s {
      assert s == {};
    }
  }

  /** A member of a set. */
  method Some(s: set<int>) returns (x: int)
    requires s != {}
    ensures x in s
  {
    HasMember(s);
    x :| x in s;
  }

  /** `get_vnode_for_file`: the vnodes are looked through for one of the file. */
  method FindVnode(vnodes: map<int, Vnode>, file: int) returns (found: bool, v: int)
    ensures found ==> v in vnodes && vnodes[v].file == file
    ensures !found ==> forall w :: w in vnodes ==> vnodes[w].file != file
  {
    var todo := vnodes.Keys;
    v := 0;
    while todo != {}
      invariant forall w :: w in todo ==> w in vnodes
      invariant forall w :: w in vnodes && w !in todo ==> vnodes[w].file != file
      decreases |todo|
    {
      var w := Some(todo);
      if vnodes[w].file == file {
        return true, w;
      }
      todo := todo - {w};
    }
    found := false;
  }

  /** The paths whose deferred unlinking happened between two states. */
  function Removed(paths: map<int, int>, paths': map<int, int>): set<int>
  {
    set v | v in paths && v !in paths' :: paths[v]
  }

  /** Closing only erases vnodes, and removes exactly the files unlinked under the erased ones. */
  ghost predicate OnlyCloses(t: VnodeCounts.Table, t': VnodeCounts.Table)
  {
    && (forall v :: v in t'.vnodes ==>
        v in t.vnodes && t'.vnodes[v].file == t.vnodes[v].file && t'.vnodes[v].deleted == t.vnodes[v].deleted)
    && (forall v :: v in t'.paths ==> v in t.paths && t'.paths[v] == t.paths[v])
    && t'.dir == t.dir - Removed(t.paths, t'.paths)
  }

  lemma NothingCloses(t: VnodeCounts.Table)
    ensures OnlyCloses(t, t)
  {
  }

  lemma ClosedOnlyCloses(t0: VnodeCounts.Table, t: VnodeCounts.Table, v: int)
    requires OnlyCloses(t0, t) && v in t.vnodes
    ensures OnlyCloses(t0, Closed(t, v))
  {
  }

  /** Looking up, and erasing, the path kept for a vnode: path 0 when there is none. */
  method TakePath(deleted: HashChains.Table<int>, v: int, ghost paths: map<int, int>)
    returns (path: int, deleted': HashChains.Table<int>, ghost paths': map<int, int>)
    requires Rep(deleted, paths) && 0 <= v && (v in paths ==> paths[v] != 0)
    ensures path == if v in paths then paths[v] else 0
    ensures paths' == (if v in paths then paths - {v} else paths) && deleted' == if v in paths then Erased(deleted, v) else deleted
    ensures Rep(deleted', paths') <==> !(v in paths && HasBack(deleted, v))
    ensures Apart(deleted) ==> Rep(deleted', paths') && Apart(deleted')
  {
    deleted', paths' := deleted, paths;
    path := At(deleted, v, 0, paths);
    if Apart(deleted) { ErasedApart(deleted, paths, v); }
    if path != 0 {
      var erased;
      deleted', erased := Erase(deleted, v, paths);
      paths' := paths - {v};
    }
  }

  /** An open file's vnode, and the path kept for it. */
  lemma OpenVnode(t: VnodeCounts.Table, live: Live, k: Key)
    requires TableOk(t, live) && k in live && 0 !in t.dir
    ensures live[k] in t.vnodes && 0 <= live[k] && (t.vnodes[live[k]].deleted <==> live[k] in t.paths)
    ensures live[k] in t.paths ==> t.paths[live[k]] != 0
  {
    assert VnodeOk(t, live, live[k]) && PathOk(t, live[k]);
  }

  /** What closing keeps of the counts. */
  lemma CloseTable(t: VnodeCounts.Table, live: Live, k: Key)
    requires TableOk(t, live) && k in live && 0 !in t.dir
    ensures TableOk(Closed(t, live[k]), live - {k}) && OnlyCloses(t, Closed(t, live[k])) && 0 !in Closed(t, live[k]).dir
  {
    CloseKeeps(t, live, k);
    NothingCloses(t);
    ClosedOnlyCloses(t, t, live[k]);
  }

  /**
   `close_open_file`: the last one to close a vnode erases it, and unlinks a file that was unlinked meanwhile. The map of
   deleted paths survives exactly when the vnode's node on it has no back pointer. Path 0 is the empty path.
   */
  method CloseOpenFile(vnodes: map<int, Vnode>, dir: map<int, int>, deleted: HashChains.Table<int>, v: int,
      ghost paths: map<int, int>, ghost live: Live, ghost k: Key)
    returns (vnodes': map<int, Vnode>, dir': map<int, int>, deleted': HashChains.Table<int>, ghost paths': map<int, int>)
    requires TableOk(VnodeCounts.Table(vnodes, paths, dir), live) && 0 !in dir && Rep(deleted, paths) &&
        k in live && live[k] == v
    ensures VnodeCounts.Table(vnodes', paths', dir') == Closed(VnodeCounts.Table(vnodes, paths, dir), v)
    ensures TableOk(VnodeCounts.Table(vnodes', paths', dir'), live - {k}) && 0 !in dir'
    ensures deleted' == if vnodes[v].opens == 1 && v in paths then Erased(deleted, v) else deleted
    ensures Rep(deleted', paths') <==> !(vnodes[v].opens == 1 && v in paths && HasBack(deleted, v))
    ensures OnlyCloses(VnodeCounts.Table(vnodes, paths, dir), VnodeCounts.Table(vnodes', paths', dir'))
    ensures Apart(deleted) ==> Rep(deleted', paths') && Apart(deleted')
  {
    OpenVnode(VnodeCounts.Table(vnodes, paths, dir), live, k);
    var vn := vnodes[v].(opens := vnodes[v].opens - 1);
    vnodes', dir', deleted', paths' := vnodes[v := vn], dir, deleted, paths;
    if vn.opens == 0 {
      if vn.deleted {
        var path;
        path, deleted', paths' := TakePath(deleted, v, paths);
        dir' := dir - {path};
      }
      vnodes' := vnodes' - {v};
      assert vnodes' == vnodes - {v};
    }
    CloseTable(VnodeCounts.Table(vnodes, paths, dir), live, k);
  }

  /** The close of descriptor `d` erases a deleted path whose node has its back pointer set. */
  ghost predicate CloseDangles(t: VnodeCounts.Table, deleted: HashChains.Table<int>, open: map<Key, OpenFile>,
      fds: map<Key, int>, d: Key)
  {
    && Shape(deleted) && d in fds && (d.0, fds[d]) in open
    && var f := open[(d.0, fds[d])];
       f.descriptors == 1 && f.vnode in t.vnodes && t.vnodes[f.vnode].opens == 1 && f.vnode in t.paths &&
           HasBack(deleted, f.vnode)
  }

  /** The descriptor is gone, and its open file with its last descriptor. */
  ghost predicate DescriptorGone(open: map<Key, OpenFile>, fds: map<Key, int>, open': map<Key, OpenFile>,
      fds': map<Key, int>, d: Key)
  {
    d in fds && (d.0, fds[d]) in open && open' == Released(open, (d.0, fds[d])) && fds' == fds - {d}
  }

  /** `close`, on all the tables. */
  method CloseDescriptor(vnodes: map<int, Vnode>, dir: map<int, int>, deleted: HashChains.Table<int>, open: map<Key,
      OpenFile>,
      fds: map<Key, int>, d: Key, ghost paths: map<int, int>)
    returns (ok: bool, vnodes': map<int, Vnode>, dir': map<int, int>, deleted': HashChains.Table<int>,
        open': map<Key, OpenFile>, fds': map<Key, int>, ghost paths': map<int, int>)
    requires TableOk(VnodeCounts.Table(vnodes, paths, dir), LiveOf(open)) && FilesOk(open, fds) && 0 !in dir &&
        Rep(deleted, paths)
    ensures TableOk(VnodeCounts.Table(vnodes', paths', dir'), LiveOf(open')) && FilesOk(open', fds') && 0 !in dir'
    ensures ok <==> d in fds
    ensures Rep(deleted', paths') <==> !CloseDangles(VnodeCounts.Table(vnodes, paths, dir), deleted, open, fds, d)
    ensures Apart(deleted) ==> Rep(deleted', paths') && Apart(deleted')
    ensures !ok ==> vnodes' == vnodes && dir' == dir && deleted' == deleted && open' == open && fds' == fds && paths' == paths
    ensures ok ==> OnlyCloses(VnodeCounts.Table(vnodes, paths, dir), VnodeCounts.Table(vnodes', paths', dir'))
    ensures ok ==> DescriptorGone(open, fds, open', fds', d)
  {
    vnodes', dir', deleted', open', fds', paths' := vnodes, dir, deleted, open, fds, paths;
    if d !in fds {
      return false, vnodes', dir', deleted', open', fds', paths';
    }
    var k := (d.0, fds[d]);
    if open[k].descriptors == 1 {
      assert LiveOf(open)[k] in vnodes;
      vnodes', dir', deleted', paths' := CloseOpenFile(vnodes, dir, deleted, open[k].vnode, paths, LiveOf(open), k);
      open' := open - {k};
    } else {
      NothingCloses(VnodeCounts.Table(vnodes, paths, dir));
      open' := open[k := open[k].(descriptors := open[k].descriptors - 1)];
    }
    fds' := fds - {d};
    ok := true;
    RemoveKeeps(open, fds, d);
    assert open' == Released(open, k);
  }

  /** A vnode is in the table exactly while an open file names it. */
  lemma ListedWhileOpen(t: VnodeCounts.Table, live: Live, v: int)
    requires TableOk(t, live)
    ensures v in t.vnodes <==> exists k :: k in live && live[k] == v
  {
    assert VnodeOk(t, live, v);
    if v in t.vnodes {
      assert Refs(live, v) != {};
      var k :| k in Refs(live, v);
      assert k in live && live[k] == v;
    }
  }

  /**
   The vnode of a path for one more open file: found, or made; a file that was unlinked while open is not given out.
   */
  method ReferenceFile(vnodes: map<int, Vnode>, file: int, v: int, ghost t: VnodeCounts.Table, ghost path: int,
      ghost live: Live, ghost k: Key)
    returns (vnodes': map<int, Vnode>, w: int, refused: bool)
    requires TableOk(t, live) && t.vnodes == vnodes && path in t.dir && t.dir[path] == file && 0 <= v &&
        v !in vnodes && k !in live
    ensures refused <==> exists u :: u in t.paths && t.paths[u] == path
    ensures refused ==> vnodes' == vnodes
    ensures !refused ==> TableOk(t.(vnodes := vnodes'), live[k := w])
    ensures !refused ==> OneMoreOpen(vnodes, vnodes', file, w)
  {
    var found;
    found, w := FindVnode(vnodes, file);
    DeletedIsFound(t, live, path);
    refused := found && vnodes[w].deleted;
    if refused {
      return vnodes, w, true;
    }
    if found {
      ReferenceKeeps(t, live, k, w);
      vnodes' := vnodes[w := vnodes[w].(opens := vnodes[w].opens + 1)];
    } else {
      w := v;
      NewVnodeKeeps(t, live, k, v, file);
      vnodes' := vnodes[v := Vnode(file, 1, false)];
    }
  }

  /** A path waiting to be removed is still in the directory, and looking its file up finds a deleted vnode. */
  lemma DeletedIsFound(t: VnodeCounts.Table, live: Live, path: int)
    requires TableOk(t, live) && path in t.dir
    ensures forall v :: v in t.vnodes && t.vnodes[v].file == t.dir[path] ==>
              (t.vnodes[v].deleted <==> exists w :: w in t.paths && t.paths[w] == path)
    ensures forall w :: w in t.paths && t.paths[w] == path ==> w in t.vnodes && t.vnodes[w].file == t.dir[path]
  {
    forall w | w in t.paths && t.paths[w] == path ensures w in t.vnodes && t.vnodes[w].file == t.dir[path] {
      assert PathOk(t, w);
    }
    forall v | v in t.vnodes && t.vnodes[v].file == t.dir[path]
      ensures t.vnodes[v].deleted <==> exists w :: w in t.paths && t.paths[w] == path
    {
      assert VnodeOk(t, live, v) && PathOk(t, v);
      if t.vnodes[v].deleted {
        assert t.paths[v] == path;
      }
    }
  }

  lemma PathsInDir(t: VnodeCounts.Table, live: Live)
    requires TableOk(t, live)
    ensures forall w :: w in t.paths ==> t.paths[w] in t.dir
  {
    forall w | w in t.paths ensures t.paths[w] in t.dir {
      assert PathOk(t, w);
    }
  }

  /** What unlinking an existing path does: a file that is open is marked and keeps its path, another loses it. */
  ghost predicate UnlinkedAs(t: VnodeCounts.Table, t': VnodeCounts.Table, path: int)
  {
    && path in t.dir && t'.vnodes.Keys == t.vnodes.Keys
    && (forall v :: v in t.vnodes ==> t'.vnodes[v].file == t.vnodes[v].file && t'.vnodes[v].opens == t.vnodes[v].opens)
    && if exists v :: v in t.vnodes && t.vnodes[v].file == t.dir[path]
       then t'.dir == t.dir && exists v :: v in t.vnodes && t.vnodes[v].file == t.dir[path] && t'.paths == t.paths[v := path]
       else t'.dir == t.dir - {path} && t'.paths == t.paths
  }

  /** `unlink` on the vnodes, the directory and the deleted paths. */
  method UnlinkFile(vnodes: map<int, Vnode>, dir: map<int, int>, deleted: HashChains.Table<int>, path: int,
      ghost paths: map<int, int>, ghost live: Live)
    returns (vnodes': map<int, Vnode>, dir': map<int, int>, deleted': HashChains.Table<int>, ghost paths': map<int, int>, ok: bool)
    requires TableOk(VnodeCounts.Table(vnodes, paths, dir), live) && 0 !in dir && Rep(deleted, paths)
    ensures TableOk(VnodeCounts.Table(vnodes', paths', dir'), live) && 0 !in dir' && Rep(deleted', paths')
    ensures ok <==> path in dir && !exists w :: w in paths && paths[w] == path
    ensures !ok ==> vnodes' == vnodes && dir' == dir && deleted' == deleted && paths' == paths
    ensures ok ==> UnlinkedAs(VnodeCounts.Table(vnodes, paths, dir), VnodeCounts.Table(vnodes', paths', dir'), path)
    ensures Apart(deleted) && Spread(paths', deleted.bucketCount) ==> Apart(deleted')
  {
    ghost var t := VnodeCounts.Table(vnodes, paths, dir);
    PathsInDir(t, live);
    vnodes', dir', deleted', paths', ok := vnodes, dir, deleted, paths, false;
    if path !in dir {
      return;
    }
    var found, v := FindVnode(vnodes, dir[path]);
    DeletedIsFound(t, live, path);
    if !found {
      UnlinkNowKeeps(t, live, path);
      dir', ok := dir - {path}, true;
    } else if !vnodes[v].deleted {
      assert VnodeOk(t, live, v);
      UnlinkLaterKeeps(t, live, path, v);
      deleted' := DeferPath(deleted, v, path, paths);
      vnodes', paths', ok := vnodes[v := vnodes[v].(deleted := true)], paths[v := path], true;
      assert v in t.vnodes && t.vnodes[v].file == t.dir[path];
    }
  }

  /** Keeping a path for the last close. */
  method DeferPath(deleted: HashChains.Table<int>, v: int, path: int, ghost paths: map<int, int>)
    returns (deleted': HashChains.Table<int>)
    requires Rep(deleted, paths) && 0 <= v && v !in paths
    ensures Rep(deleted', paths[v := path])
    ensures Apart(deleted) && Spread(paths[v := path], deleted.bucketCount) ==> Apart(deleted')
  {
    if Apart(deleted) && Spread(paths[v := path], deleted.bucketCount) {
      SpreadStep(deleted, paths, Put(v, path));
    }
    var inserted;
    deleted', inserted := Insert(deleted, v, path, paths);
  }
}
