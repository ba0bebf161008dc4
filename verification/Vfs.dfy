/** `vfs`: open, close, duplicate, unlink and process exit, and the counts they keep. */
module Vfs {
  import opened VnodeCounts
  import opened VnodeOps
  import opened ProcessExit
  import opened HashChains
  import opened HashTable

  datatype Result = Opened(fd: int) | NotFound | Refused

  /** Whatever a descriptor names is there: its open file, that file's vnode, and the file itself. */
  lemma DescriptorsReach(t: VnodeCounts.Table, open: map<Key, OpenFile>, fds: map<Key, int>, d: Key)
    requires FilesOk(open, fds) && TableOk(t, LiveOf(open)) && d in fds
    ensures (d.0, fds[d]) in open && open[(d.0, fds[d])].vnode in t.vnodes
    ensures exists p :: p in t.dir && t.dir[p] == t.vnodes[open[(d.0, fds[d])].vnode].file
  {
    var k := (d.0, fds[d]);
    assert LiveOf(open)[k] in t.vnodes;
    assert VnodeOk(t, LiveOf(open), open[k].vnode);
  }

  /**
   What a successful open leaves: descriptor `d` names the new open file `k`, that names the file's vnode, and the vnode
   counts it; nothing else is touched.
   */
  ghost predicate OpenedAs(vnodes: map<int, Vnode>, open: map<Key, OpenFile>, fds: map<Key, int>,
      vnodes': map<int, Vnode>, open': map<Key, OpenFile>, fds': map<Key, int>, file: int, k: Key, d: Key)
  {
    && fds' == fds[d := k.1]
    && exists w :: OneMoreOpen(vnodes, vnodes', file, w) && open' == open[k := OpenFile(w, 1)]
  }

  class Vfs {
    var vnodes: map<int, Vnode>
    var dir: map<int, int>
    /** `_deleted_vnodes_paths`, and the finite map it is to hold. */
    var deleted: HashChains.Table<int>
    ghost var paths: map<int, int>
    var open: map<Key, OpenFile>
    var fds: map<Key, int>

    ghost function Files(): VnodeCounts.Table
      reads this
    {
      VnodeCounts.Table(vnodes, paths, dir)
    }

    /** Every count is true. */
    ghost predicate Counted()
      reads this
    {
      TableOk(Files(), LiveOf(open)) && FilesOk(open, fds) && 0 !in dir
    }

    ghost predicate Valid()
      reads this
    {
      Counted() && Rep(deleted, paths)
    }

    /** A mounted file system with nothing open. */
    constructor (dir0: map<int, int>)
      requires OnePathPerFile(dir0) && 0 !in dir0
      ensures Valid() && Apart(deleted) && dir == dir0 && open == map[] && fds == map[] && vnodes == map[]
    {
      vnodes, dir, deleted, paths, open, fds := map[], dir0, Empty(16), map[], map[], map[];
      EmptyRep<int>(16);
    }

    /**
     `open`. `file` is what a newly created file is called by the file system; `v`, `i` and `fd` are the keys the
     unique maps hand out; `permitted` is the outcome of the permission and type checks.
     */
    method Open(pid: int, path: int, create: bool, permitted: bool, file: int, v: int, i: int, fd: int)
      returns (r: Result)
      requires Valid() && 0 <= v && v !in vnodes && (pid, i) !in open && (pid, fd) !in fds && path != 0
      requires forall p :: p in dir ==> dir[p] != file
      modifies `vnodes, `dir, `open, `fds
      ensures Valid()
      ensures dir == if path !in old(dir) && create then old(dir)[path := file] else old(dir)
      ensures r.Opened? <==> permitted && (path in old(dir) || create) && !exists w :: w in paths && paths[w] == path
      ensures r == Refused <==> !permitted && (path in old(dir) || create)
      ensures !r.Opened? ==> open == old(open) && fds == old(fds) && vnodes == old(vnodes)
      ensures r.Opened? ==> r.fd == fd && path in dir
      ensures r.Opened? ==>
                OpenedAs(old(vnodes), old(open), old(fds), vnodes, open, fds, dir[path], (pid, i), (pid, fd))
    {
      PathsInDir(Files(), LiveOf(open));
      if path !in dir {
        if !create {
          return NotFound;
        }
        CreateKeeps(Files(), LiveOf(open), path, file);
        dir := dir[path := file];
      }
      if !permitted {
        return Refused;
      }
      r := OpenKnown(pid, path, v, i, fd);
    }

    /** The second half of `open`: the vnode, the open file and the descriptor. */
    method OpenKnown(pid: int, path: int, v: int, i: int, fd: int) returns (r: Result)
      requires Valid() && path in dir && 0 <= v && v !in vnodes && (pid, i) !in open && (pid, fd) !in fds
      modifies `vnodes, `open, `fds
      ensures Valid() && r != Refused
      ensures r.Opened? <==> !exists w :: w in paths && paths[w] == path
      ensures !r.Opened? ==> open == old(open) && fds == old(fds) && vnodes == old(vnodes)
      ensures r.Opened? ==> r.fd == fd
      ensures r.Opened? ==>
                OpenedAs(old(vnodes), old(open), old(fds), vnodes, open, fds, dir[path], (pid, i), (pid, fd))
    {
      var vnodes', w, refused := ReferenceFile(vnodes, dir[path], v, Files(), path, LiveOf(open), (pid, i));
      if refused {
        return NotFound;
      }
      AddFileKeeps(open, fds, (pid, i), (pid, fd), w);
      vnodes := vnodes';
      open := open[(pid, i) := OpenFile(w, 1)];
      fds := fds[(pid, fd) := i];
      r := Opened(fd);
    }

    /**
     `close`: the counts go down, the open file goes with its last descriptor, and a file unlinked while open goes with its
     last open file and not before. The map of deleted paths stays sound exactly when the close does not erase from behind
     another node.
     */
    method Close(pid: int, fd: int) returns (ok: bool)
      requires Valid()
      modifies this
      ensures Counted() && (ok <==> (pid, fd) in old(fds))
      ensures Valid() <==> !CloseDangles(old(Files()), old(deleted), old(open), old(fds), (pid, fd))
      ensures old(Apart(deleted)) ==> Valid() && Apart(deleted)
      ensures !ok ==> Files() == old(Files()) && open == old(open) && fds == old(fds) && deleted == old(deleted)
      ensures ok ==> OnlyCloses(old(Files()), Files()) && DescriptorGone(old(open), old(fds), open, fds, (pid, fd))
    {
      ok, vnodes, dir, deleted, open, fds, paths := CloseDescriptor(vnodes, dir, deleted, open, fds, (pid, fd), paths);
    }

    /** `dup` to a descriptor not in use. */
    method Duplicate(pid: int, fd: int, newfd: int)
      requires Valid() && (pid, fd) in fds && (pid, newfd) !in fds
      modifies `open, `fds
      ensures Valid() && fds == old(fds)[(pid, newfd) := old(fds)[(pid, fd)]] && open.Keys == old(open).Keys
      ensures forall k :: k in open ==> open[k].vnode == old(open)[k].vnode
    {
      var k := (pid, fds[(pid, fd)]);
      DuplicateKeeps(open, fds, k, (pid, newfd));
      open := open[k := open[k].(descriptors := open[k].descriptors + 1)];
      fds := fds[(pid, newfd) := k.1];
    }

    /**
     `unlink`: at once when nobody has the file open, otherwise left to the last close; a second time is refused. While
     the vnodes waiting have indices that differ modulo the number of buckets, their paths are on chains of their own.
     */
    method Unlink(path: int) returns (ok: bool)
      requires Valid()
      modifies `vnodes, `dir, `deleted, `paths
      ensures Valid()
      ensures ok <==> path in old(dir) && !exists w :: w in old(paths) && old(paths)[w] == path
      ensures !ok ==> Files() == old(Files()) && deleted == old(deleted)
      ensures ok ==> UnlinkedAs(old(Files()), Files(), path)
      ensures old(Apart(deleted)) && Spread(paths, old(deleted).bucketCount) ==> Apart(deleted)
    {
      vnodes, dir, deleted, paths, ok := UnlinkFile(vnodes, dir, deleted, path, paths, LiveOf(open));
    }

    /**
     The end of a process: each of its open files is closed. It goes through exactly when none of the deleted paths it
     erases is behind another node; from such an erase on nothing is said.
     */
    method Exit(pid: int) returns (sound: bool)
      requires Valid()
      modifies this
      ensures sound <==> !ExitDangles(old(deleted), old(paths), LiveOf(old(open)), pid)
      ensures old(Apart(deleted)) ==> sound && Apart(deleted)
      ensures sound ==> Valid() && Exited(old(Files()), old(open), old(fds), Files(), open, fds, pid)
    {
      sound, vnodes, dir, deleted, open, fds, paths := ExitTables(vnodes, dir, deleted, open, fds, pid, paths);
    }
  }
}
