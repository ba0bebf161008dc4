/** `set_pte_permissions` and `get_pte_permissions`, without user access. */
module PagePermissions {
  import opened PageTables
  import opened RecursiveSlot
  import opened TableSteps
  import opened PagingManager

  /** Protection flags; none of them is `PROT_NONE`. */
  datatype Flags = Flags(read: bool, write: bool, exec: bool)

  predicate NoFlag(f: Flags) { !f.read && !f.write && !f.exec }

  /**
   What the entry becomes: the test for reading or writing comes first, so the one for reading alone is never reached.
   */
  function Granted(e: Entry, f: Flags): Entry
  {
    var e1 :=
      if NoFlag(f) then e.(present := false)
      else if f.read || f.write then e.(writable := true)
      else if f.read then e.(writable := false)
      else e;
    e1.(noExecute := !f.exec, user := false)
  }

  /** What an entry says of reading and writing. */
  function Shown(e: Entry): Flags { Flags(e.present, e.present && e.writable, false) }

  /**
   What was asked for is what is read back exactly when a present page was to be readable and writable, or to be taken
   away, or an absent one was not to be readable or writable.
   */
  lemma ReadBackIff(e: Entry, f: Flags)
    ensures var g := Shown(Granted(e, f));
            g.read == f.read && g.write == f.write <==>
              if e.present then (f.read && f.write) || NoFlag(f) else !f.read && !f.write
  {
  }

  /** However often it is called: no page becomes read-only again, and none comes back. */
  lemma {:induction false} NeverNarrowed(e: Entry, fs: seq<Flags>)
    ensures e.writable ==> GrantedAll(e, fs).writable
    ensures !e.present ==> !GrantedAll(e, fs).present
    ensures GrantedAll(e, fs).frame == e.frame
    decreases |fs|
  {
    if fs != [] {
      NeverNarrowed(Granted(e, fs[0]), fs[1..]);
    }
  }

  function GrantedAll(e: Entry, fs: seq<Flags>): Entry
    decreases |fs|
  {
    if fs == [] then e else GrantedAll(Granted(e, fs[0]), fs[1..])
  }

  /** The entry of a page, if its table exists, becomes what was granted; no other entry and no other walk changes. */
  method SetPermissions(mem: Memory, root: nat, va: int, f: Flags, ghost path: Path) returns (mem': Memory)
    requires TablesOk(mem, root) && PagePath(path) && Names(va, path)
    ensures !Follow(mem, root, path[..3]).Frame? ==> mem' == mem
    ensures Follow(mem, root, path[..3]).Frame? ==>
              LeafOnly(mem, mem', root, path) && EntryOf(mem', root, path) == Granted(EntryOf(mem, root, path), f)
    ensures !NoFlag(f) ==> Follow(mem', root, path) == Follow(mem, root, path)
  {
    mem' := mem;
    assert path[..4] == path;
    var there := TableThere(mem, root, va, path);
    if !there {
      return;
    }
    var e := LoadEntry(mem, root, va, 3, path);
    if NoFlag(f) {
      e := e.(present := false);
    } else if f.read || f.write {
      e := e.(writable := true);
    } else if f.read {
      e := e.(writable := false);
    }
    e := e.(noExecute := !f.exec, user := false);
    LeafStore(mem, root, path, e);
    mem' := StoreEntry(mem, root, va, 3, e, path);
  }

  /** What is read back is what the entry says, and nothing for a page without a table. */
  method GetPermissions(mem: Memory, root: nat, va: int, ghost path: Path) returns (f: Flags)
    requires TablesOk(mem, root) && PagePath(path) && Names(va, path)
    ensures f == if Follow(mem, root, path[..3]).Frame? then Shown(EntryOf(mem, root, path)) else Flags(false, false, false)
    ensures f.read <==> Follow(mem, root, path).Frame?
  {
    f := Flags(false, false, false);
    assert path[..4] == path;
    var there := TableThere(mem, root, va, path);
    if !there {
      return;
    }
    var e := LoadEntry(mem, root, va, 3, path);
    if !e.present {
      return;
    } else if e.writable {
      f := Flags(true, true, false);
    } else {
      f := Flags(true, false, false);
    }
  }
}
