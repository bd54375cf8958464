/** Directories: searching, adding, removing and listing entries of a directory file. */
module Directory {
  import opened Words
  import opened BlockTree
  import opened Bitmaps
  import opened Cache
  import opened Volume
  import opened Growth
  import opened FileData
  import opened Ledger
  import opened EntryTable
  import Inodes

  /** The entry table of directory d. */
  ghost function TableOf(s: State, d: nat): seq<Entry> {
    if d in s.files then EntryTable.Table(Content(s.view, s.files[d])) else []
  }

  ghost predicate IsDirectory(s: State, d: nat) {
    d != 0 && d in s.files && s.files[d].len as int % ENTRY_SIZE == 0 && TableOk(TableOf(s, d))
  }

  /** An open directory. */
  class Dir {
    const fs: Inodes.FileSystem
    const ino: nat
    var pos: nat           // the slot that readdir looks at next

    ghost predicate Valid()
      reads this, fs, fs.cache, fs.cache.slots, fs.freeMap, fs.freeMap.elems, fs.freeMapInode
    {
      fs.Valid() && IsDirectory(fs.S(), ino)
    }

    ghost function T(): seq<Entry>
      reads fs, fs.cache, fs.freeMap
    {
      TableOf(fs.S(), ino)
    }

    constructor (fs: Inodes.FileSystem, ino: nat)
      requires fs.Valid() && IsDirectory(fs.S(), ino)
      ensures Valid() && this.fs == fs && this.ino == ino && pos == 1
    {
      hide Inodes.FileSystem.Valid, IsDirectory;
      this.fs := fs;
      this.ino := ino;
      pos := 1;
    }

    /** Reads one entry; fails behind the last one. */
    method ReadEntry(slot: nat) returns (ok: bool, e: Entry)
      requires Valid()
      modifies fs.cache, fs.cache.slots
      ensures Valid() && fs.S() == old(fs.S())
      ensures ok <==> slot < |T()|
      ensures ok ==> e == T()[slot] && |e.field| == NAME_FIELD
    {
      hide BufferCache.Valid, Bitmap.Valid, Sound, Content, Contents, TableOk;
      ghost var c := Content(fs.cache.view, fs.files[ino]);
      ContentsOf(fs.S(), ino);
      var bytes := fs.Read(ino, ENTRY_SIZE, ENTRY_SIZE * slot);
      ok := |bytes| == ENTRY_SIZE;
      e := Entry(0, [], false);
      if ok {
        assert bytes == c[ENTRY_SIZE * slot..ENTRY_SIZE * slot + ENTRY_SIZE];
        e := Decode(bytes);
      }
    }

    /** Finds the slot in use for a name. */
    method Lookup(name: Name) returns (found: bool, e: Entry, slot: nat)
      requires Valid()
      modifies fs.cache, fs.cache.slots
      ensures Valid() && fs.S() == old(fs.S())
      ensures found <==> name in Listing(T())
      ensures found ==> Used(T(), slot) && e == T()[slot] && CStr(e.field) == name && |e.field| == NAME_FIELD
    {
      hide Inodes.FileSystem.Valid, CStr, Listing;
      slot := 1;
      var ok;
      ok, e := ReadEntry(slot);
      while ok && !(e.inUse && name == CStr(e.field))
        invariant Valid() && fs.S() == old(fs.S())
        invariant 1 <= slot && (ok <==> slot < |T()|) && (ok ==> e == T()[slot] && |e.field| == NAME_FIELD)
        invariant forall i :: 0 <= i < slot && Used(T(), i) ==> CStr(T()[i].field) != name
        decreases |T()| - slot
      {
        slot := slot + 1;
        ok, e := ReadEntry(slot);
      }
      found := ok;
      if found {
        ListingAt(T(), slot);
      } else if name in Listing(T()) {
        ghost var i := SlotOf(T(), name);
      }
    }

    /** Whether no slot behind the parent's is in use. */
    method IsEmpty() returns (empty: bool)
      requires Valid()
      modifies fs.cache, fs.cache.slots
      ensures Valid() && fs.S() == old(fs.S())
      ensures empty <==> Listing(T()) == map[]
    {
      hide Inodes.FileSystem.Valid, CStr, Listing;
      var slot := 1;
      var ok, e := ReadEntry(slot);
      while ok
        invariant Valid() && fs.S() == old(fs.S())
        invariant 1 <= slot && (ok <==> slot < |T()|) && (ok ==> e == T()[slot])
        invariant forall i :: 0 <= i < slot ==> !Used(T(), i)
        decreases |T()| - slot
      {
        if e.inUse {
          ListingAt(T(), slot);
          return false;
        }
        slot := slot + 1;
        ok, e := ReadEntry(slot);
      }
      EmptyListing(T());
      return true;
    }

    /** The first slot that is not in use, or the one behind the last. */
    method FindFree() returns (slot: nat)
      requires Valid()
      modifies fs.cache, fs.cache.slots
      ensures Valid() && fs.S() == old(fs.S())
      ensures 0 < slot && FirstUnused(T(), slot)
      ensures slot == |T()| <==> Full(T())
    {
      hide Inodes.FileSystem.Valid;
      slot := 0;
      var ok, e := ReadEntry(slot);
      while ok && e.inUse
        invariant Valid() && fs.S() == old(fs.S())
        invariant slot <= |T()| && (ok <==> slot < |T()|) && (ok ==> e == T()[slot])
        invariant forall i :: 0 <= i < slot ==> T()[i].inUse
        decreases |T()| - slot
      {
        slot := slot + 1;
        ok, e := ReadEntry(slot);
      }
    }

    /** Writes an entry into a slot. */
    method WriteEntry(slot: nat, e: Entry)
      requires Valid() && slot <= |T()| && |e.field| == NAME_FIELD && TableOk(Put(T(), slot, e))
      requires slot == |T()| ==> RoomForEntry(fs.S(), ino)
      modifies fs`files, fs`owner, fs.cache, fs.cache.slots, fs.freeMap, fs.freeMap.elems
      ensures Valid() && T() == Put(old(T()), slot, e)
      ensures OnlyDirectory(ino, old(fs.S()), fs.S())
      ensures slot < old(|T()|) ==> fs.S() == old(fs.S()).(view := fs.cache.view)
      ensures slot == old(|T()|) ==> OneEntryLess(ino, old(fs.S()), fs.S())
    {
      hide BufferCache.Valid, Bitmap.Valid, Sound, Content, Contents, IsDirectory, TableOf, FreeFrom, OthersKept,
        Wrote, Encode, Need, RoomForEntry, OneEntryLess, TableOk, Put, Splice, Accounted, OnlyDirectory;
      ghost var s0 := fs.S();
      EntryFits(s0, ino, slot);
      var n := fs.Write(ino, Encode(e), ENTRY_SIZE * slot);
      TableWritten(s0, fs.S(), ino, slot, e);
      EntryTaken(s0, fs.S(), ino, slot);
    }

    /** Enters a file under a new name. */
    method Add(name: Name, sector: Word) returns (ok: bool)
      requires Valid() && (Full(T()) && Enterable(T(), name) ==> RoomForEntry(fs.S(), ino))
      modifies fs`files, fs`owner, fs.cache, fs.cache.slots, fs.freeMap, fs.freeMap.elems
      ensures Valid() && EnteredIn(ino, old(fs.S()), fs.S(), name, sector, ok)
    {
      hide Inodes.FileSystem.Valid, IsDirectory, TableOf, Entered, Used, Full, RoomForEntry, OnlyDirectory, Put;
      ghost var t0 := T();
      DirectoryOk(fs.S(), ino);
      OnlyDirectoryRefl(ino, fs.S());
      if |name| == 0 || |name| > NAME_MAX {
        NotEntered(t0, name, sector);
        return false;
      }
      var found, _, _ := Lookup(name);
      if found {
        NotEntered(t0, name, sector);
        return false;
      }
      Enter(name, sector);
      return true;
    }

    /** Enters a directory under a new name: its slot 0 gets this directory as parent
        first. The name bytes of that entry are what the stack held. */
    method AddDirectory(name: Name, child: Word, junk: seq<byte>) returns (ok: bool)
      requires Valid() && |junk| == NAME_FIELD && child in fs.files && child != 0 && child != ino
      requires RoomForChild(fs.S(), ino, child)
      modifies fs`files, fs`owner, fs.cache, fs.cache.slots, fs.freeMap, fs.freeMap.elems
      ensures Valid() && (!ok ==> fs.S() == old(fs.S()))
      ensures ok <==> 0 < |name| <= NAME_MAX && name !in old(Listing(T()))
      ensures ok ==> ChildEntered(ino, child, old(fs.S()), fs.S(), name, junk)
    {
      hide Inodes.FileSystem.Valid, TableOf, Used, Full, RoomForChild, ChildEntered, Listing, UniqueNames;
      if |name| == 0 || |name| > NAME_MAX {
        return false;
      }
      var found, _, _ := Lookup(name);
      if found {
        return false;
      }
      EnterChild(name, child, junk);
      return true;
    }

    method EnterChild(name: Name, child: Word, junk: seq<byte>)
      requires Valid() && |junk| == NAME_FIELD && child in fs.files && child != 0 && child != ino
      requires RoomForChild(fs.S(), ino, child) && 0 < |name| <= NAME_MAX && name !in Listing(T())
      modifies fs`files, fs`owner, fs.cache, fs.cache.slots, fs.freeMap, fs.freeMap.elems
      ensures Valid() && ChildEntered(ino, child, old(fs.S()), fs.S(), name, junk)
    {
      hide BufferCache.Valid, Bitmap.Valid, Sound, Accounted, Content, Contents, IsDirectory, TableOf, Listing,
        FreeFrom, Wrote, Encode, Splice, Need, RoomForChild, RoomForEntry, Full, EnteredIn, ChildEntered, Cost,
        Sectors, FileOk, Persisted;
      ghost var s0 := fs.S();
      ChildFits(s0, ino, child);
      InodeIsWord(s0, ino);
      var n := fs.Write(child, Encode(Entry(ino, junk, true)), 0);
      ghost var s1 := fs.S();
      ParentBesideChild(s0, s1, ino, child, Encode(Entry(ino, junk, true)));
      Enter(name, child);
      ChildEnteredBy(ino, child, s0, s1, fs.S(), name, junk);
    }

    /** Enters a name that the directory does not hold yet. */
    method Enter(name: Name, sector: Word)
      requires Valid() && (Full(T()) ==> RoomForEntry(fs.S(), ino))
      requires 0 < |name| <= NAME_MAX && TableOk(T()) && name !in Listing(T())
      modifies fs`files, fs`owner, fs.cache, fs.cache.slots, fs.freeMap, fs.freeMap.elems
      ensures Valid() && EnteredIn(ino, old(fs.S()), fs.S(), name, sector, true)
    {
      hide Inodes.FileSystem.Valid, IsDirectory, TableOf, Entered, Used, Full, RoomForEntry, OnlyDirectory, Put,
        TableOk, Listing, CStr, UniqueNames;
      ghost var t0 := T();
      var slot := FindFree();
      EnteredBy(t0, slot, name, sector);
      WriteEntry(slot, Entry(sector, Pad(name), true));
    }

    /** Removes a name and the file it leads to. A directory must be empty, and only its
        name goes: opening it as a directory and closing that again has closed its
        inode before it is marked as removed, so its sectors are never given back. */
    method Remove(name: Name) returns (ok: bool)
      requires Valid() && Linked(fs.S(), ino)
      modifies fs`files, fs`owner, fs.cache, fs.cache.slots, fs.freeMap, fs.freeMap.elems
      ensures Valid() && (!ok ==> fs.S() == old(fs.S()))
      ensures ok <==> Removable(old(fs.S()), ino, name)
      ensures ok ==> if LeadsToDir(old(fs.S()), ino, name) then Orphaned(old(fs.S()), fs.S(), ino, name)
                     else Unlinked(old(fs.S()), fs.S(), ino, name)
    {
      hide Inodes.FileSystem.Valid, CStr, Listing, UniqueNames, IsDirectory, Unlinked, TableOf, Orphaned;
      var found, e, slot := Lookup(name);
      if !found {
        return false;
      }
      LinkedFile(fs.S(), ino, slot);
      ListingAt(T(), slot);
      var dir := IsDirFile(e.sector);
      if dir {
        var target := new Dir(fs, e.sector);
        var empty := target.IsEmpty();
        if empty {
          ClearSlot(slot, e);
        }
        return empty;
      }
      RemoveSlot(slot, e);
      return true;
    }

    /** Clears a slot and leaves the file it led to without a name. */
    method ClearSlot(slot: nat, e: Entry)
      requires Valid() && Used(T(), slot) && e == T()[slot] && |e.field| == NAME_FIELD
      modifies fs`files, fs`owner, fs.cache, fs.cache.slots, fs.freeMap, fs.freeMap.elems
      ensures Valid() && Orphaned(old(fs.S()), fs.S(), ino, CStr(e.field))
    {
      hide Inodes.FileSystem.Valid, CStr, Listing, UniqueNames, TableOf, OnlyDirectory, Cleared, Put, Orphaned;
      ghost var s0 := fs.S();
      ClearedIsPut(T(), slot);
      ClearedTable(T(), slot);
      WriteEntry(slot, e.(inUse := false));
      OrphanedBy(s0, fs.S(), ino, slot);
    }

    /** Clears a slot and removes the file it led to. */
    method RemoveSlot(slot: nat, e: Entry)
      requires Valid() && Used(T(), slot) && e == T()[slot] && |e.field| == NAME_FIELD
      requires e.sector in fs.files && e.sector != 0 && e.sector != ino
      modifies fs`files, fs`owner, fs.cache, fs.cache.slots, fs.freeMap, fs.freeMap.elems
      ensures Valid() && Unlinked(old(fs.S()), fs.S(), ino, CStr(e.field))
    {
      ghost var s0 := fs.S();
      ListingAfterRemove(T(), slot);
      ClearedIsPut(T(), slot);
      assert Sound(s0);
      hide Inodes.FileSystem.Valid, CStr, Listing, UniqueNames, TableOf, Unlinked, OnlyDirectory, Cleared, Put, Sound;
      WriteEntry(slot, e.(inUse := false));
      RemoveFile(e.sector, s0, slot);
    }

    /** Removes the file whose entry, in the given slot, has just been cleared. */
    method RemoveFile(x: Word, ghost s0: State, ghost slot: nat)
      requires Valid() && Sound(s0) && IsDirectory(s0, ino) && fs.S() == s0.(view := fs.cache.view)
      requires Used(TableOf(s0, ino), slot) && x == TableOf(s0, ino)[slot].sector && x in s0.files && x != 0 && x != ino
      requires T() == Cleared(TableOf(s0, ino), slot) && OnlyDirectory(ino, s0, fs.S())
      modifies fs`files, fs`owner, fs.cache, fs.cache.slots, fs.freeMap, fs.freeMap.elems
      ensures Valid() && Unlinked(s0, fs.S(), ino, CStr(TableOf(s0, ino)[slot].field))
    {
      hide BufferCache.Valid, Bitmap.Valid, Sound, IsDirectory, CStr, Listing, UniqueNames, Unlinked, Contents,
        OthersKept, FreeFrom, TableOf, Used, OnlyDirectory, Cleared;
      ghost var s1 := fs.S();
      fs.Remove(x);
      UnlinkedBy(s0, s1, fs.S(), ino, slot);
    }

    /** The next entry in use at or behind pos; moves pos behind it. */
    method Readdir() returns (ok: bool, name: Name)
      requires Valid() && pos > 0
      modifies `pos, fs.cache, fs.cache.slots
      ensures Valid() && fs.S() == old(fs.S()) && old(pos) <= pos
      ensures Found(T(), ok, name, old(pos), pos) && (!ok ==> pos == Max(old(pos), |T()|))
    {
      hide Inodes.FileSystem.Valid, CStr, IsDirectory, TableOf;
      name := [];
      var e;
      ok, e := ReadEntry(pos);
      while ok
        invariant Valid() && fs.S() == old(fs.S()) && old(pos) <= pos
        invariant (ok <==> pos < |T()|) && (ok ==> e == T()[pos]) && pos <= Max(old(pos), |T()|)
        invariant forall i :: old(pos) <= i < pos ==> !Used(T(), i)
        decreases |T()| - pos
      {
        pos := pos + 1;
        if e.inUse {
          name := CStr(e.field);
          return;
        }
        ok, e := ReadEntry(pos);
      }
    }

    /** A full pass lists every name once. */
    method ListNames() returns (names: seq<Name>)
      requires Valid() && pos == 1
      modifies `pos, fs.cache, fs.cache.slots
      ensures Valid() && fs.S() == old(fs.S()) && names == InOrder(T())
      ensures forall n :: n in names <==> n in Listing(T())
      ensures forall i, j :: 0 <= i < j < |names| ==> names[i] != names[j]
    {
      hide Inodes.FileSystem.Valid, CStr, Listing, UniqueNames, IsDirectory, TableOf, ListedTo, NoneUsed, Used,
        ListedInOrder, NamesIn;
      DirectoryOk(fs.S(), ino);
      InOrderNone(T());
      DirectoryUnique(fs.S(), ino);
      ListedNone(T());
      names := [];
      ghost var from: nat := 1;
      var ok, name := Readdir();
      while ok
        invariant Valid() && fs.S() == old(fs.S()) && pos > 0
        invariant ListedTo(T(), names, from) && Found(T(), ok, name, from, pos)
        invariant ListedInOrder(T(), names, from)
        decreases |T()| - from
      {
        ListedNext(T(), names, from, pos - 1);
        InOrderNext(T(), names, from, name, pos);
        names := names + [name];
        from := pos;
        ok, name := Readdir();
      }
      ListedAll(T(), names, from);
      InOrderAll(T(), names, from, name, pos);
    }

    /** Whether an inode is a directory's. */
    method IsDirFile(sector: nat) returns (dir: bool)
      requires Valid() && sector in fs.files
      modifies fs.cache, fs.cache.slots
      ensures Valid() && fs.S() == old(fs.S()) && dir == fs.files[sector].isDir
    {
      hide BufferCache.Valid, Bitmap.Valid, Placed, Content, Contents, IsDirectory, FileOk, Persisted;
      var inode := fs.OpenInode(sector);
      dir := inode.data[IS_DIR_SLOT] != 0;
    }
  }

  ghost predicate NoneUsed(t: seq<Entry>, from: nat, to: nat) {
    forall i: nat :: from <= i < to ==> !Used(t, i)
  }

  /** Searching from a slot on has found the next one in use, just below pos, or that there is none. */
  ghost predicate Found(t: seq<Entry>, ok: bool, name: Name, from: nat, pos: nat) {
    if ok then from < pos <= |t| && NoneUsed(t, from, pos - 1) && Used(t, pos - 1) && name == CStr(t[pos - 1].field)
    else NoneUsed(t, from, |t|)
  }

  /** names are those of the slots below `to`, each once. */
  ghost predicate ListedTo(t: seq<Entry>, names: seq<Name>, to: nat) {
    && (forall i: nat :: i < to && Used(t, i) ==> CStr(t[i].field) in names)
    && (forall n :: n in names ==> exists i: nat :: i < to && Used(t, i) && CStr(t[i].field) == n)
    && (forall i, j :: 0 <= i < j < |names| ==> names[i] != names[j])
  }

  /** names are those of the slots below `to`, in slot order. */
  ghost predicate ListedInOrder(t: seq<Entry>, names: seq<Name>, to: nat) {
    to <= |t| && names == NamesIn(t, 0, to)
  }

  lemma InOrderNone(t: seq<Entry>)
    requires t != []
    ensures ListedInOrder(t, [], 1)
  {
    NamesInOne(t, 0);
  }

  lemma InOrderNext(t: seq<Entry>, names: seq<Name>, from: nat, name: Name, pos: nat)
    requires ListedInOrder(t, names, from) && Found(t, true, name, from, pos)
    ensures ListedInOrder(t, names + [name], pos)
  {
    hide CStr, NamesIn;
    NamesInSplit(t, 0, from, pos);
    NamesInSplit(t, from, pos - 1, pos);
    NamesInUnused(t, from, pos - 1);
    NamesInOne(t, pos - 1);
  }

  lemma InOrderAll(t: seq<Entry>, names: seq<Name>, from: nat, name: Name, pos: nat)
    requires ListedInOrder(t, names, from) && Found(t, false, name, from, pos)
    ensures names == InOrder(t)
  {
    hide CStr, NamesIn;
    NamesInSplit(t, 0, from, |t|);
    NamesInUnused(t, from, |t|);
  }

  lemma DirectoryUnique(s: State, d: nat)
    requires IsDirectory(s, d)
    ensures UniqueNames(TableOf(s, d))
  {
  }

  lemma ListedNone(t: seq<Entry>)
    ensures ListedTo(t, [], 1)
  {
  }

  lemma NameIsNew(t: seq<Entry>, names: seq<Name>, from: nat, i: nat)
    requires UniqueNames(t) && ListedTo(t, names, from) && from <= i && Used(t, i)
    ensures CStr(t[i].field) !in names
  {
    hide CStr;
    forall m | m in names
      ensures m != CStr(t[i].field)
    {
      var k: nat :| k < from && Used(t, k) && CStr(t[k].field) == m;
    }
  }

  lemma ListedNext(t: seq<Entry>, names: seq<Name>, from: nat, i: nat)
    requires UniqueNames(t) && ListedTo(t, names, from) && from <= i && NoneUsed(t, from, i) && Used(t, i)
    ensures ListedTo(t, names + [CStr(t[i].field)], i + 1)
  {
    NameIsNew(t, names, from, i);
    hide CStr, UniqueNames;
    var n := CStr(t[i].field);
    var longer := names + [n];
    assert longer[|names|] == n && forall k :: 0 <= k < |names| ==> longer[k] == names[k];
    forall k: nat | k < i + 1 && Used(t, k)
      ensures CStr(t[k].field) in longer
    {
      assert k < from || k == i;
    }
    forall m | m in longer
      ensures exists k: nat :: k < i + 1 && Used(t, k) && CStr(t[k].field) == m
    {
      if m == n {
        assert i < i + 1 && Used(t, i);
      } else {
        assert m in names;
        var k: nat :| k < from && Used(t, k) && CStr(t[k].field) == m;
        assert k < i + 1;
      }
    }
  }

  lemma ListedAll(t: seq<Entry>, names: seq<Name>, from: nat)
    requires UniqueNames(t) && ListedTo(t, names, from) && NoneUsed(t, from, |t|)
    ensures forall n :: n in names <==> n in Listing(t)
    ensures forall i, j :: 0 <= i < j < |names| ==> names[i] != names[j]
  {
    hide CStr, Listing;
    forall n | n in names
      ensures n in Listing(t)
    {
      var k: nat :| k < from && Used(t, k) && CStr(t[k].field) == n;
      ListingAt(t, k);
    }
    forall n | n in Listing(t)
      ensures n in names
    {
      var k := SlotOf(t, n);
      assert k < from;
    }
  }

  /** Every entry of directory d leads to a live file of its own. */
  ghost predicate Linked(s: State, d: nat) {
    && UniqueNames(TableOf(s, d))
    && (forall n :: n in Listing(TableOf(s, d)) ==>
          var x := Listing(TableOf(s, d))[n];
          x in s.files && x != 0 && x != d && (s.files[x].isDir ==> IsDirectory(s, x)))
    && (forall m, n :: m in Listing(TableOf(s, d)) && n in Listing(TableOf(s, d)) && m != n ==>
          Listing(TableOf(s, d))[m] != Listing(TableOf(s, d))[n])
  }

  ghost predicate Removable(s: State, d: nat, name: Name) {
    && Linked(s, d) && name in Listing(TableOf(s, d))
    && var x := Listing(TableOf(s, d))[name]; s.files[x].isDir ==> Listing(TableOf(s, x)) == map[]
  }

  ghost function Cleared(t: seq<Entry>, i: nat): seq<Entry>
    requires i < |t|
  {
    t[i := t[i].(inUse := false)]
  }

  lemma ClearedIsPut(t: seq<Entry>, i: nat)
    requires i < |t|
    ensures Put(t, i, t[i].(inUse := false)) == Cleared(t, i)
  {
  }

  /** The slot of one name has been cleared, and no other slot has changed. */
  ghost predicate Thinned(t0: seq<Entry>, t1: seq<Entry>, name: Name) {
    exists i: nat :: Used(t0, i) && CStr(t0[i].field) == name && t1 == Cleared(t0, i)
  }

  lemma ClearedTable(t: seq<Entry>, i: nat)
    requires TableOk(t) && Used(t, i)
    ensures Thinned(t, Cleared(t, i), CStr(t[i].field)) && TableOk(Cleared(t, i))
            && Listing(Cleared(t, i)) == Listing(t) - {CStr(t[i].field)}
    ensures CStr(t[i].field) in Listing(t) && Listing(t)[CStr(t[i].field)] == t[i].sector
  {
    hide CStr, Listing, UniqueNames;
    ListingAfterRemove(t, i);
    ListingAt(t, i);
  }

  /** What removing a name does: the name is gone from directory d, its file is
      gone with all its sectors, and nothing else has changed. */
  ghost predicate Unlinked(s0: State, s1: State, d: nat, name: Name) {
    && IsDirectory(s0, d) && IsDirectory(s1, d) && name in Listing(TableOf(s0, d))
    && var x := Listing(TableOf(s0, d))[name];
    && Listing(TableOf(s1, d)) == Listing(TableOf(s0, d)) - {name} && Thinned(TableOf(s0, d), TableOf(s1, d), name)
    && x in s0.files && s1.files == s0.files - {x}
    && Contents(s1) - {d} == Contents(s0) - {d, x}
    && |s1.bits| == |s0.bits| && |FreeList(s1.bits)| == |FreeList(s0.bits)| + 1 + Cost(Sectors(s0.files[x].len))
    && (forall y :: y in s1.owner <==> y in s0.owner && s0.owner[y].ino != x)
    && (forall y :: y in s1.owner ==> s1.owner[y] == s0.owner[y])
  }

  /** The name leads to a directory. */
  ghost predicate LeadsToDir(s: State, d: nat, name: Name) {
    && UniqueNames(TableOf(s, d)) && name in Listing(TableOf(s, d))
    && Listing(TableOf(s, d))[name] in s.files && s.files[Listing(TableOf(s, d))[name]].isDir
  }

  /** What removing a directory does: its name is gone from directory d, and nothing
      else has changed; its inode and its sectors stay where they are, and marked. */
  ghost predicate Orphaned(s0: State, s1: State, d: nat, name: Name) {
    && IsDirectory(s0, d) && IsDirectory(s1, d) && name in Listing(TableOf(s0, d))
    && Listing(TableOf(s1, d)) == Listing(TableOf(s0, d)) - {name} && Thinned(TableOf(s0, d), TableOf(s1, d), name)
    && Contents(s1) - {d} == Contents(s0) - {d} && s1 == s0.(view := s1.view)
  }

  lemma OrphanedBy(s0: State, s1: State, d: nat, slot: nat)
    requires IsDirectory(s0, d) && IsDirectory(s1, d) && Used(TableOf(s0, d), slot)
    requires TableOf(s1, d) == Cleared(TableOf(s0, d), slot) && s1 == s0.(view := s1.view) && OnlyDirectory(d, s0, s1)
    ensures Orphaned(s0, s1, d, CStr(TableOf(s0, d)[slot].field))
  {
    hide CStr, Listing, UniqueNames, Contents, TableOf, Thinned, Cleared, TableOk, OthersKept;
    ClearedTable(TableOf(s0, d), slot);
  }

  /** A directory whose bytes and sectors stay is the same directory. */
  lemma DirectoryStays(s1: State, s2: State, d: nat)
    requires Sound(s1) && Sound(s2) && IsDirectory(s1, d) && d in s2.files && s2.files[d] == s1.files[d]
    requires d in Contents(s1) && d in Contents(s2) && Contents(s2)[d] == Contents(s1)[d]
    ensures IsDirectory(s2, d) && TableOf(s2, d) == TableOf(s1, d)
  {
    hide Sound, TableOk, EntryTable.Table, Contents;
    ContentsOf(s1, d);
    ContentsOf(s2, d);
  }

  lemma UnlinkedBy(s0: State, s1: State, s2: State, d: nat, slot: nat)
    requires Sound(s0) && IsDirectory(s0, d) && Used(TableOf(s0, d), slot)
    requires Sound(s1) && s1 == s0.(view := s1.view) && IsDirectory(s1, d)
             && TableOf(s1, d) == Cleared(TableOf(s0, d), slot)
    requires OnlyDirectory(d, s0, s1) && Sound(s2)
    requires var x := TableOf(s0, d)[slot].sector;
             && x in s0.files && x != 0 && x != d && s2.files == s1.files - {x} && Contents(s2) == Contents(s1) - {x}
             && OthersKept(x, s1, s2) && (forall y :: y in s2.owner ==> s2.owner[y].ino != x)
             && |s2.bits| == |s1.bits|
               && |FreeList(s2.bits)| == |FreeList(s1.bits)| + 1 + Cost(Sectors(s1.files[x].len))
    ensures Unlinked(s0, s2, d, CStr(TableOf(s0, d)[slot].field)) && IsDirectory(s2, d)
  {
    hide Sound, CStr, Listing, UniqueNames, Contents, FreeFrom, TableOf, Cost, Sectors, Thinned, Cleared, TableOk;
    var x := TableOf(s0, d)[slot].sector;
    ClearedTable(TableOf(s0, d), slot);
    ContentsOf(s1, d);
    DirectoryStays(s1, s2, d);
    MinusBoth(Contents(s0), Contents(s1), Contents(s2), d, x);
  }

  lemma MinusBoth<K, V>(m0: map<K, V>, m1: map<K, V>, m2: map<K, V>, d: K, x: K)
    requires m1 - {d} == m0 - {d} && m2 == m1 - {x}
    ensures m2 - {d} == m0 - {d, x}
  {
    assert m2 - {d} == (m1 - {d}) - {x};
  }

  lemma LinkedFile(s: State, d: nat, slot: nat)
    requires Linked(s, d) && Used(TableOf(s, d), slot)
    ensures var x := TableOf(s, d)[slot].sector;
            x in s.files && x != 0 && x != d && (s.files[x].isDir ==> IsDirectory(s, x))
  {
    hide CStr, Listing, IsDirectory;
    ListingAt(TableOf(s, d), slot);
  }

  /** What adding an entry does: it fails exactly for an empty, overlong or known
      name; otherwise the directory gains that name and keeps its parent. */
  ghost predicate Entered(t0: seq<Entry>, t1: seq<Entry>, name: Name, sector: Word, ok: bool) {
    && TableOk(t0) && TableOk(t1) && t1[0] == t0[0]
    && (ok <==> 0 < |name| <= NAME_MAX && name !in Listing(t0))
    && Listing(t1) == (if ok then Listing(t0)[name := sector] else Listing(t0))
    && (if ok then TakesFirst(t0, t1, name, sector) else t1 == t0)
  }

  /** Adding an entry to directory d changes nothing when it fails, nothing but d's
      bytes while d has an unused slot, and never another file. */
  ghost predicate EnteredIn(d: nat, s0: State, s1: State, name: Name, sector: Word, ok: bool) {
    && OnlyDirectory(d, s0, s1) && Entered(TableOf(s0, d), TableOf(s1, d), name, sector, ok)
    && (!ok ==> s1 == s0)
    && (!Full(TableOf(s0, d)) ==> s1 == s0.(view := s1.view) && |TableOf(s1, d)| == |TableOf(s0, d)|)
    && (ok && Full(TableOf(s0, d)) ==> OneEntryLess(d, s0, s1) && |TableOf(s1, d)| == |TableOf(s0, d)| + 1)
  }

  /** The sectors that one more entry takes are gone from the free list. */
  ghost predicate OneEntryLess(d: nat, s0: State, s1: State) {
    d in s0.files && |FreeList(s1.bits)| == |FreeList(s0.bits)| - Need(s0.files[d].len, s0.files[d].len + ENTRY_SIZE)
  }

  /** The name can be entered: it is not empty, not too long, and not known. */
  ghost predicate Enterable(t: seq<Entry>, name: Name) {
    TableOk(t) && 0 < |name| <= NAME_MAX && name !in Listing(t)
  }

  lemma DirectoryOk(s: State, d: nat)
    requires IsDirectory(s, d)
    ensures d in s.files && TableOk(TableOf(s, d))
  {
  }

  lemma NotEntered(t: seq<Entry>, name: Name, sector: Word)
    requires TableOk(t) && !(0 < |name| <= NAME_MAX && name !in Listing(t))
    ensures Entered(t, t, name, sector, false)
  {
  }

  lemma EnteredBy(t: seq<Entry>, slot: nat, name: Name, sector: Word)
    requires TableOk(t) && 0 < slot && FirstUnused(t, slot) && 0 < |name| <= NAME_MAX && name !in Listing(t)
    ensures var t' := Put(t, slot, Entry(sector, Pad(name), true));
            && TableOk(t') && Entered(t, t', name, sector, true)
            && |t'| == if slot == |t| then |t| + 1 else |t|
  {
    hide CStr, Listing, UniqueNames;
    CStrOfPadded(name, NAME_FIELD - |name|);
    ListingAfterAdd(t, slot, Entry(sector, Pad(name), true));
  }

  lemma TableLength(s: State, d: nat)
    requires IsDirectory(s, d)
    ensures d != 0 && d in s.files && ENTRY_SIZE * |TableOf(s, d)| == s.files[d].len
  {
    hide TableOk, Decode, EntryAt;
  }

  lemma EntryFits(s: State, d: nat, slot: nat)
    requires Sound(s) && IsDirectory(s, d) && slot <= |TableOf(s, d)|
    requires slot == |TableOf(s, d)| ==> RoomForEntry(s, d)
    ensures d != 0 && d in s.files && ENTRY_SIZE * slot + ENTRY_SIZE <= MAX_LENGTH
    ensures slot < |TableOf(s, d)| ==> ENTRY_SIZE * slot + ENTRY_SIZE <= s.files[d].len
    ensures Need(s.files[d].len, ENTRY_SIZE * slot + ENTRY_SIZE) <= |FreeList(s.bits)|
  {
    hide FreeFrom, Sound, IsDirectory, TableOf, Cost, Sectors;
    TableLength(s, d);
    SoundFile(s, d);
  }

  lemma EntryTaken(s0: State, s1: State, d: nat, slot: nat)
    requires IsDirectory(s0, d) && d in s0.files
    requires |FreeList(s1.bits)| == |FreeList(s0.bits)| - Need(s0.files[d].len, ENTRY_SIZE * slot + ENTRY_SIZE)
    ensures slot == |TableOf(s0, d)| ==> OneEntryLess(d, s0, s1)
  {
    hide FreeFrom, IsDirectory, TableOf, Need;
    TableLength(s0, d);
  }

  lemma TableWritten(s0: State, s1: State, d: nat, slot: nat, e: Entry)
    requires Sound(s0) && Sound(s1) && IsDirectory(s0, d) && slot <= |TableOf(s0, d)| && |e.field| == NAME_FIELD
    requires Wrote(d, s0, s1, ENTRY_SIZE * slot, Encode(e)) && TableOk(Put(TableOf(s0, d), slot, e))
    requires d in s0.files
             && Contents(s1) == Contents(s0)[d := Splice(Content(s0.view, s0.files[d]), ENTRY_SIZE * slot, Encode(e))]
    ensures IsDirectory(s1, d) && TableOf(s1, d) == Put(TableOf(s0, d), slot, e)
    ensures OnlyDirectory(d, s0, s1)
  {
    hide Sound, Contents, Content, Splice, Encode, TableOk, Put, OthersKept;
    var c := Content(s0.view, s0.files[d]);
    TableAfterWrite(c, slot, e);
    ContentsBeside(d, s0, s1, Splice(c, ENTRY_SIZE * slot, Encode(e)));
  }

  /** There is room for the table to grow by one entry. */
  ghost predicate RoomForEntry(s: State, d: nat) {
    d in s.files && s.files[d].len + ENTRY_SIZE <= MAX_LENGTH
    && Need(s.files[d].len, s.files[d].len + ENTRY_SIZE) <= |FreeList(s.bits)|
  }

  ghost predicate Full(t: seq<Entry>) {
    forall i :: 0 <= i < |t| ==> t[i].inUse
  }

  /** There is room for the parent's entry in file x and for one more entry in directory d. */
  ghost predicate RoomForChild(s: State, d: nat, x: nat) {
    && d in s.files && x in s.files && Need(s.files[x].len, ENTRY_SIZE) <= |FreeList(s.bits)|
    && (Full(TableOf(s, d)) ==>
          && s.files[d].len + ENTRY_SIZE <= MAX_LENGTH
          && Need(s.files[x].len, ENTRY_SIZE) + Need(s.files[d].len, s.files[d].len + ENTRY_SIZE) <= |FreeList(s.bits)|)
  }

  /** What entering directory x in directory d does: d gains the name, x gets d as its
      parent, and no other file has changed. */
  ghost predicate ChildEntered(d: nat, x: Word, s0: State, s1: State, name: Name, junk: seq<byte>) {
    && IsDirectory(s0, d) && IsDirectory(s1, d) && d < 0x1_0000_0000 && |junk| == NAME_FIELD
    && Entered(TableOf(s0, d), TableOf(s1, d), name, x, true)
    && x in Contents(s0) && x in Contents(s1) && x in s1.files && s1.files.Keys == s0.files.Keys
    && Contents(s1)[x] == Splice(Contents(s0)[x], 0, Encode(Entry(d, junk, true)))
    && Contents(s1) - {d, x} == Contents(s0) - {d, x}
  }

  lemma ChildFits(s: State, d: nat, x: nat)
    requires RoomForChild(s, d, x)
    ensures d in s.files && x in s.files && Need(s.files[x].len, ENTRY_SIZE) <= |FreeList(s.bits)|
  {
    hide Need, FreeFrom;
  }

  lemma InodeIsWord(s: State, d: nat)
    requires Sound(s) && d in s.files && |s.bits| < BITMAP_ERROR
    ensures d < 0x1_0000_0000
  {
    hide AllOk, NoLeak, Persisted;
    AccountedIsPlaced(s);
    InodeInRange(s, d);
  }

  lemma ParentBesideChild(s0: State, s1: State, d: nat, x: nat, data: seq<byte>)
    requires Sound(s0) && Sound(s1) && IsDirectory(s0, d) && x != d && Wrote(x, s0, s1, 0, data) && |data| == ENTRY_SIZE
    requires Contents(s1) == Contents(s0)[x := Splice(Content(s0.view, s0.files[x]), 0, data)]
    requires |FreeList(s1.bits)| == |FreeList(s0.bits)| - Need(s0.files[x].len, ENTRY_SIZE)
    requires RoomForChild(s0, d, x)
    ensures IsDirectory(s1, d) && TableOf(s1, d) == TableOf(s0, d) && TableOk(TableOf(s1, d))
    ensures Full(TableOf(s1, d)) ==> RoomForEntry(s1, d)
  {
    hide Sound, Contents, Content, Splice, OthersKept, Taken, FreeFrom, Need, TableOf, TableOk;
    ContentsOf(s0, d);
    DirectoryStays(s0, s1, d);
  }

  lemma ChildEnteredBy(d: nat, x: Word, s0: State, s1: State, s2: State, name: Name, junk: seq<byte>)
    requires Sound(s0) && IsDirectory(s0, d) && IsDirectory(s1, d) && IsDirectory(s2, d) && x != d && x != 0
    requires d < 0x1_0000_0000 && |junk| == NAME_FIELD && x in s0.files
    requires Wrote(x, s0, s1, 0, Encode(Entry(d, junk, true))) && TableOf(s1, d) == TableOf(s0, d)
    requires Contents(s1) == Contents(s0)[x := Splice(Content(s0.view, s0.files[x]), 0, Encode(Entry(d, junk, true)))]
    requires EnteredIn(d, s1, s2, name, x, true)
    ensures ChildEntered(d, x, s0, s2, name, junk)
  {
    hide Sound, Contents, Content, Splice, OthersKept, Taken, FreeFrom, Need, TableOf, Encode, Entered, Full,
      OneEntryLess;
    ContentsOf(s0, x);
    PutBoth(Contents(s0), Contents(s1), Contents(s2), d, x);
  }

  lemma PutBoth<K, V>(m0: map<K, V>, m1: map<K, V>, m2: map<K, V>, d: K, x: K)
    requires x in m1 && m1 == m0[x := m1[x]] && m2 - {d} == m1 - {d} && x != d
    ensures x in m2 && m2[x] == m1[x] && m2 - {d, x} == m0 - {d, x}
  {
    assert x in m1 - {d};
    assert (m2 - {d}) - {x} == m2 - {d, x} && (m1 - {d}) - {x} == m1 - {d, x};
    assert m1 - {d, x} == m0 - {d, x};
  }

  /** A file of zeros, as it was created, is then an empty directory with its parent. */
  lemma ChildIsEmptyDirectory(d: nat, x: Word, s0: State, s1: State, name: Name, junk: seq<byte>, n: nat)
    requires Sound(s1) && ChildEntered(d, x, s0, s1, name, junk) && x != 0
    requires Contents(s0)[x] == Zeros(ENTRY_SIZE * n)
    ensures IsDirectory(s1, x) && TableOf(s1, x)[0].sector == d && Listing(TableOf(s1, x)) == map[]
  {
    hide Sound, Contents, Content, Splice, Encode, EntryTable.Table, TableOk, Listing, Entered, Zeros;
    ContentsOf(s1, x);
    FreshTable(Contents(s1)[x], n, Entry(d, junk, true));
    DirectoryUnique(s1, x);
    EmptyListing(TableOf(s1, x));
  }

  /** Only directory d has changed. */
  ghost predicate OnlyDirectory(d: nat, s0: State, s1: State) {
    && d in s0.files && d in s1.files && s1.files == s0.files[d := s1.files[d]]
    && Contents(s1) - {d} == Contents(s0) - {d} && OthersKept(d, s0, s1) && |s1.bits| == |s0.bits|
  }

  lemma OnlyDirectoryRefl(d: nat, s: State)
    requires d in s.files
    ensures OnlyDirectory(d, s, s)
  {
    OthersKeptRefl(d, s);
  }

  lemma ContentsBeside(d: nat, s0: State, s1: State, c: seq<byte>)
    requires Contents(s1) == Contents(s0)[d := c]
    ensures Contents(s1) - {d} == Contents(s0) - {d}
  {
    hide Contents;
  }

  lemma EmptyListing(t: seq<Entry>)
    requires UniqueNames(t) && forall i :: 0 <= i < |t| ==> !Used(t, i)
    ensures Listing(t) == map[]
  {
  }

  lemma ContentsOf(s: State, d: nat)
    requires Sound(s) && d in s.files && d != 0
    ensures d in Contents(s) && Contents(s)[d] == Content(s.view, s.files[d])
  {
  }
}
