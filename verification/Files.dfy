/** Open files and the utilities that work on them by name. */
module Files {
  import opened Words
  import opened BlockTree
  import opened Bitmaps
  import opened Cache
  import opened Volume
  import opened Growth
  import opened FileData
  import opened Ledger
  import opened EntryTable
  import opened Directory
  import opened Names
  import Inodes

  /** An open file: its inode and the position of the next read or write. */
  datatype File = File(ino: Word, pos: int)

  /** The bytes are those of the file from pos on: size of them, or as many as there are. */
  predicate ReadFrom(c: seq<byte>, pos: int, size: nat, bytes: seq<byte>) {
    && 0 <= pos && |bytes| == (if pos >= |c| then 0 else Min(size, |c| - pos))
    && forall k :: 0 <= k < |bytes| ==> bytes[k] == c[pos + k]
  }

  /** Only the last byte has changed, and it is zero. */
  predicate LastZeroed(before: seq<byte>, after: seq<byte>) {
    && |after| == |before| && (after != [] ==> after[|after| - 1] == 0)
    && forall k :: 0 <= k < |before| - 1 ==> after[k] == before[k]
  }

  lemma TerminatedMeans(buffer: seq<byte>)
    ensures LastZeroed(buffer, Terminated(buffer))
  {
  }

  /** A buffer after file_write has terminated it. */
  function Terminated(buffer: seq<byte>): seq<byte> {
    if buffer == [] then [] else buffer[|buffer| - 1 := 0]
  }

  method Terminate(buffer: array<byte>)
    modifies buffer
    ensures buffer[..] == Terminated(old(buffer[..]))
    ensures forall k :: 0 <= k < buffer.Length - 1 ==> buffer[k] == old(buffer[k])
    ensures buffer.Length > 0 ==> buffer[buffer.Length - 1] == 0
  {
    if buffer.Length > 0 {
      buffer[buffer.Length - 1] := 0;
    }
  }

  class FileTable {
    const fs: Inodes.FileSystem
    var table: map<Name, File>

    ghost predicate Valid()
      reads this, fs, fs.cache, fs.cache.slots, fs.freeMap, fs.freeMap.elems, fs.freeMapInode
    {
      fs.Valid() && Rooted(fs.S()) && Tabled(table, Links(fs.S()))
    }

    /** No file is open at first. */
    constructor (fs: Inodes.FileSystem)
      requires fs.Valid() && Rooted(fs.S())
      ensures Valid() && this.fs == fs && table == map[]
    {
      hide Inodes.FileSystem.Valid, Rooted, Links;
      this.fs := fs;
      table := map[];
    }

    /** The inode of a plain name. */
    method Find(name: Name) returns (found: bool, ino: Word)
      requires fs.Valid() && Rooted(fs.S())
      modifies fs.cache, fs.cache.slots
      ensures fs.Valid() && fs.S() == old(fs.S())
      ensures found <==> name in Links(fs.S())
      ensures found ==> ino == Links(fs.S())[name]
    {
      hide Inodes.FileSystem.Valid, TableOf, Listing, LinksOk, CStr, TableOk, Sound, UniqueNames;
      var dir := new Dir(fs, ROOT);
      var e, slot;
      found, e, slot := dir.Lookup(name);
      ino := e.sector;
      if found {
        DirectoryUnique(fs.S(), ROOT);
        ListingAt(dir.T(), slot);
      }
    }

    /** Looks a file up in the table of open files, opening it if it is not there. */
    method Open(name: Name) returns (ok: bool)
      requires Valid() && Plain(name)
      modifies `table, fs.cache, fs.cache.slots
      ensures Valid() && fs.S() == old(fs.S())
      ensures ok <==> name in Links(fs.S())
      ensures ok ==> name in table
      ensures table == if ok && name !in old(table)
                       then old(table)[name := File(Links(fs.S())[name], 0)] else old(table)
    {
      hide Inodes.FileSystem.Valid, Rooted, Links;
      if name in table {
        return true;
      }
      var ino;
      ok, ino := Find(name);
      if ok {
        table := table[name := File(ino, 0)];
      }
    }

    /** Creates a file of zeros. */
    method Create(name: Name, size: nat)
      requires Valid() && FileName(name) && name !in Named(fs.S()) && Fits(fs.S(), size)
      modifies fs`files, fs`owner, fs.cache, fs.cache.slots, fs.freeMap, fs.freeMap.elems
      ensures Valid() && MadeFile(old(fs.S()), fs.S(), name, size)
    {
      hide BufferCache.Valid, Bitmap.Valid, Sound, Contents, Content, FreeFrom, OthersKept, IsDirectory, TableOf,
        LinksOk, Links, Fits, EnteredIn, MadeFile, FirstFree, FileName, Full, RoomForEntry, Cost, Sectors, Named,
        Rooted, Accounted;
      RootedFacts(fs.S());
      ghost var s0 := fs.S();
      RootedLinked(s0);
      FitsFacts(s0, size);
      var dir := new Dir(fs, ROOT);
      var ino := fs.Create(size, false);
      ghost var s1 := fs.S();
      EntryStillFits(s0, s1, ino, size);
      var ok := dir.Add(name, ino);
      EnteredIfNew(s1, fs.S(), name, ino, ok);
      MadeFileBy(s0, s1, fs.S(), ino, name, size);
      MadeFileLinks(s0, fs.S(), name, size);
    }

    /** Creating under a name that is taken or too long fails, and gives back only the
        new inode: nobody sees a change, but the file's sectors are lost, so that the
        volume stays sound exactly if the size is 0. */
    method CreateRefused(name: Name, size: nat)
      requires Valid() && (name in Named(fs.S()) || |name| > NAME_MAX)
      requires size <= MAX_LENGTH && 1 + Cost(Sectors(size)) <= fs.Room()
      modifies fs`files, fs`owner, fs.cache, fs.cache.slots, fs.freeMap, fs.freeMap.elems
      ensures Contents(fs.S()) == old(Contents(fs.S())) && fs.files == old(fs.files)
      ensures fs.Room() == old(fs.Room()) - Cost(Sectors(size))
      ensures Sound(fs.S()) <==> size == 0
    {
      hide BufferCache.Valid, Bitmap.Valid, Sound, Contents, Content, FreeFrom, OthersKept, IsDirectory, TableOf,
        LinksOk, Links, EnteredIn, FileName, Full, RoomForEntry, Cost, Sectors, Named, Rooted, Accounted, Enterable,
        Persisted, FileOk;
      RootedFacts(fs.S());
      ghost var s0 := fs.S();
      var dir := new Dir(fs, ROOT);
      var ino := fs.Create(size, false);
      ghost var s1 := fs.S();
      RefusedFacts(s0, s1, ino, name, size);
      var ok := dir.Add(name, ino);
      RefusedEntry(s1, fs.S(), name, ino, ok);
      if !ok {
        fs.Abandon(ino);
      }
      MadeAndGone(s0.files, s1.files, Contents(s0), Contents(s1), ino);
    }

    /** Reads from the file's position and moves it on; -1 if there is no such file. */
    method Read(name: Name, size: nat) returns (n: int, bytes: seq<byte>)
      requires Valid() && Plain(name) && Pos(table, name) >= 0
      modifies `table, fs.cache, fs.cache.slots
      ensures Valid() && fs.S() == old(fs.S())
      ensures name !in Named(fs.S()) ==> n == -1 && bytes == [] && table == old(table)
      ensures name in Named(fs.S()) ==>
                && bytes == Slice(Named(fs.S())[name], Pos(old(table), name), size) && n == |bytes|
                && ReadFrom(Named(fs.S())[name], Pos(old(table), name), size, bytes)
                && Moved(old(table), table, name, Pos(old(table), name) + n)
    {
      hide Inodes.FileSystem.Valid, Rooted, Links, Contents, Slice, Named, FileName;
      NameLinked(fs.S(), name);
      var ok := Open(name);
      if !ok {
        return -1, [];
      }
      var f := table[name];
      bytes := fs.Read(f.ino, size, f.pos);
      SliceMeans(Named(fs.S())[name], f.pos, size);
      n := |bytes|;
      table := table[name := f.(pos := f.pos + n)];
    }

    /** Sets the position; creates no file. */
    method Seek(name: Name, pos: nat) returns (n: int)
      requires Valid() && Plain(name)
      modifies `table, fs.cache, fs.cache.slots
      ensures Valid() && fs.S() == old(fs.S())
      ensures name !in Named(fs.S()) ==> n == -1 && table == old(table)
      ensures name in Named(fs.S()) ==> n == 0 && Moved(old(table), table, name, pos)
    {
      hide Inodes.FileSystem.Valid, Rooted, Links, Named, FileName;
      NameLinked(fs.S(), name);
      var ok := Open(name);
      if !ok {
        return -1;
      }
      table := table[name := table[name].(pos := pos)];
      return 0;
    }

    /** Terminates the buffer, writes it at the file's position, and moves the
        position to the second byte from the end of what was written. */
    method Write(name: Name, buffer: array<byte>) returns (n: int)
      requires Valid() && Plain(name)
      requires (buffer as object) != fs.cache.slots && (buffer as object) != fs.freeMap.elems
      requires name in Named(fs.S()) ==>
                 Pos(table, name) >= 0 && WriteFits(fs.S(), name, Pos(table, name), buffer.Length)
      modifies `table, buffer, fs`files, fs`owner, fs.cache, fs.cache.slots, fs.freeMap, fs.freeMap.elems
      ensures Valid()
      ensures name !in old(Named(fs.S())) ==>
                n == -1 && fs.S() == old(fs.S()) && table == old(table) && buffer[..] == old(buffer[..])
      ensures name in old(Named(fs.S())) ==>
                && n == buffer.Length && buffer[..] == Terminated(old(buffer[..]))
                && LastZeroed(old(buffer[..]), buffer[..])
                && WroteFile(old(fs.S()), fs.S(), name, Pos(old(table), name), Terminated(old(buffer[..])))
                && Moved(old(table), table, name, Pos(old(table), name) + n - 2)
    {
      hide Inodes.FileSystem.Valid, Rooted, Links, Named, Contents, FileName, Plain, WroteFile, WriteFits, Tabled,
        Moved;
      ghost var t0 := table;
      NameLinked(fs.S(), name);
      var ok := Open(name);
      if !ok {
        return -1;
      }
      MovedFromOpen(t0, table, name);
      Terminate(buffer);
      TerminatedMeans(old(buffer[..]));
      n := WriteOpen(name, buffer[..]);
    }

    /** file_write on an open file, once the buffer is terminated. */
    method WriteOpen(name: Name, data: seq<byte>) returns (n: nat)
      requires Valid() && name in table && table[name].pos >= 0
      requires WriteFits(fs.S(), name, table[name].pos, |data|)
      modifies `table, fs`files, fs`owner, fs.cache, fs.cache.slots, fs.freeMap, fs.freeMap.elems
      ensures Valid() && n == |data| && WroteFile(old(fs.S()), fs.S(), name, old(table[name].pos), data)
      ensures Moved(old(table), table, name, old(table[name].pos) + n - 2)
    {
      hide Inodes.FileSystem.Valid, Rooted, Links, Named, WroteFile, WriteFits;
      var f := table[name];
      n := WriteAtPos(name, f, data);
      table := table[name := f.(pos := f.pos + n - 2)];
    }

    method WriteAtPos(name: Name, f: File, data: seq<byte>) returns (n: nat)
      requires Valid() && name in table && f == table[name]
      requires f.pos >= 0 && WriteFits(fs.S(), name, f.pos, |data|)
      modifies fs`files, fs`owner, fs.cache, fs.cache.slots, fs.freeMap, fs.freeMap.elems
      ensures Valid() && n == |data| && WroteFile(old(fs.S()), fs.S(), name, f.pos, data)
    {
      hide BufferCache.Valid, Bitmap.Valid, Sound, Rooted, Links, Named, FileName, WroteFile, Content, Contents,
        FreeFrom, OthersKept, IsDirectory, TableOf, LinksOk, Cost, Sectors, Wrote, Splice, Accounted;
      ghost var s0 := fs.S();
      RootedLinked(s0);
      RootedFacts(s0);
      WriteFitsFacts(s0, name, f.pos, |data|);
      n := fs.Write(f.ino, data, f.pos);
      WroteFileBy(s0, fs.S(), f.ino, name, f.pos, data);
      WroteFileLinks(s0, fs.S(), name, f.pos, data);
    }

    /** Closes and removes a file. */
    method Remove(name: Name) returns (ok: bool)
      requires Valid() && Plain(name)
      modifies `table, fs`files, fs`owner, fs.cache, fs.cache.slots, fs.freeMap, fs.freeMap.elems
      ensures Valid() && table == old(table) - {name}
      ensures ok <==> name in old(Named(fs.S()))
      ensures if ok then RemovedFile(old(fs.S()), fs.S(), name) else fs.S() == old(fs.S())
    {
      hide Inodes.FileSystem.Valid, Sound, Rooted, Links, Named, FileName, IsDirectory, TableOf, LinksOk, RemovedFile,
        Unlinked, Linked, Removable, LeadsToDir, Orphaned, Contents;
      ghost var s0 := fs.S();
      RootedLinked(s0);
      RootedFacts(s0);
      RemovableIfNamed(s0, name);
      table := table - {name};
      var dir := new Dir(fs, ROOT);
      ok := dir.Remove(name);
      if ok {
        ValidSound();
        RemovedFileBy(s0, fs.S(), name);
        RemovedFileLinks(s0, fs.S(), name);
      }
    }

    lemma ValidSound()
      requires fs.Valid()
      ensures Sound(fs.S())
    {
    }
  }

  /** Only the position of one file has changed; the file may have been opened. */
  ghost predicate Moved(t0: map<Name, File>, t1: map<Name, File>, name: Name, pos: int) {
    name in t1 && t1 == t0[name := File(t1[name].ino, pos)]
  }

  /** Opening a file does not count as moving it. */
  lemma MovedFromOpen(t0: map<Name, File>, t1: map<Name, File>, name: Name)
    requires name in t1 && (t1 == t0 || (name !in t0 && t1 == t0[name := File(t1[name].ino, 0)]))
    ensures Pos(t0, name) == t1[name].pos
    ensures forall t2, pos :: Moved(t1, t2, name, pos) ==> Moved(t0, t2, name, pos)
  {
  }

  ghost function Cursors(table: map<Name, File>): map<Name, int> {
    map n | n in table :: table[n].pos
  }

  function Pos(table: map<Name, File>, name: Name): int {
    if name in table then table[name].pos else 0
  }

  /** There is room to write so many bytes to a file at a position. */
  ghost predicate WriteFits(s: State, name: Name, pos: int, size: nat) {
    && name in Named(s) && 0 <= pos && pos + size <= MAX_LENGTH && (pos + size > 0 || Named(s)[name] == [])
    && Need(|Named(s)[name]|, pos + size) <= |FreeList(s.bits)|
  }

  lemma WriteFitsFacts(s: State, name: Name, pos: int, size: nat)
    requires Rooted(s) && WriteFits(s, name, pos, size) && name in Links(s)
    ensures var x := Links(s)[name];
            && 0 <= pos && pos + size <= MAX_LENGTH && x in s.files && x != 0 && (pos + size > 0 || s.files[x].len == 0)
            && Need(s.files[x].len, pos + size) <= |FreeList(s.bits)|
  {
    hide Sound, IsDirectory, Links, LinksOk, Contents, FreeFrom, Need, FileName;
    RootedLinked(s);
    SoundFile(s, Links(s)[name]);
  }

  lemma RemovableIfNamed(s: State, name: Name)
    requires Rooted(s)
    ensures (Removable(s, ROOT, name) <==> name in Links(s)) && !LeadsToDir(s, ROOT, name)
  {
    hide Sound, TableOf, Listing, LinksOk, Contents, FileName;
    RootedLinked(s);
  }

  lemma WroteFileLinks(s0: State, s1: State, name: Name, offset: nat, data: seq<byte>)
    requires WroteFile(s0, s1, name, offset, data) && Links(s1) == Links(s0)
    ensures Rooted(s1)
  {
    hide Rooted;
  }

  lemma RemovedFileLinks(s0: State, s1: State, name: Name)
    requires RemovedFile(s0, s1, name)
    ensures Rooted(s1) && forall n :: n in Links(s0) && n != name ==> n in Links(s1) && Links(s1)[n] == Links(s0)[n]
  {
    hide Rooted, Links, RootSlots, FreeFrom, Cost, Sectors, Contents, SystemKept, TableOf, Thinned, FileName;
    RootedLinked(s0);
    RootedLinked(s1);
  }

  lemma RefusedFacts(s0: State, s1: State, ino: Word, name: Name, size: nat)
    requires Rooted(s0) && Sound(s1) && MadeInode(s0, s1, ino, size, false) && (name in Named(s0) || |name| > NAME_MAX)
    ensures ino != 0 && ino !in s0.files && ino !in Contents(s0) && IsDirectory(s1, ROOT)
    ensures !Enterable(TableOf(s1, ROOT), name)
    ensures |FreeList(s1.bits)| == |FreeList(s0.bits)| - 1 - Cost(Sectors(size))
  {
    hide Sound, Contents, LinksOk, FreeFrom, Cost, Sectors, OthersKept, TableOf, Listing, SystemKept, UniqueNames;
    MadeInodeBeside(s0, s1, ino, size);
    NameLinked(s0, name);
  }

  lemma RefusedEntry(s0: State, s1: State, name: Name, ino: Word, ok: bool)
    requires IsDirectory(s0, ROOT) && EnteredIn(ROOT, s0, s1, name, ino, ok) && !Enterable(TableOf(s0, ROOT), name)
    ensures !ok && s1 == s0
  {
    hide Contents, TableOf, Listing, Full, OneEntryLess, OthersKept, UniqueNames;
  }

  lemma MadeAndGone(f0: map<nat, FileRec>, f1: map<nat, FileRec>, c0: map<nat, seq<byte>>, c1: map<nat, seq<byte>>,
                    x: nat)
    requires x !in f0 && x in f1 && f1 == f0[x := f1[x]] && x !in c0 && x in c1 && c1 == c0[x := c1[x]]
    ensures f1 - {x} == f0 && c1 - {x} == c0
  {
  }

  /** The open files are files of the root directory. */
  ghost predicate Tabled(table: map<Name, File>, links: map<Name, Word>) {
    forall n :: n in table ==> n in links && table[n].ino == links[n]
  }

  lemma NameLinked(s: State, name: Name)
    requires Rooted(s)
    ensures name in Named(s) <==> name in Links(s)
    ensures name in Links(s) ==>
              && Links(s)[name] in s.files && Links(s)[name] != 0
              && Links(s)[name] in Contents(s) && Named(s)[name] == Contents(s)[Links(s)[name]]
  {
    hide Rooted, Links, Contents, Named, FileName;
    RootedLinked(s);
  }

  lemma RootedFacts(s: State)
    requires Rooted(s)
    ensures Sound(s) && IsDirectory(s, ROOT) && ROOT in s.files
  {
  }

  lemma FitsFacts(s: State, size: nat)
    requires Fits(s, size)
    ensures size <= MAX_LENGTH && 1 + Cost(Sectors(size)) <= |FreeList(s.bits)|
  {
    hide Named, RootSlots, FreeFrom, Cost, Sectors;
  }

  lemma MadeFileLinks(s0: State, s1: State, name: Name, size: nat)
    requires MadeFile(s0, s1, name, size)
    ensures Rooted(s1) && forall n :: n in Links(s0) ==> n in Links(s1) && Links(s1)[n] == Links(s0)[n]
  {
    hide Rooted, Links, RootSlots, FreeFrom, Cost, Sectors, Contents, SystemKept, EntryNeed;
    RootedLinked(s0);
    RootedLinked(s1);
  }

  // ----- A new volume -----

  const MAX_FILES: nat := 1000
  const ROOT_LENGTH: nat := ENTRY_SIZE * MAX_FILES

  function ParentEntry(): (e: Entry)
    ensures e.inUse && |e.field| == NAME_FIELD
  {
    Entry(ROOT, Zeros(NAME_FIELD), true)
  }

  /** An empty root directory. */
  ghost predicate Empty(s: State) {
    && Rooted(s) && Named(s) == map[] && RootSlots(s) == MAX_FILES - 1 && SystemFront(s)
    && TableOf(s, ROOT) != [] && TableOf(s, ROOT)[0] == Entry(ROOT, Zeros(NAME_FIELD), true)
  }

  lemma FreshRoot(s: State)
    requires Sound(s) && s.files.Keys == {0, ROOT} && Front(s.bits)
    requires ROOT in Contents(s) && Contents(s)[ROOT] == Splice(Zeros(ROOT_LENGTH), 0, Encode(ParentEntry()))
    ensures Empty(s)
  {
    hide Content, FreeFrom, Splice, Encode, EntryTable.Table, TableOk, Listing, Placed, AllOk, Persisted, Zeros;
    SoundFile(s, ROOT);
    FreshTable(Contents(s)[ROOT], MAX_FILES, ParentEntry());
    var t := TableOf(s, ROOT);
    DirectoryUnique(s, ROOT);
    EmptyListing(t);
    assert Links(s) == map[];
    FrontIsSystem(s);
  }

  lemma FrontIsSystem(s: State)
    requires Sound(s) && s.files.Keys == {0, ROOT} && Front(s.bits)
    ensures SystemFront(s)
  {
    hide Placed, AllOk, Persisted;
    AccountedIsPlaced(s);
    forall x: nat
      ensures System(s, x) <==> x < |s.bits| && s.bits[x]
    {
      if x in s.owner {
        OwnedInRange(s, x);
      }
    }
  }

  /** Formats a device: the free-map file, and a root directory without files. */
  method Format(fs: Inodes.FileSystem) returns (files: FileTable)
    requires fs.Sane() && fs.freeMapInode == null && fs.files == map[] && fs.owner == map[0 := Node(0), 1 := Node(1)]
    requires FileSize(|fs.freeMap.bits|) <= MAX_LENGTH
    requires Cost(Sectors(FileSize(|fs.freeMap.bits|))) + Cost(Sectors(ROOT_LENGTH)) <= fs.Room()
    modifies fs, fs.cache, fs.cache.slots, fs.freeMap, fs.freeMap.elems
    ensures fresh(files) && files.fs == fs && files.Valid() && files.table == map[] && Empty(fs.S())
  {
    hide BufferCache.Valid, Bitmap.Valid, Sound, Content, Contents, FreeFrom, OthersKept, Wrote, Encode, Splice, Cost,
      Sectors, Placed, Empty, Rooted, Links, Named, Front, FileOk, Accounted, Persisted;
    fs.Format(ROOT_LENGTH);
    RootReady(fs.S());
    var n := fs.Write(ROOT, Encode(ParentEntry()), 0);
    FreshRoot(fs.S());
    EmptyIsRooted(fs.S());
    files := new FileTable(fs);
  }

  lemma EmptyIsRooted(s: State)
    requires Empty(s)
    ensures Rooted(s)
  {
  }

  lemma RootReady(s: State)
    requires Sound(s) && s.files.Keys == {0, ROOT} && Contents(s) == map[ROOT := Zeros(ROOT_LENGTH)]
    ensures s.files[ROOT].len == ROOT_LENGTH && Need(s.files[ROOT].len, ENTRY_SIZE) == 0
    ensures Content(s.view, s.files[ROOT]) == Zeros(ROOT_LENGTH)
  {
    hide Sound, Content, Contents, FileOk;
    SoundFile(s, ROOT);
    ZerosLength(ROOT_LENGTH);
    assert Contents(s)[ROOT] == Zeros(ROOT_LENGTH);
  }
}
