/** The root directory's files by name: a map from names to bytes. */
module Names {
  import opened Words
  import opened BlockTree
  import opened Bitmaps
  import opened Volume
  import opened Growth
  import opened FileData
  import opened Ledger
  import opened EntryTable
  import opened Directory
  import opened FsUtil

  const ROOT: nat := 1
  const SLASH: byte := 47
  const DOT: byte := 46

  /** Names that are not paths and do not mean a directory. */
  predicate Plain(n: Name) {
    SLASH !in n && n != [DOT] && n != [DOT, DOT]
  }

  /** Names that a file can have. */
  predicate FileName(n: Name) {
    0 < |n| <= NAME_MAX && Plain(n)
  }

  ghost function Links(s: State): map<Name, Word> {
    if IsDirectory(s, ROOT) then Listing(TableOf(s, ROOT)) else map[]
  }

  /** Every name leads to a file of its own, and every file but the free map and
      the root directory has a name. */
  ghost predicate LinksOk(links: map<Name, Word>, files: map<nat, FileRec>) {
    && (forall n :: n in links ==>
          FileName(n) && links[n] in files && links[n] != 0 && links[n] != ROOT && !files[links[n]].isDir)
    && (forall m, n :: m in links && n in links && links[m] == links[n] ==> m == n)
    && (forall f :: f in files && f != 0 && f != ROOT ==> exists n :: n in links && links[n] == f)
  }

  ghost predicate Rooted(s: State) {
    Sound(s) && IsDirectory(s, ROOT) && LinksOk(Links(s), s.files)
  }

  ghost function Join(links: map<Name, Word>, c: map<nat, seq<byte>>): map<Name, seq<byte>> {
    map n | n in links && links[n] in c :: c[links[n]]
  }

  /** What users see: the bytes behind every name. */
  ghost function Named(s: State): map<Name, seq<byte>> {
    Join(Links(s), Contents(s))
  }

  /** Slots of the root directory behind the parent's. */
  ghost function RootSlots(s: State): nat {
    if TableOf(s, ROOT) == [] then 0 else |TableOf(s, ROOT)| - 1
  }

  lemma RootedLinked(s: State)
    requires Rooted(s)
    ensures Linked(s, ROOT) && Named(s).Keys == Links(s).Keys
    ensures forall n :: n in Links(s) ==>
              && Links(s)[n] in s.files && Links(s)[n] != 0 && Links(s)[n] != ROOT && Links(s)[n] in Contents(s)
              && FileName(n) && !s.files[Links(s)[n]].isDir && Named(s)[n] == Contents(s)[Links(s)[n]]
  {
    hide Sound, Listing, Content, EntryTable.Table, CStr, UniqueNames, TableOf, FileName;
  }

  // ----- Counting entries -----

  ghost function UsedCount(t: seq<Entry>): nat {
    if |t| <= 1 then 0 else UsedCount(t[..|t| - 1]) + if t[|t| - 1].inUse then 1 else 0
  }

  lemma {:induction false} ListingCount(t: seq<Entry>)
    requires TableOk(t)
    ensures |Listing(t)| == UsedCount(t)
  {
    hide CStr, Listing, UniqueNames;
    if |t| <= 1 {
      EmptyListing(t);
    } else {
      ShorterTable(t);
      ListingCount(t[..|t| - 1]);
      if t[|t| - 1].inUse {
        LastEntry(t);
      } else {
        LastEntryUnused(t);
      }
    }
  }

  lemma ShorterTable(t: seq<Entry>)
    requires |t| > 1 && TableOk(t)
    ensures TableOk(t[..|t| - 1])
    ensures forall i: nat :: Used(t[..|t| - 1], i) <==> i < |t| - 1 && Used(t, i)
  {
    hide CStr;
  }

  lemma LastEntry(t: seq<Entry>)
    requires |t| > 1 && TableOk(t) && t[|t| - 1].inUse && TableOk(t[..|t| - 1])
    ensures |Listing(t)| == |Listing(t[..|t| - 1])| + 1
  {
    var last := |t| - 1;
    var p, e := t[..last], t[last];
    forall m | m in Listing(p)
      ensures m != CStr(e.field)
    {
      hide CStr, Listing;
      var i := SlotOf(p, m);
      assert Used(t, i) && Used(t, last);
    }
    hide CStr, Listing, UniqueNames;
    assert Put(p, last, e) == t;
    ListingAfterAdd(p, last, e);
  }

  lemma LastEntryUnused(t: seq<Entry>)
    requires |t| > 1 && TableOk(t) && !t[|t| - 1].inUse && TableOk(t[..|t| - 1])
    ensures Listing(t) == Listing(t[..|t| - 1])
  {
    hide CStr, Listing, UniqueNames;
    var p := t[..|t| - 1];
    forall m: Name | m in Listing(p)
      ensures m in Listing(t) && Listing(t)[m] == Listing(p)[m]
    {
      var i := SlotOf(p, m);
      ListingAt(t, i);
    }
    forall m: Name | m in Listing(t)
      ensures m in Listing(p)
    {
      var i := SlotOf(t, m);
      ListingAt(p, i);
    }
  }

  lemma {:induction false} UsedCountFull(t: seq<Entry>)
    requires t != [] && t[0].inUse
    ensures UsedCount(t) <= |t| - 1
    ensures UsedCount(t) == |t| - 1 <==> Full(t)
  {
    if |t| > 1 {
      UsedCountFull(t[..|t| - 1]);
    }
  }

  /** The directory is full exactly if there are as many names as slots. */
  lemma FullByCount(s: State)
    requires Rooted(s)
    ensures |Named(s)| <= RootSlots(s)
    ensures |Named(s)| == RootSlots(s) <==> Full(TableOf(s, ROOT))
    ensures s.files[ROOT].len == ENTRY_SIZE * (RootSlots(s) + 1)
  {
    hide Sound, Content, EntryTable.Table, CStr, Listing, UniqueNames, LinksOk, Contents, Full;
    RootedLinked(s);
    ListingCount(TableOf(s, ROOT));
    UsedCountFull(TableOf(s, ROOT));
    TableLength(s, ROOT);
    assert |Named(s)| == |Named(s).Keys| && |Links(s)| == |Links(s).Keys|;
  }

  // ----- The sectors of the system's own files -----

  /** Sector x belongs to the free map or to the root directory. */
  ghost predicate System(s: State, x: nat) {
    x in s.owner && (s.owner[x].ino == 0 || s.owner[x].ino == ROOT)
  }

  /** The system's own files come first on the device. */
  ghost predicate SystemFront(s: State) {
    forall x: nat, y: nat :: System(s, y) && x < y ==> System(s, x)
  }

  ghost predicate SystemKept(s0: State, s1: State) {
    forall x: nat :: System(s1, x) <==> System(s0, x)
  }

  lemma {:induction false} FreeBehind(bits: seq<bool>, k: nat, from: nat)
    requires k <= |bits| && from <= |bits| && forall i :: 0 <= i < |bits| ==> (bits[i] <==> i < k)
    ensures Consecutive(FreeFrom(bits, from))
    ensures FreeFrom(bits, from) != [] ==> FreeFrom(bits, from)[0] == if from < k then k else from
    decreases |bits| - from
  {
    if from < |bits| {
      FreeBehind(bits, k, from + 1);
    }
  }

  /** A prefix-closed set of sectors ends somewhere. */
  lemma {:induction false} FrontEnds(bits: seq<bool>) returns (k: nat)
    requires Front(bits)
    ensures k <= |bits| && forall i :: 0 <= i < |bits| ==> (bits[i] <==> i < k)
  {
    if bits == [] || bits[|bits| - 1] {
      k := |bits|;
    } else {
      k := FrontEnds(bits[..|bits| - 1]);
    }
  }

  /** When there are no other files, what is free is then one run. */
  lemma BareVolumeFree(s: State)
    requires Sound(s) && SystemFront(s) && s.files.Keys == {0, ROOT}
    ensures Consecutive(FreeList(s.bits))
  {
    hide Placed, AllOk, Persisted, Consecutive, FreeFrom;
    forall x: nat | x < |s.bits|
      ensures s.bits[x] <==> System(s, x)
    {
      assert s.bits[x] <==> x in s.owner;
    }
    var k := FrontEnds(s.bits);
    FreeBehind(s.bits, k, 0);
  }

  // ----- Creating, writing and removing a named file -----

  lemma LinksAdd(links: map<Name, Word>, files0: map<nat, FileRec>, files1: map<nat, FileRec>, name: Name, x: Word)
    requires LinksOk(links, files0) && FileName(name) && name !in links && x !in files0 && x != 0 && x != ROOT
    requires x in files1 && !files1[x].isDir && forall f :: f in files1 <==> f in files0 || f == x
    requires forall f :: f in files0 && f != ROOT ==> files1[f] == files0[f]
    ensures LinksOk(links[name := x], files1)
  {
    hide FileName;
    var more := links[name := x];
    forall f | f in files1 && f != 0 && f != ROOT
      ensures exists n :: n in more && more[n] == f
    {
      if f == x {
        assert more[name] == f;
      } else {
        var n :| n in links && links[n] == f;
        assert more[n] == f;
      }
    }
  }

  lemma LinksRemove(links: map<Name, Word>, files: map<nat, FileRec>, name: Name)
    requires LinksOk(links, files) && name in links
    ensures LinksOk(links - {name}, files - {links[name]})
  {
    hide FileName;
    forall f | f in files - {links[name]} && f != 0 && f != ROOT
      ensures exists n :: n in links - {name} && links[n] == f
    {
      var n :| n in links && links[n] == f;
      assert n in links - {name};
    }
  }

  lemma LinksKeep(links: map<Name, Word>, files0: map<nat, FileRec>, files1: map<nat, FileRec>)
    requires LinksOk(links, files0) && files1.Keys == files0.Keys
    requires forall f :: f in files0 ==> files1[f].isDir == files0[f].isDir
    ensures LinksOk(links, files1)
  {
    hide FileName;
  }

  lemma JoinAdd(links: map<Name, Word>, c0: map<nat, seq<byte>>, c1: map<nat, seq<byte>>, name: Name, x: Word)
    requires name !in links && forall n :: n in links ==> links[n] in c0 && links[n] != ROOT && links[n] != x
    requires x in c1 && forall f :: f in c0 && f != ROOT ==> f in c1 && c1[f] == c0[f]
    ensures Join(links[name := x], c1) == Join(links, c0)[name := c1[x]]
  {
  }

  lemma JoinRemove(links: map<Name, Word>, c0: map<nat, seq<byte>>, c1: map<nat, seq<byte>>, name: Name)
    requires name in links && forall n :: n in links ==> links[n] in c0 && links[n] != ROOT
    requires forall m, n :: m in links && n in links && links[m] == links[n] ==> m == n
    requires c1 - {ROOT} == c0 - {ROOT, links[name]}
    ensures Join(links - {name}, c1) == Join(links, c0) - {name}
  {
    forall n | n in links && n != name
      ensures links[n] in c1 && c1[links[n]] == c0[links[n]]
    {
      assert links[n] in c0 - {ROOT, links[name]};
    }
  }

  lemma JoinPut(links: map<Name, Word>, c: map<nat, seq<byte>>, name: Name, v: seq<byte>)
    requires name in links && links[name] in c
    requires forall m, n :: m in links && n in links && links[m] == links[n] ==> m == n
    ensures Join(links, c[links[name] := v]) == Join(links, c)[name := v]
  {
  }

  /** The sectors that the root directory takes when it must grow by an entry. */
  function EntryNeed(slots: nat): nat {
    Need(ENTRY_SIZE * (slots + 1), ENTRY_SIZE * (slots + 2))
  }

  /** Files that had a name still have it, and the same sectors. */
  ghost predicate FilesKept(s0: State, s1: State) {
    forall n :: n in Links(s0) && n in Links(s1) ==>
      && Links(s1)[n] == Links(s0)[n] && Links(s0)[n] in s0.files && Links(s0)[n] in s1.files
      && s1.files[Links(s0)[n]] == s0.files[Links(s0)[n]]
  }

  /** There is room for one more file of the given size. */
  ghost predicate Fits(s: State, size: nat) {
    var grow := |Named(s)| == RootSlots(s);
    && size <= MAX_LENGTH
      && 1 + Cost(Sectors(size)) + (if grow then EntryNeed(RootSlots(s)) else 0) <= |FreeList(s.bits)|
    && (grow ==> ENTRY_SIZE * (RootSlots(s) + 2) <= MAX_LENGTH)
  }

  /** What creating a file does. */
  ghost predicate MadeFile(s0: State, s1: State, name: Name, size: nat) {
    && Rooted(s0) && Rooted(s1) && name !in Named(s0) && Named(s1) == Named(s0)[name := Zeros(size)]
    && FilesKept(s0, s1)
    && name in Links(s1) && TakesFirst(TableOf(s0, ROOT), TableOf(s1, ROOT), name, Links(s1)[name])
    && var grow := |Named(s0)| == RootSlots(s0);
    && RootSlots(s1) == RootSlots(s0) + (if grow then 1 else 0)
    && |FreeList(s1.bits)|
    == |FreeList(s0.bits)| - 1 - Cost(Sectors(size)) - (if grow then EntryNeed(RootSlots(s0)) else 0)
    && (!grow ==> SystemKept(s0, s1) && FromFront(s0, s1, name))
  }

  /** The file was made from the first free sectors. */
  ghost predicate FromFront(s0: State, s1: State, name: Name) {
    && name in Links(s1) && Links(s1)[name] in s1.files
    && FreeList(s0.bits) == [Links(s1)[name]] + s1.files[Links(s1)[name]].blocks + FreeList(s1.bits)
  }

  lemma MadeInodeBeside(s0: State, s1: State, ino: Word, size: nat)
    requires Rooted(s0) && Sound(s1) && MadeInode(s0, s1, ino, size, false)
    ensures ino != 0 && ino != ROOT && IsDirectory(s1, ROOT) && TableOf(s1, ROOT) == TableOf(s0, ROOT)
    ensures SystemKept(s0, s1) && Links(s1) == Links(s0) && ino !in Contents(s0)
    ensures |FreeList(s1.bits)| == |FreeList(s0.bits)| - 1 - Cost(Sectors(size))
  {
    hide Sound, Content, EntryTable.Table, TableOk, Contents, LinksOk, Listing, FreeFrom;
    SoundFile(s1, ino);
    SoundFile(s0, ROOT);
    SoundFile(s1, ROOT);
    OutsideContents(s0, ino);
  }

  lemma OutsideContents(s: State, ino: nat)
    requires Sound(s) && ino !in s.files
    ensures ino != 0 && ino !in Contents(s)
  {
  }

  /** What entering a file in the root directory does to the names ... */
  lemma EnteredLinks(s0: State, s1: State, name: Name, ino: Word)
    requires IsDirectory(s0, ROOT) && IsDirectory(s1, ROOT) && EnteredIn(ROOT, s0, s1, name, ino, true)
    ensures Links(s1) == Links(s0)[name := ino] && ROOT in s0.files && ROOT in s1.files
            && s1.files == s0.files[ROOT := s1.files[ROOT]]
    ensures Contents(s1) - {ROOT} == Contents(s0) - {ROOT}
    ensures TakesFirst(TableOf(s0, ROOT), TableOf(s1, ROOT), name, ino)
  {
    hide Contents, TableOf, TableOk, Listing, Full, OneEntryLess, OthersKept, TakesFirst;
  }

  /** ... and to the books. */
  lemma EnteredBooks(s0: State, s1: State, name: Name, ino: Word)
    requires IsDirectory(s0, ROOT) && EnteredIn(ROOT, s0, s1, name, ino, true)
    ensures TableOf(s0, ROOT) != [] && s0.files[ROOT].len == ENTRY_SIZE * (RootSlots(s0) + 1)
    ensures !Full(TableOf(s0, ROOT)) ==> s1 == s0.(view := s1.view) && RootSlots(s1) == RootSlots(s0)
    ensures Full(TableOf(s0, ROOT)) ==>
              RootSlots(s1) == RootSlots(s0) + 1
                && |FreeList(s1.bits)| == |FreeList(s0.bits)| - EntryNeed(RootSlots(s0))
  {
    hide Contents, TableOf, Listing, Full, OthersKept, FreeFrom, Need, UniqueNames;
    TableLength(s0, ROOT);
  }

  /** Entering the new inode completes the file: names and bytes. */
  lemma MadeFileNames(s0: State, s1: State, s2: State, ino: Word, name: Name, size: nat)
    requires Rooted(s0) && Sound(s1) && MadeInode(s0, s1, ino, size, false) && name !in Named(s0) && FileName(name)
    requires Sound(s2) && IsDirectory(s2, ROOT) && EnteredIn(ROOT, s1, s2, name, ino, true)
    ensures Rooted(s2) && Named(s2) == Named(s0)[name := Zeros(size)] && FilesKept(s0, s2)
    ensures Links(s2) == Links(s0)[name := ino] && s2.files[ino] == s1.files[ino]
  {
    hide Sound, IsDirectory, TableOf, Contents, FileName, LinksOk, Listing, FreeFrom, EnteredIn, OthersKept, Join,
      Links, SystemKept, Linked, Zeros, TakesFirst;
    MadeInodeBeside(s0, s1, ino, size);
    RootedLinked(s0);
    EnteredLinks(s1, s2, name, ino);
    LinksAdd(Links(s0), s0.files, s2.files, name, ino);
    ContentsAfterEntry(s0, s1, s2, ino, size);
    JoinAdd(Links(s0), Contents(s0), Contents(s2), name, ino);
  }

  lemma ContentsAfterEntry(s0: State, s1: State, s2: State, ino: Word, size: nat)
    requires ino != ROOT && ino !in Contents(s0)
    requires Contents(s1) == Contents(s0)[ino := Zeros(size)] && Contents(s2) - {ROOT} == Contents(s1) - {ROOT}
    ensures ino in Contents(s2) && Contents(s2)[ino] == Zeros(size)
    ensures forall f :: f in Contents(s0) && f != ROOT ==> f in Contents(s2) && Contents(s2)[f] == Contents(s0)[f]
  {
    hide Contents;
    forall f | f in Contents(s1) && f != ROOT
      ensures f in Contents(s2) && Contents(s2)[f] == Contents(s1)[f]
    {
      assert f in Contents(s1) - {ROOT};
    }
  }

  lemma MadeFileBy(s0: State, s1: State, s2: State, ino: Word, name: Name, size: nat)
    requires Rooted(s0) && Sound(s1) && MadeInode(s0, s1, ino, size, false) && name !in Named(s0) && FileName(name)
    requires Sound(s2) && IsDirectory(s2, ROOT) && EnteredIn(ROOT, s1, s2, name, ino, true)
    ensures MadeFile(s0, s2, name, size)
  {
    hide Sound, IsDirectory, TableOf, Contents, FileName, LinksOk, Listing, FreeFrom, EnteredIn, OthersKept, Links,
      Named, FilesKept, Linked, Zeros, Full, Rooted, EntryNeed, Cost, Sectors, TakesFirst;
    MadeFileNames(s0, s1, s2, ino, name, size);
    MadeInodeBeside(s0, s1, ino, size);
    EnteredBooks(s1, s2, name, ino);
    EnteredLinks(s1, s2, name, ino);
    FullByCount(s0);
  }

  /** What writing to a file does. */
  ghost predicate WroteFile(s0: State, s1: State, name: Name, offset: nat, data: seq<byte>) {
    && Rooted(s0) && Rooted(s1) && name in Named(s0)
    && Named(s1) == Named(s0)[name := Splice(Named(s0)[name], offset, data)]
    && TableOf(s1, ROOT) == TableOf(s0, ROOT) && RootSlots(s1) == RootSlots(s0) && SystemKept(s0, s1)
    && |FreeList(s1.bits)| == |FreeList(s0.bits)| - Need(|Named(s0)[name]|, offset + |data|)
    && (offset + |data| <= |Named(s0)[name]| ==> FilesKept(s0, s1) && FreeList(s1.bits) == FreeList(s0.bits))
  }

  lemma RootUnaffected(s0: State, s1: State)
    requires Sound(s0) && Sound(s1) && IsDirectory(s0, ROOT) && ROOT in s1.files && s1.files[ROOT] == s0.files[ROOT]
    requires ROOT in Contents(s0) && ROOT in Contents(s1) && Contents(s1)[ROOT] == Contents(s0)[ROOT]
    ensures IsDirectory(s1, ROOT) && RootSlots(s1) == RootSlots(s0) && Links(s1) == Links(s0)
    ensures TableOf(s1, ROOT) == TableOf(s0, ROOT)
  {
    hide Sound, TableOf, Contents, Listing;
    DirectoryStays(s0, s1, ROOT);
  }

  lemma WroteFileBy(s0: State, s1: State, x: Word, name: Name, offset: nat, data: seq<byte>)
    requires Rooted(s0) && Sound(s1) && name in Links(s0) && x == Links(s0)[name]
    requires Wrote(x, s0, s1, offset, data)
    requires Contents(s1) == Contents(s0)[x := Splice(Content(s0.view, s0.files[x]), offset, data)]
    requires |FreeList(s1.bits)| == |FreeList(s0.bits)| - Need(s0.files[x].len, offset + |data|)
    ensures WroteFile(s0, s1, name, offset, data) && Links(s1) == Links(s0)
  {
    hide Sound, Content, Contents, Splice, Taken, OthersKept, IsDirectory, TableOf, LinksOk, Links, FreeFrom, Need,
      Join, SystemKept, FileName, Linked, Listing;
    RootedLinked(s0);
    SoundFile(s0, x);
    RootIsFile(s0);
    SoundFile(s0, ROOT);
    RootUnaffected(s0, s1);
    LinksKeep(Links(s0), s0.files, s1.files);
    LinksInjective(s0);
    JoinPut(Links(s0), Contents(s0), name, Splice(Content(s0.view, s0.files[x]), offset, data));
    SystemUnaffected(x, s0, s1);
    if offset + |data| <= s0.files[x].len {
      SameTree(x, s0, s1, offset, data);
    }
  }

  /** A write inside a file leaves its sectors alone. */
  lemma SameTree(x: nat, s0: State, s1: State, offset: nat, data: seq<byte>)
    requires Sound(s0) && Sound(s1) && Wrote(x, s0, s1, offset, data) && offset + |data| <= s0.files[x].len
    ensures s1.files[x] == s0.files[x] && FreeList(s1.bits) == FreeList(s0.bits)
  {
    hide Sound, Content, Splice, OthersKept, FreeFrom, Cost, Sectors;
    SoundFile(s0, x);
    SoundFile(s1, x);
  }

  lemma RootIsFile(s: State)
    requires Rooted(s)
    ensures ROOT in s.files
  {
  }

  lemma LinksInjective(s: State)
    requires Rooted(s)
    ensures forall m, n :: m in Links(s) && n in Links(s) && Links(s)[m] == Links(s)[n] ==> m == n
  {
    hide Sound, IsDirectory, Links, FileName;
  }

  lemma SystemUnaffected(x: nat, s0: State, s1: State)
    requires OthersKept(x, s0, s1) && x != 0 && x != ROOT
    ensures SystemKept(s0, s1)
  {
    hide Sec;
  }

  /** What removing a file does. */
  ghost predicate RemovedFile(s0: State, s1: State, name: Name) {
    && Rooted(s0) && Rooted(s1) && name in Named(s0) && Named(s1) == Named(s0) - {name}
    && RootSlots(s1) == RootSlots(s0) && SystemKept(s0, s1) && FilesKept(s0, s1)
    && Thinned(TableOf(s0, ROOT), TableOf(s1, ROOT), name)
    && |FreeList(s1.bits)| == |FreeList(s0.bits)| + 1 + Cost(Sectors(|Named(s0)[name]|))
  }

  lemma RemovedFileBy(s0: State, s1: State, name: Name)
    requires Rooted(s0) && Sound(s1) && name in Links(s0) && Unlinked(s0, s1, ROOT, name)
    ensures RemovedFile(s0, s1, name)
  {
    hide Sound, Content, Contents, IsDirectory, TableOf, LinksOk, Links, FreeFrom, Join, SystemKept, FileName, Linked,
      Listing, Thinned, Cost, Sectors, Unlinked;
    RootedLinked(s0);
    var x := Links(s0)[name];
    SoundFile(s0, x);
    UnlinkedFacts(s0, s1, name);
    LinksRemove(Links(s0), s0.files, name);
    LinksInjective(s0);
    JoinRemove(Links(s0), Contents(s0), Contents(s1), name);
  }

  lemma UnlinkedFacts(s0: State, s1: State, name: Name)
    requires Rooted(s0) && name in Links(s0) && Unlinked(s0, s1, ROOT, name) && Links(s0)[name] != 0
             && Links(s0)[name] != ROOT
    ensures IsDirectory(s1, ROOT) && Links(s1) == Links(s0) - {name} && s1.files == s0.files - {Links(s0)[name]}
    ensures Contents(s1) - {ROOT} == Contents(s0) - {ROOT, Links(s0)[name]} && SystemKept(s0, s1)
    ensures Thinned(TableOf(s0, ROOT), TableOf(s1, ROOT), name) && RootSlots(s1) == RootSlots(s0)
            && Links(s0)[name] in s0.files
    ensures |FreeList(s1.bits)| == |FreeList(s0.bits)| + 1 + Cost(Sectors(s0.files[Links(s0)[name]].len))
  {
    hide Sound, Content, Contents, TableOf, TableOk, LinksOk, FreeFrom, Listing, Cost, Sectors;
  }

  /** ... so that after making the inode the entry still fits. */
  lemma EntryStillFits(s0: State, s1: State, ino: Word, size: nat)
    requires Rooted(s0) && Sound(s1) && MadeInode(s0, s1, ino, size, false) && Fits(s0, size)
    ensures IsDirectory(s1, ROOT) && Links(s1) == Links(s0) && (Full(TableOf(s1, ROOT)) ==> RoomForEntry(s1, ROOT))
  {
    hide Sound, IsDirectory, TableOf, Contents, LinksOk, Links, Listing, FreeFrom, OthersKept, Named, Full, Rooted,
      Need, Cost, Sectors, SystemKept;
    MadeInodeBeside(s0, s1, ino, size);
    FullByCount(s0);
    TableLength(s1, ROOT);
  }

  lemma EnteredIfNew(s0: State, s1: State, name: Name, ino: Word, ok: bool)
    requires IsDirectory(s0, ROOT) && EnteredIn(ROOT, s0, s1, name, ino, ok) && FileName(name) && name !in Links(s0)
    ensures ok
  {
    hide Contents, TableOf, Listing, Full, OneEntryLess, OthersKept;
  }
}
