/** Defragmenting: every file is read and removed, and then all are made anew. */
module Defragment {
  import opened Words
  import opened BlockTree
  import opened Bitmaps
  import opened Cache
  import opened Volume
  import opened FileData
  import opened Ledger
  import opened EntryTable
  import opened Directory
  import opened FsUtil
  import opened Names
  import opened Files
  import Inodes

  type Bytes = map<Name, seq<byte>>

  /** A file held in memory. */
  datatype Saved = Saved(name: Name, content: seq<byte>)

  ghost function Restored(m: Bytes): Bytes {
    map n | n in m :: Terminated(m[n])
  }

  ghost function AsMap(saved: seq<Saved>): Bytes {
    if saved == [] then map[]
    else var last := saved[|saved| - 1]; AsMap(saved[..|saved| - 1])[last.name := last.content]
  }

  /** Sectors that the saved files take. */
  ghost function SavedCost(saved: seq<Saved>): nat {
    if saved == [] then 0
    else SavedCost(saved[..|saved| - 1]) + 1 + Cost(Sectors(|saved[|saved| - 1].content|))
  }

  ghost predicate Distinct(saved: seq<Saved>) {
    forall k :: 0 <= k < |saved| ==> saved[k].name !in AsMap(saved[..k])
  }

  ghost predicate Sensible(saved: seq<Saved>) {
    Distinct(saved) && forall k :: 0 <= k < |saved| ==> FileName(saved[k].name) && |saved[k].content| <= MAX_LENGTH
  }

  /** Some files of m0 have been saved, and the rest are still there. */
  ghost predicate Split(m0: Bytes, saved: Bytes, rest: Bytes) {
    rest == m0 - saved.Keys && forall n :: n in saved ==> n in m0 && m0[n] == saved[n]
  }

  lemma SplitNext(m0: Bytes, saved: Bytes, rest: Bytes, n: Name)
    requires Split(m0, saved, rest) && n in rest
    ensures n !in saved && Split(m0, saved[n := rest[n]], rest - {n})
  {
    assert saved[n := rest[n]].Keys == saved.Keys + {n};
  }

  lemma OneLess(m: Bytes, n: Name)
    requires n in m
    ensures |m - {n}| == |m| - 1
  {
    assert (m - {n}).Keys == m.Keys - {n};
    assert |m - {n}| == |(m - {n}).Keys| && |m| == |m.Keys|;
  }

  lemma SplitDone(m0: Bytes, saved: Bytes)
    requires Split(m0, saved, map[])
    ensures saved == m0
  {
    assert m0 - saved.Keys == map[];
    assert forall n :: n in m0 && n !in saved ==> n in m0 - saved.Keys;
  }

  lemma SavedMoreMap(saved: seq<Saved>, f: Saved)
    ensures AsMap(saved + [f]) == AsMap(saved)[f.name := f.content]
    ensures SavedCost(saved + [f]) == SavedCost(saved) + 1 + Cost(Sectors(|f.content|))
  {
    hide Cost, Sectors;
    assert (saved + [f])[..|saved|] == saved;
  }

  lemma DistinctMore(saved: seq<Saved>, f: Saved)
    requires Distinct(saved) && f.name !in AsMap(saved)
    ensures Distinct(saved + [f])
  {
    hide AsMap;
    var more := saved + [f];
    forall k | 0 <= k < |more|
      ensures more[k].name !in AsMap(more[..k])
    {
      if k < |saved| {
        assert more[..k] == saved[..k];
      } else {
        assert more[..k] == saved;
      }
    }
  }

  lemma SavedMore(saved: seq<Saved>, f: Saved)
    requires Sensible(saved) && f.name !in AsMap(saved) && FileName(f.name) && |f.content| <= MAX_LENGTH
    ensures Sensible(saved + [f]) && AsMap(saved + [f]) == AsMap(saved)[f.name := f.content]
    ensures SavedCost(saved + [f]) == SavedCost(saved) + 1 + Cost(Sectors(|f.content|))
  {
    hide FileName, Cost, Sectors, AsMap, SavedCost, Distinct;
    SavedMoreMap(saved, f);
    DistinctMore(saved, f);
  }

  // ----- Reading and removing -----

  /** Reads a whole file. */
  method ReadAll(files: FileTable, name: Name) returns (content: seq<byte>)
    requires files.Valid() && name in Named(files.fs.S())
    modifies files.fs.cache, files.fs.cache.slots
    ensures files.Valid() && files.fs.S() == old(files.fs.S()) && content == Named(files.fs.S())[name]
            && |content| <= MAX_LENGTH
  {
    hide BufferCache.Valid, Bitmap.Valid, Rooted, Links, Contents, Content, Named, FileName, Placed, AllOk, NoLeak,
      Persisted, FileOk;
    NameLinked(files.fs.S(), name);
    RootedFacts(files.fs.S());
    var _, ino := files.Find(name);
    SoundFile(files.fs.S(), ino);
    var inode := files.fs.OpenInode(ino);
    var length := files.fs.Length(inode);
    content := files.fs.Read(ino, length, 0);
  }

  /** While files are being read and removed: those saved and those left make up
      the files of s0, and no slot of the root directory below from is in use. */
  ghost predicate Unloading(s0: State, s: State, saved: seq<Saved>, from: nat) {
    && Rooted(s0) && Rooted(s) && Split(Named(s0), AsMap(saved), Named(s)) && Sensible(saved)
    && |saved| + |Named(s)| == |Named(s0)| && |FreeList(s.bits)| == |FreeList(s0.bits)| + SavedCost(saved)
    && RootSlots(s) == RootSlots(s0) && SystemKept(s0, s)
    && Emptied(TableOf(s0, ROOT), TableOf(s, ROOT), SavedNames(saved), from)
  }

  function SavedNames(saved: seq<Saved>): (names: seq<Name>)
    ensures |names| == |saved| && forall i :: 0 <= i < |saved| ==> names[i] == saved[i].name
  {
    seq(|saved|, i requires 0 <= i < |saved| => saved[i].name)
  }

  /** The slots below from have been cleared, and held the given names; the others are
      what they were. */
  ghost predicate Emptied(t0: seq<Entry>, t: seq<Entry>, names: seq<Name>, from: nat) {
    && |t| == |t0| && from <= |t| && NoneUsed(t, 1, from) && names == NamesIn(t0, 0, from)
    && forall i :: from <= i < |t| ==> t[i] == t0[i]
  }

  lemma EmptiedStart(t: seq<Entry>)
    requires t != []
    ensures Emptied(t, t, [], 1)
  {
    NamesInOne(t, 0);
  }

  lemma EmptiedNext(t0: seq<Entry>, t1: seq<Entry>, t2: seq<Entry>, names: seq<Name>, from: nat, name: Name, pos: nat)
    requires UniqueNames(t1) && Emptied(t0, t1, names, from) && Found(t1, true, name, from, pos)
             && Thinned(t1, t2, name)
    requires 0 < from
    ensures Emptied(t0, t2, names + [name], pos)
  {
    hide CStr, NamesIn;
    var i: nat :| Used(t1, i) && CStr(t1[i].field) == name && t2 == Cleared(t1, i);
    assert i == pos - 1;
    assert forall j: nat :: from <= j < pos ==> (Used(t0, j) <==> Used(t1, j));
    InOrderNext(t0, names, from, name, pos);
    forall j: nat | 1 <= j < pos
      ensures !Used(t2, j)
    {
      assert j == i || !Used(t1, j);
    }
  }

  lemma EmptiedAll(t0: seq<Entry>, t: seq<Entry>, names: seq<Name>, from: nat, name: Name, pos: nat)
    requires Emptied(t0, t, names, from) && Found(t, false, name, from, pos)
    ensures names == InOrder(t0) && Packed(t) && InOrder(t) == [] && forall i: nat :: !Used(t, i)
  {
    hide CStr, NamesIn;
    assert forall j: nat :: from <= j < |t| ==> (Used(t0, j) <==> Used(t, j));
    InOrderAll(t0, names, from, name, pos);
    assert forall j: nat :: j < |t| && !Used(t, j) ==> j == 0 || !t[j].inUse;
    NamesInUnused(t, 0, |t|);
  }

  lemma UnloadingStart(s: State)
    requires Rooted(s)
    ensures Unloading(s, s, [], 1)
  {
    hide Rooted, Named, FreeFrom, TableOf, Emptied, SavedNames, RootSlots, IsDirectory, Sound, UniqueNames;
    RootedFacts(s);
    DirectoryOk(s, ROOT);
    EmptiedStart(TableOf(s, ROOT));
    assert SavedNames([]) == [];
  }

  lemma SavedNamesMore(saved: seq<Saved>, f: Saved)
    ensures SavedNames(saved + [f]) == SavedNames(saved) + [f.name]
  {
  }

  lemma UnloadingNext(s0: State, s1: State, s2: State, saved: seq<Saved>, from: nat, pos: nat, f: Saved)
    requires Unloading(s0, s1, saved, from) && f.name in Named(s1) && f.content == Named(s1)[f.name]
             && |f.content| <= MAX_LENGTH && 0 < from
    requires RemovedFile(s1, s2, f.name) && Found(TableOf(s1, ROOT), true, f.name, from, pos)
    ensures Unloading(s0, s2, saved + [f], pos)
  {
    hide Rooted, Named, FreeFrom, TableOf, Found, Links, FilesKept, Split, AsMap, SavedCost, Sensible, Used, CStr,
      Thinned, FileName, Cost, Sectors, Linked, Emptied, IsDirectory, UniqueNames, SavedNames, RootSlots, Sound,
      Contents;
    RootedLinked(s1);
    RootedFacts(s1);
    DirectoryUnique(s1, ROOT);
    SplitNext(Named(s0), AsMap(saved), Named(s1), f.name);
    SavedMore(saved, f);
    OneLess(Named(s1), f.name);
    EmptiedNext(TableOf(s0, ROOT), TableOf(s1, ROOT), TableOf(s2, ROOT), SavedNames(saved), from, f.name, pos);
    SavedNamesMore(saved, f);
  }

  /** What is left when everything has been saved. */
  ghost predicate Unloaded(s0: State, s: State, saved: seq<Saved>) {
    && Rooted(s0) && Rooted(s) && Named(s) == map[] && AsMap(saved) == Named(s0) && Sensible(saved)
    && |saved| <= RootSlots(s) && RootSlots(s) == RootSlots(s0) && SystemKept(s0, s)
    && |FreeList(s.bits)| == |FreeList(s0.bits)| + SavedCost(saved)
    && SavedNames(saved) == InOrder(TableOf(s0, ROOT)) && Packed(TableOf(s, ROOT)) && InOrder(TableOf(s, ROOT)) == []
  }

  lemma UnloadingDone(s0: State, s: State, saved: seq<Saved>, from: nat, name: Name, pos: nat)
    requires Unloading(s0, s, saved, from) && Found(TableOf(s, ROOT), false, name, from, pos)
    ensures Unloaded(s0, s, saved)
  {
    hide Sound, FreeFrom, TableOf, Listing, LinksOk, Contents, AsMap, SavedCost, Sensible, CStr, FileName, Linked,
      Split, Join, UniqueNames, SystemKept, RootSlots, Emptied, InOrder, Packed, Found;
    DirectoryUnique(s, ROOT);
    EmptiedAll(TableOf(s0, ROOT), TableOf(s, ROOT), SavedNames(saved), from, name, pos);
    EmptyListing(TableOf(s, ROOT));
    RootedLinked(s);
    assert Named(s).Keys == {};
    assert Named(s) == map[];
    SplitDone(Named(s0), AsMap(saved));
    FullByCount(s0);
  }

  /** Reads and removes every file of the root directory. */
  method Unload(files: FileTable) returns (saved: seq<Saved>)
    requires files.Valid()
    modifies files`table, files.fs`files, files.fs`owner, files.fs.cache, files.fs.cache.slots, files.fs.freeMap,
      files.fs.freeMap.elems
    ensures files.Valid() && Unloaded(old(files.fs.S()), files.fs.S(), saved)
  {
    hide Inodes.FileSystem.Valid, Rooted, Named, Links, TableOf, Unloading, Unloaded, Found, IsDirectory, CStr,
      RemovedFile, Tabled, Sound, Listing, TableOk;
    ghost var s0 := files.fs.S();
    saved := [];
    UnloadingStart(s0);
    RootedFacts(s0);
    var dir := new Dir(files.fs, ROOT);
    ghost var from: nat := 1;
    var ok, name := dir.Readdir();
    while ok
      invariant files.Valid() && dir.Valid() && Unloading(s0, files.fs.S(), saved, from)
      invariant 0 < from && dir.pos > 0 && Found(dir.T(), ok, name, from, dir.pos)
      decreases |dir.T()| - from
    {
      FoundForward(dir.T(), name, from, dir.pos);
      saved := UnloadNext(files, name, saved, s0, from, dir.pos);
      from := dir.pos;
      ok, name := dir.Readdir();
    }
    UnloadingDone(s0, files.fs.S(), saved, from, name, dir.pos);
  }

  /** Reads and removes the file that readdir has just found. */
  method UnloadNext(files: FileTable, name: Name, saved: seq<Saved>, ghost s0: State, ghost from: nat,
                    ghost pos: nat) returns (more: seq<Saved>)
    requires files.Valid() && 0 < from && Unloading(s0, files.fs.S(), saved, from)
             && Found(TableOf(files.fs.S(), ROOT), true, name, from, pos)
    modifies files`table, files.fs`files, files.fs`owner, files.fs.cache, files.fs.cache.slots, files.fs.freeMap,
      files.fs.freeMap.elems
    ensures files.Valid() && IsDirectory(files.fs.S(), ROOT) && Unloading(s0, files.fs.S(), more, pos)
    ensures |TableOf(files.fs.S(), ROOT)| == old(|TableOf(files.fs.S(), ROOT)|)
  {
    hide Inodes.FileSystem.Valid, Rooted, Named, Links, TableOf, Unloading, NoneUsed, IsDirectory, CStr, Used,
      RemovedFile, Tabled;
    ghost var s1 := files.fs.S();
    SlotIsNamed(s1, pos - 1);
    var content := ReadAll(files, name);
    var _ := files.Remove(name);
    more := saved + [Saved(name, content)];
    UnloadingNext(s0, s1, files.fs.S(), saved, from, pos, Saved(name, content));
    RemovedKeepsRoot(s1, files.fs.S(), name);
  }

  lemma FoundForward(t: seq<Entry>, name: Name, from: nat, pos: nat)
    requires Found(t, true, name, from, pos)
    ensures from < pos <= |t|
  {
  }

  lemma RemovedKeepsRoot(s0: State, s1: State, name: Name)
    requires RemovedFile(s0, s1, name)
    ensures IsDirectory(s1, ROOT) && |TableOf(s1, ROOT)| == |TableOf(s0, ROOT)|
  {
    hide TableOf, Links, Named, Sound, LinksOk, SystemKept, FilesKept, FreeFrom;
  }

  lemma SlotIsNamed(s: State, i: nat)
    requires Rooted(s) && Used(TableOf(s, ROOT), i)
    ensures CStr(TableOf(s, ROOT)[i].field) in Named(s) && Plain(CStr(TableOf(s, ROOT)[i].field))
  {
    hide TableOf, CStr, Listing, Sound, LinksOk, Contents, UniqueNames, Plain, Named, Linked;
    RootedLinked(s);
    DirectoryUnique(s, ROOT);
    ListingAt(TableOf(s, ROOT), i);
  }

  // ----- Making the files anew -----

  /** No file is fragmented. */
  ghost predicate Unfragmented(s: State) {
    forall n :: n in Links(s) ==> Links(s)[n] in s.files && !Fragmented(SectorsOf(s, Links(s)[n]))
  }

  /** If the free sectors form one run and no file is fragmented, it stays so. */
  ghost predicate LayoutKept(s0: State, s1: State) {
    Consecutive(FreeList(s0.bits)) && Unfragmented(s0) ==> Consecutive(FreeList(s1.bits)) && Unfragmented(s1)
  }

  lemma MadeLayout(s0: State, s1: State, name: Name, size: nat)
    requires MadeFile(s0, s1, name, size) && |Named(s0)| < RootSlots(s0)
    ensures LayoutKept(s0, s1)
  {
    hide Sound, IsDirectory, LinksOk, Links, Named, RootSlots, FreeFrom, SystemKept, Fragmented, SectorsOf,
      Consecutive, Cost, Sectors, EntryNeed, Linked, FileName;
    if Consecutive(FreeList(s0.bits)) && Unfragmented(s0) {
      RootedLinked(s0);
      RootedLinked(s1);
      CreatedCompact(s0, s1, Links(s1)[name]);
      forall n | n in Links(s1) && n != name
        ensures !Fragmented(SectorsOf(s1, Links(s1)[n]))
      {
        assert n in Named(s1);
        SameFileSameSectors(s0, s1, Links(s1)[n]);
      }
    }
  }

  lemma SameFileSameSectors(s0: State, s1: State, x: nat)
    requires x in s0.files && x in s1.files && s1.files[x] == s0.files[x]
    ensures SectorsOf(s1, x) == SectorsOf(s0, x)
  {
  }

  lemma WroteLayout(s0: State, s1: State, name: Name, data: seq<byte>)
    requires WroteFile(s0, s1, name, 0, data) && |data| <= |Named(s0)[name]|
    ensures LayoutKept(s0, s1)
  {
    hide Sound, IsDirectory, LinksOk, Links, Named, RootSlots, FreeFrom, SystemKept, Fragmented, SectorsOf,
      Consecutive, Need, Splice, Linked, FileName;
    RootedLinked(s0);
    RootedLinked(s1);
    forall n | n in Links(s1)
      ensures n in Links(s0) && SectorsOf(s1, Links(s1)[n]) == SectorsOf(s0, Links(s0)[n])
    {
      assert n in Named(s1);
      SameFileSameSectors(s0, s1, Links(s1)[n]);
    }
  }

  /** What making a saved file anew does. */
  ghost predicate Remade(s0: State, s1: State, f: Saved) {
    && Rooted(s0) && Rooted(s1) && Named(s1) == Named(s0)[f.name := Terminated(f.content)]
    && RootSlots(s1) == RootSlots(s0) && SystemKept(s0, s1) && LayoutKept(s0, s1)
    && |FreeList(s1.bits)| == |FreeList(s0.bits)| - 1 - Cost(Sectors(|f.content|))
    && ListedLast(TableOf(s0, ROOT), TableOf(s1, ROOT), f.name)
  }

  /** A new name comes last in a directory without gaps. */
  ghost predicate ListedLast(t0: seq<Entry>, t1: seq<Entry>, name: Name) {
    Packed(t0) ==> Packed(t1) && InOrder(t1) == InOrder(t0) + [name]
  }

  lemma MadeLast(s0: State, s1: State, name: Name, size: nat)
    requires MadeFile(s0, s1, name, size)
    ensures ListedLast(TableOf(s0, ROOT), TableOf(s1, ROOT), name)
  {
    hide Named, Links, RootSlots, FreeFrom, SystemKept, FilesKept, FromFront, EntryNeed, Cost, Sectors, TakesFirst,
      TableOf, Sound, LinksOk, Packed, InOrder;
    if Packed(TableOf(s0, ROOT)) {
      AppendsToPacked(TableOf(s0, ROOT), TableOf(s1, ROOT), name, Links(s1)[name]);
    }
  }

  lemma RemadeBy(s0: State, s1: State, s2: State, f: Saved)
    requires MadeFile(s0, s1, f.name, |f.content|) && |Named(s0)| < RootSlots(s0)
    requires WroteFile(s1, s2, f.name, 0, Terminated(f.content))
    ensures Remade(s0, s2, f)
  {
    hide Rooted, Named, RootSlots, FreeFrom, LayoutKept, Links, FilesKept, Cost, FromFront, System, Splice, TakesFirst,
      TableOf, ListedLast;
    MadeLast(s0, s1, f.name, |f.content|);
    MadeLayout(s0, s1, f.name, |f.content|);
    WroteLayout(s1, s2, f.name, Terminated(f.content));
    SpliceWhole(Zeros(|f.content|), Terminated(f.content));
    LayoutKeptTrans(s0, s1, s2);
    NoNeed(|f.content|);
  }

  lemma NoNeed(n: nat)
    ensures Need(n, n) == 0
  {
  }

  lemma LayoutKeptTrans(s0: State, s1: State, s2: State)
    requires LayoutKept(s0, s1) && LayoutKept(s1, s2)
    ensures LayoutKept(s0, s2)
  {
    hide Consecutive, Unfragmented;
  }

  /** Where writing files back leaves their positions. */
  ghost function Parked(m: Bytes): map<Name, int> {
    map n | n in m :: |m[n]| - 2
  }

  lemma ParkedNext(s0: State, s1: State, t0: map<Name, File>, t1: map<Name, File>, f: Saved)
    requires Remade(s0, s1, f) && Moved(t0, t1, f.name, |f.content| - 2) && Cursors(t0) == Parked(Named(s0))
    ensures Cursors(t1) == Parked(Named(s1))
  {
    hide Rooted, Named, FreeFrom, RootSlots, Cost, Sectors, LayoutKept, SystemKept, ListedLast, TableOf;
    assert Cursors(t1) == Cursors(t0)[f.name := |f.content| - 2];
    assert Parked(Named(s1)) == Parked(Named(s0))[f.name := |f.content| - 2];
  }

  /** Makes a saved file anew and writes its bytes back. */
  method Remake(files: FileTable, f: Saved)
    requires files.Valid() && FileName(f.name) && f.name !in Named(files.fs.S())
             && |Named(files.fs.S())| < RootSlots(files.fs.S())
    requires |f.content| <= MAX_LENGTH && 1 + Cost(Sectors(|f.content|)) <= files.fs.Room()
    requires Cursors(files.table) == Parked(Named(files.fs.S()))
    modifies files`table, files.fs`files, files.fs`owner, files.fs.cache, files.fs.cache.slots, files.fs.freeMap,
      files.fs.freeMap.elems
    ensures files.Valid() && Remade(old(files.fs.S()), files.fs.S(), f)
    ensures Cursors(files.table) == Parked(Named(files.fs.S()))
  {
    hide Inodes.FileSystem.Valid, Rooted, Named, Links, RootSlots, FreeFrom, MadeFile, WroteFile, Remade, Cost,
      Sectors, WriteFits, Contents, Cursors, Parked, Moved;
    ghost var s0, t0 := files.fs.S(), files.table;
    NotYetOpen(s0, files.table, f.name);
    files.Create(f.name, |f.content|);
    ghost var s1 := files.fs.S();
    var buffer := new byte[|f.content|](i requires 0 <= i < |f.content| => f.content[i]);
    assert buffer[..] == f.content;
    CanWriteBack(s0, s1, f);
    var _ := files.Write(f.name, buffer);
    RemadeBy(s0, s1, files.fs.S(), f);
    ParkedNext(s0, files.fs.S(), t0, files.table, f);
  }

  lemma NotYetOpen(s: State, table: map<Name, File>, name: Name)
    requires Rooted(s) && Tabled(table, Links(s)) && name !in Named(s)
    ensures name !in table
  {
    hide Rooted, Named, Links;
    NameLinked(s, name);
  }

  lemma CanWriteBack(s0: State, s1: State, f: Saved)
    requires MadeFile(s0, s1, f.name, |f.content|) && |f.content| <= MAX_LENGTH
    ensures f.name in Named(s1) && WriteFits(s1, f.name, 0, |f.content|)
  {
    hide Rooted, Named, RootSlots, FreeFrom, SystemKept, Links, FilesKept, Cost, Sectors, FromFront;
    NoNeed(|f.content|);
  }

  /** While files are being made anew: k of them are there, and the rest fits. */
  ghost predicate Reloading(s0: State, s: State, saved: seq<Saved>, k: nat) {
    && Rooted(s) && k <= |saved| && Named(s) == Restored(AsMap(saved[..k])) && |Named(s)| == k
    && RootSlots(s) == RootSlots(s0) && SystemKept(s0, s) && LayoutKept(s0, s)
    && |FreeList(s.bits)| + SavedCost(saved[..k]) == |FreeList(s0.bits)|
    && Packed(TableOf(s, ROOT)) && InOrder(TableOf(s, ROOT)) == SavedNames(saved[..k])
  }

  lemma ReloadingStart(s: State, saved: seq<Saved>)
    requires Rooted(s) && Named(s) == map[] && Packed(TableOf(s, ROOT)) && InOrder(TableOf(s, ROOT)) == []
    ensures Reloading(s, s, saved, 0)
  {
    hide Rooted, Named, FreeFrom, RootSlots, Consecutive, Unfragmented, TableOf, Packed, InOrder;
    assert saved[..0] == [];
  }

  lemma {:induction false} SavedCostMonotone(saved: seq<Saved>, k: nat)
    requires k <= |saved|
    ensures SavedCost(saved[..k]) <= SavedCost(saved)
  {
    hide Cost, Sectors;
    if k < |saved| {
      SavedCostMonotone(saved[..|saved| - 1], k);
      assert saved[..|saved| - 1][..k] == saved[..k];
    } else {
      assert saved[..k] == saved;
    }
  }

  /** The next file can be made anew ... */
  lemma ReloadingFits(s0: State, s: State, saved: seq<Saved>, k: nat)
    requires Reloading(s0, s, saved, k) && k < |saved| <= RootSlots(s0) && Sensible(saved)
             && SavedCost(saved) <= |FreeList(s0.bits)|
    ensures var f := saved[k];
            && FileName(f.name) && f.name !in Named(s) && |Named(s)| < RootSlots(s)
            && |f.content| <= MAX_LENGTH && 1 + Cost(Sectors(|f.content|)) <= |FreeList(s.bits)|
  {
    hide Rooted, Named, FreeFrom, RootSlots, Cost, Sectors, FileName, SystemKept, LayoutKept, AsMap, Restored,
      SavedCost, Sensible, TableOf, Packed, InOrder, SavedNames;
    SavedCostMonotone(saved, k + 1);
    SavedNext(saved, k);
    SensibleAt(saved, k);
  }

  lemma SavedNext(saved: seq<Saved>, k: nat)
    requires k < |saved|
    ensures AsMap(saved[..k + 1]) == AsMap(saved[..k])[saved[k].name := saved[k].content]
    ensures Restored(AsMap(saved[..k + 1]))
         == Restored(AsMap(saved[..k]))[saved[k].name := Terminated(saved[k].content)]
    ensures SavedCost(saved[..k + 1]) == SavedCost(saved[..k]) + 1 + Cost(Sectors(|saved[k].content|))
  {
    hide Cost, Sectors, Terminated;
    assert saved[..k + 1][..k] == saved[..k];
  }

  lemma SensibleAt(saved: seq<Saved>, k: nat)
    requires Sensible(saved) && k < |saved|
    ensures saved[k].name !in Restored(AsMap(saved[..k])) && FileName(saved[k].name) && |saved[k].content| <= MAX_LENGTH
  {
    hide AsMap, FileName;
  }

  /** ... after which one more is there. */
  lemma ReloadingNext(s0: State, s1: State, s2: State, saved: seq<Saved>, k: nat)
    requires Reloading(s0, s1, saved, k) && k < |saved| && saved[k].name !in Named(s1) && Remade(s1, s2, saved[k])
    ensures Reloading(s0, s2, saved, k + 1)
  {
    hide Rooted, Named, FreeFrom, RootSlots, Cost, Sectors, LayoutKept, System, Terminated, AsMap, Restored, SavedCost,
      TableOf, Packed, InOrder, SavedNames;
    SavedNext(saved, k);
    LayoutKeptTrans(s0, s1, s2);
    OneMore(Named(s1), saved[k].name, Terminated(saved[k].content));
    assert saved[..k + 1] == saved[..k] + [saved[k]];
    SavedNamesMore(saved[..k], saved[k]);
  }

  lemma OneMore(m: Bytes, n: Name, c: seq<byte>)
    requires n !in m
    ensures |m[n := c]| == |m| + 1
  {
    assert m[n := c].Keys == m.Keys + {n};
    assert |m[n := c]| == |m[n := c].Keys| && |m| == |m.Keys|;
  }

  /** What defragmenting does: every file keeps its name and, but for the last
      byte, its bytes; no sector is lost; and if the system's own files come first
      on the device, no file is fragmented and what is free is one run. */
  ghost predicate Defragmented(s0: State, s1: State) {
    && Rooted(s0) && Rooted(s1) && Named(s1) == Restored(Named(s0)) && AllButLast(Named(s0), Named(s1))
    && |FreeList(s1.bits)| == |FreeList(s0.bits)| && RootSlots(s1) == RootSlots(s0) && SystemKept(s0, s1)
    && InOrder(TableOf(s1, ROOT)) == InOrder(TableOf(s0, ROOT)) && Packed(TableOf(s1, ROOT))
    && (SystemFront(s0) ==> Unfragmented(s1) && Consecutive(FreeList(s1.bits)))
  }

  /** Names and lengths are the same, and so are all bytes but the last, which is zero. */
  ghost predicate AllButLast(m0: Bytes, m1: Bytes) {
    m1.Keys == m0.Keys && forall n :: n in m0 ==> LastZeroed(m0[n], m1[n])
  }

  lemma RestoredMeans(m: Bytes)
    ensures AllButLast(m, Restored(m))
  {
    hide Terminated, LastZeroed;
    forall n | n in m
      ensures LastZeroed(m[n], Restored(m)[n])
    {
      TerminatedMeans(m[n]);
    }
  }

  lemma EmptyRootLayout(s0: State, s1: State)
    requires SystemFront(s0) && SystemKept(s0, s1) && Rooted(s1) && Named(s1) == map[]
    ensures Consecutive(FreeList(s1.bits)) && Unfragmented(s1)
  {
    hide IsDirectory, TableOf, Links, Contents, FreeFrom, Consecutive, Fragmented, FileName, Named, Linked, Sound;
    RootedLinked(s1);
    RootedFacts(s1);
    assert Links(s1).Keys == {};
    SoundFile0(s1);
    assert s1.files.Keys == {0, ROOT};
    BareVolumeFree(s1);
  }

  lemma SoundFile0(s: State)
    requires Sound(s)
    ensures 0 in s.files
  {
  }

  lemma DefragmentedBy(s0: State, s1: State, s2: State, saved: seq<Saved>)
    requires Unloaded(s0, s1, saved) && Reloading(s1, s2, saved, |saved|)
    ensures Defragmented(s0, s2)
  {
    hide Rooted, Named, FreeFrom, RootSlots, Consecutive, Unfragmented, System, Restored, SavedCost, AsMap, Sensible,
      AllButLast, TableOf, Packed, InOrder;
    RestoredMeans(Named(s0));
    assert saved[..|saved|] == saved;
    if SystemFront(s0) {
      EmptyRootLayout(s0, s1);
    }
  }

  lemma NoneOpen(s: State, table: map<Name, File>)
    requires Rooted(s) && Named(s) == map[] && Tabled(table, Links(s))
    ensures Cursors(table) == Parked(Named(s))
  {
    hide Rooted, Named, Links, Contents, FileName, Linked;
    RootedLinked(s);
    assert Links(s).Keys == {};
  }

  lemma UnloadedFacts(s0: State, s: State, saved: seq<Saved>)
    requires Unloaded(s0, s, saved)
    ensures Rooted(s) && Named(s) == map[] && Sensible(saved) && |saved| <= RootSlots(s)
            && SavedCost(saved) <= |FreeList(s.bits)| && Packed(TableOf(s, ROOT)) && InOrder(TableOf(s, ROOT)) == []
  {
    hide Rooted, Named, FreeFrom, RootSlots, TableOf, Packed, InOrder, SavedNames;
  }

  /** Rewrites all files so that each lies together. It cannot run out of space. */
  method Run(files: FileTable)
    requires files.Valid()
    modifies files`table, files.fs`files, files.fs`owner, files.fs.cache, files.fs.cache.slots, files.fs.freeMap,
      files.fs.freeMap.elems
    ensures files.Valid() && Defragmented(old(files.fs.S()), files.fs.S())
    ensures Cursors(files.table) == Parked(Named(files.fs.S()))
  {
    hide Inodes.FileSystem.Valid, Rooted, Named, Links, RootSlots, FreeFrom, Unloaded, Reloading, Remade, Defragmented,
      Cost, Sectors, Sensible, Tabled, FileName, Cursors, Parked, TableOf, Packed, InOrder;
    ghost var s0 := files.fs.S();
    var saved := Unload(files);
    ghost var s1 := files.fs.S();
    UnloadedFacts(s0, s1, saved);
    ReloadingStart(s1, saved);
    NoneOpen(s1, files.table);
    for k := 0 to |saved|
      invariant files.Valid() && Reloading(s1, files.fs.S(), saved, k)
      invariant Cursors(files.table) == Parked(Named(files.fs.S()))
    {
      ghost var s := files.fs.S();
      ReloadingFits(s1, s, saved, k);
      Remake(files, saved[k]);
      ReloadingNext(s1, s, files.fs.S(), saved, k);
    }
    DefragmentedBy(s0, s1, files.fs.S(), saved);
  }

  // ----- When it preserves the files -----

  /** Every file that is not empty ends in a zero byte. */
  predicate EndsInZero(c: seq<byte>) {
    c == [] || c[|c| - 1] == 0
  }

  ghost predicate AllEndInZero(m: Bytes) {
    forall n :: n in m ==> EndsInZero(m[n])
  }

  /** Defragmenting changes no file exactly if all of them do. */
  lemma RestoredExactly(m: Bytes)
    ensures Restored(m) == m <==> AllEndInZero(m)
  {
    forall n | n in m
      ensures Terminated(m[n]) == m[n] <==> EndsInZero(m[n])
    {
      if m[n] != [] {
        assert m[n][|m[n]| - 1 := 0][|m[n]| - 1] == 0;
        assert EndsInZero(m[n]) ==> m[n][|m[n]| - 1 := 0] == m[n];
      }
    }
    if Restored(m) == m {
      forall n | n in m
        ensures EndsInZero(m[n])
      {
        assert Restored(m)[n] == Terminated(m[n]);
      }
    }
  }
}
