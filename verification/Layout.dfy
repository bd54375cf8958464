/** How fragmented the files of the root directory are, and what defragmenting makes of it. */
module Layout {
  import opened Words
  import opened BlockTree
  import opened Bitmaps
  import opened Cache
  import opened Volume
  import opened Ledger
  import opened EntryTable
  import opened Directory
  import opened FsUtil
  import opened Names
  import opened Files
  import opened Defragment
  import Inodes
  import Shell

  /** The data sectors of a named file. */
  ghost function NamedSectors(s: State, n: Name): (r: seq<Word>)
    ensures n in Links(s) && Links(s)[n] in s.files ==>
              var f := s.files[Links(s)[n]]; r == DataSectors(f.blocks, Sectors(f.len))
  {
    if n in Links(s) && Links(s)[n] in s.files then SectorsOf(s, Links(s)[n]) else []
  }

  ghost function FragmentableAmong(s: State, names: set<Name>): set<Name> {
    set n | n in names && |NamedSectors(s, n)| > 1
  }

  ghost function FragmentedAmong(s: State, names: set<Name>): set<Name> {
    set n | n in names && Fragmented(NamedSectors(s, n))
  }

  lemma FragmentableNext(s: State, names: set<Name>, n: Name)
    requires n !in names
    ensures |FragmentableAmong(s, names + {n})| ==
            |FragmentableAmong(s, names)| + if |NamedSectors(s, n)| > 1 then 1 else 0
  {
    hide NamedSectors;
    var now := FragmentableAmong(s, names);
    assert FragmentableAmong(s, names + {n}) == if |NamedSectors(s, n)| > 1 then now + {n} else now;
  }

  lemma FragmentedNext(s: State, names: set<Name>, n: Name)
    requires n !in names
    ensures |FragmentedAmong(s, names + {n})| ==
            |FragmentedAmong(s, names)| + if Fragmented(NamedSectors(s, n)) then 1 else 0
  {
    hide NamedSectors, Fragmented;
    var now := FragmentedAmong(s, names);
    assert FragmentedAmong(s, names + {n}) == if Fragmented(NamedSectors(s, n)) then now + {n} else now;
  }

  /** Opens a file that is not empty and looks at its sectors. */
  method Inspect(files: FileTable, name: Name) returns (several: bool, split: bool)
    requires files.Valid() && name in Named(files.fs.S()) && Named(files.fs.S())[name] != []
    modifies files.fs.cache, files.fs.cache.slots
    ensures files.Valid() && files.fs.S() == old(files.fs.S())
    ensures several == (|NamedSectors(files.fs.S(), name)| > 1) && split == Fragmented(NamedSectors(files.fs.S(), name))
  {
    hide BufferCache.Valid, Bitmap.Valid, Rooted, Links, Contents, Content, Named, FileName, Placed, AllOk, NoLeak,
      Persisted, FileOk, DataSectors, Fragmented;
    NameLinked(files.fs.S(), name);
    RootedFacts(files.fs.S());
    var _, ino := files.Find(name);
    SoundFile(files.fs.S(), ino);
    var inode := files.fs.OpenInode(ino);
    var sectors := files.fs.GetDataSectors(inode);
    several := |sectors| > 1;
    split := TestFragmented(sectors);
  }

  /** No file is empty. */
  ghost predicate NoneEmpty(m: Bytes) {
    forall n :: n in m ==> m[n] != []
  }

  /** Walks the root directory and counts the files with more than one sector, and
      those among them that are fragmented. */
  method FragmentationDegree(files: FileTable) returns (fragmentable: nat, fragmented: nat)
    requires files.Valid() && NoneEmpty(Named(files.fs.S()))
    modifies files.fs.cache, files.fs.cache.slots
    ensures files.Valid() && files.fs.S() == old(files.fs.S())
    ensures fragmentable == |FragmentableAmong(files.fs.S(), Named(files.fs.S()).Keys)|
    ensures fragmented == |FragmentedAmong(files.fs.S(), Named(files.fs.S()).Keys)|
    ensures fragmentable == |LargeFiles(Named(files.fs.S()))|
    ensures |files.fs.freeMap.bits| <= 0x8000_0000 ==> fragmented == |ScatteredFiles(files.fs.S())|
  {
    hide Inodes.FileSystem.Valid, Rooted, Named, Links, TableOf, Found, IsDirectory, CStr, Tabled, Sound, Listing,
      TableOk, FragmentableAmong, FragmentedAmong, NamedSectors, Counted, NoneEmpty, LargeFiles, ScatteredFiles;
    ghost var s := files.fs.S();
    fragmentable, fragmented := 0, 0;
    ghost var names: set<Name>, from: nat := {}, 1;
    CountedNone(s);
    RootedFacts(s);
    var dir := new Dir(files.fs, ROOT);
    var ok, name := dir.Readdir();
    while ok
      invariant files.Valid() && dir.Valid() && files.fs.S() == s && dir.pos > 0
      invariant Counted(s, names, from, fragmentable, fragmented) && Found(TableOf(s, ROOT), ok, name, from, dir.pos)
      decreases |TableOf(s, ROOT)| - from
    {
      FoundForward(TableOf(s, ROOT), name, from, dir.pos);
      CountedNext(s, names, from, fragmentable, fragmented, name, dir.pos);
      var several, split := Inspect(files, name);
      if several {
        fragmentable := fragmentable + 1;
      }
      if split {
        fragmented := fragmented + 1;
      }
      names, from := names + {name}, dir.pos;
      ok, name := dir.Readdir();
    }
    CountedAll(s, names, from, fragmentable, fragmented, name, dir.pos);
    FragmentableAreLarge(s);
    if |s.bits| <= 0x8000_0000 {
      FragmentedAreScattered(s);
    }
  }

  /** The files with more bytes than a sector. */
  ghost function LargeFiles(m: Bytes): set<Name> {
    set n | n in m && |m[n]| > SECTOR_SIZE
  }

  /** The files some of whose data sectors lie more than 3 behind the one before. */
  ghost function ScatteredFiles(s: State): set<Name> {
    set n | n in Named(s) && n in Links(s) && Links(s)[n] in s.files
            && var f := s.files[Links(s)[n]]; Scattered(DataSectors(f.blocks, Sectors(f.len)))
  }

  lemma FragmentableAreLarge(s: State)
    requires Rooted(s)
    ensures FragmentableAmong(s, Named(s).Keys) == LargeFiles(Named(s))
  {
    hide Rooted, Links, Contents, Named;
    forall n | n in Named(s)
      ensures |NamedSectors(s, n)| > 1 <==> |Named(s)[n]| > SECTOR_SIZE
    {
      NameLinked(s, n);
      RootedFacts(s);
      SoundFile(s, Links(s)[n]);
    }
  }

  lemma FragmentedAreScattered(s: State)
    requires Rooted(s) && |s.bits| <= 0x8000_0000
    ensures FragmentedAmong(s, Named(s).Keys) == ScatteredFiles(s)
  {
    hide Rooted, Links, Contents, Named, Fragmented, Scattered, DataSectors, Small;
    forall n | n in Named(s)
      ensures n in Links(s) && Links(s)[n] in s.files
      ensures Fragmented(NamedSectors(s, n)) <==> Scattered(NamedSectors(s, n))
    {
      NameLinked(s, n);
      RootedFacts(s);
      FileSectorsSmall(s, Links(s)[n]);
      FragmentedIsScattered(NamedSectors(s, n));
    }
  }

  lemma FileSectorsSmall(s: State, f: nat)
    requires Sound(s) && f in s.files && |s.bits| <= 0x8000_0000
    ensures Small(DataSectors(s.files[f].blocks, Sectors(s.files[f].len)))
  {
    hide AllOk, NoLeak, Persisted, Placed, DataRole, Sectors;
    AccountedIsPlaced(s);
    forall r: nat | r < |s.files[f].blocks|
      ensures s.files[f].blocks[r] < 0x8000_0000
    {
      InRange(s, f, r);
    }
  }

  /** names are those of the slots below from, and the counts are theirs. */
  ghost predicate Counted(s: State, names: set<Name>, from: nat, fragmentable: nat, fragmented: nat) {
    && NamesBelow(TableOf(s, ROOT), from) == names
    && fragmentable == |FragmentableAmong(s, names)| && fragmented == |FragmentedAmong(s, names)|
  }

  ghost function NamesBelow(t: seq<Entry>, from: nat): set<Name> {
    set i | 0 <= i < |t| && i < from && Used(t, i) :: CStr(t[i].field)
  }

  lemma CountedNone(s: State)
    ensures Counted(s, {}, 1, 0, 0)
  {
    hide TableOf, CStr, NamedSectors, Fragmented;
    assert FragmentableAmong(s, {}) == {} && FragmentedAmong(s, {}) == {};
  }

  lemma NamesBelowNext(t: seq<Entry>, from: nat, name: Name, pos: nat)
    requires UniqueNames(t) && Found(t, true, name, from, pos)
    ensures name !in NamesBelow(t, from) && NamesBelow(t, pos) == NamesBelow(t, from) + {name}
  {
    hide CStr;
    forall n | n in NamesBelow(t, pos)
      ensures n in NamesBelow(t, from) || n == name
    {
      var i :| 0 <= i < |t| && i < pos && Used(t, i) && CStr(t[i].field) == n;
      assert i < from || i == pos - 1;
    }
  }

  lemma CountedNext(s: State, names: set<Name>, from: nat, fragmentable: nat, fragmented: nat, name: Name, pos: nat)
    requires Rooted(s) && NoneEmpty(Named(s))
    requires Counted(s, names, from, fragmentable, fragmented) && Found(TableOf(s, ROOT), true, name, from, pos)
    ensures name in Named(s) && Named(s)[name] != []
    ensures Counted(s, names + {name}, pos, fragmentable + (if |NamedSectors(s, name)| > 1 then 1 else 0),
                    fragmented + if Fragmented(NamedSectors(s, name)) then 1 else 0)
  {
    hide Sound, TableOf, TableOk, UniqueNames, LinksOk, Links, Named, CStr, NamesBelow, NoneUsed, NamedSectors,
      Fragmented, FragmentableAmong, FragmentedAmong;
    DirectoryUnique(s, ROOT);
    NamesBelowNext(TableOf(s, ROOT), from, name, pos);
    SlotIsNamed(s, pos - 1);
    FragmentableNext(s, names, name);
    FragmentedNext(s, names, name);
  }

  lemma NamesBelowAll(t: seq<Entry>, from: nat, name: Name, pos: nat)
    requires UniqueNames(t) && Found(t, false, name, from, pos)
    ensures NamesBelow(t, from) == Listing(t).Keys
  {
    hide CStr;
  }

  lemma CountedAll(s: State, names: set<Name>, from: nat, fragmentable: nat, fragmented: nat, name: Name, pos: nat)
    requires Rooted(s)
    requires Counted(s, names, from, fragmentable, fragmented) && Found(TableOf(s, ROOT), false, name, from, pos)
    ensures names == Named(s).Keys
    ensures fragmentable == |FragmentableAmong(s, names)| && fragmented == |FragmentedAmong(s, names)|
  {
    hide Sound, TableOf, LinksOk, Listing, Named, NamesBelow, Found, FragmentableAmong, FragmentedAmong, UniqueNames,
      Linked, FileName;
    DirectoryUnique(s, ROOT);
    NamesBelowAll(TableOf(s, ROOT), from, name, pos);
    RootedLinked(s);
  }

  // ----- After defragmenting -----

  lemma NoneFragmented(s: State)
    requires Unfragmented(s)
    ensures FragmentedAmong(s, Named(s).Keys) == {}
  {
    hide Links, Named, Contents, SectorsOf;
  }

  lemma FrontKept(s0: State, s1: State)
    requires Empty(s0) && Shell.SystemStays(s0, s1) && RootSlots(s1) == MAX_FILES - 1
    ensures SystemFront(s1)
  {
    hide System, Rooted, Named, RootSlots;
  }

  /** On a new volume, after any session in which the root directory did not have to
      grow, defragmenting changes no file and leaves none of them fragmented. */
  method SessionThenDefragment(files: FileTable, cmds: seq<Shell.Cmd>)
    returns (outs: seq<Shell.Out>, fragmentable: nat, fragmented: nat)
    requires files.Valid() && Empty(files.fs.S()) && Shell.Legal(Shell.View(files.table, files.fs.S()), cmds)
    requires var d := Shell.After(Shell.View(files.table, files.fs.S()), cmds);
             d.slots == MAX_FILES - 1 && NoneEmpty(d.files)
    modifies files`table, files.fs`files, files.fs`owner, files.fs.cache, files.fs.cache.slots
    modifies files.fs.freeMap, files.fs.freeMap.elems
    ensures files.Valid()
    ensures Named(files.fs.S()) == Shell.After(old(Shell.View(files.table, files.fs.S())), cmds).files
    ensures fragmentable == |LargeFiles(Named(files.fs.S()))| && fragmented == 0
  {
    hide Inodes.FileSystem.Valid, Rooted, Named, Links, Tabled, RootSlots, FreeFrom, Cursors, Shell.After, Shell.Legal,
      Shell.Answer, Shell.SystemStays, SystemFront, SystemKept, Unfragmented, Consecutive, Restored, Parked, NoneEmpty,
      FragmentableAmong, FragmentedAmong, AllEndInZero, Empty, LargeFiles, ScatteredFiles;
    ghost var s0 := files.fs.S();
    ghost var d := Shell.View(files.table, s0);
    outs := Shell.Session(files, cmds);
    ghost var s1 := files.fs.S();
    FrontKept(s0, s1);
    EmptyEndsInZero(s0);
    Shell.SessionEndsInZero(d, cmds);
    RestoredExactly(Named(s1));
    Defragment.Run(files);
    NoneFragmented(files.fs.S());
    fragmentable, fragmented := FragmentationDegree(files);
  }

  lemma EmptyEndsInZero(s: State)
    requires Empty(s)
    ensures AllEndInZero(Named(s))
  {
    hide Rooted, RootSlots, SystemFront;
  }
}
