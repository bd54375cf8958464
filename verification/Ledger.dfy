/** The books of a volume at operation boundaries: what every operation on one
    file leaves of the others, and how many sectors are left. */
module Ledger {
  import opened Words
  import opened BlockTree
  import opened Bitmaps
  import opened Volume
  import opened Growth
  import opened FileData

  /** The files a user can see: every file but the free map, as bytes. */
  ghost function Contents(s: State): map<nat, seq<byte>> {
    map g | g in s.files && g != 0 :: Content(s.view, s.files[g])
  }

  /** A volume between operations. */
  ghost predicate Sound(s: State) {
    Accounted(s) && AllOk(s) && NoLeak(s) && Persisted(s)
  }

  lemma SoundFile(s: State, f: nat)
    requires Sound(s) && f in s.files
    ensures FileOk(s.view, f, s.files[f]) && |s.files[f].blocks| == Cost(Sectors(s.files[f].len))
    ensures s.files[f].len <= MAX_LENGTH && Stored(s.view, s.files[f].blocks, {})
    ensures f != 0 ==> f in Contents(s) && Contents(s)[f] == Content(s.view, s.files[f])
  {
    FileOkFacts(s.view, f, s.files[f]);
  }

  lemma PlacedIgnoresBits(s: State, t: State)
    requires Sound(s) && s == t.(bits := s.bits) && |s.bits| == |t.bits|
    ensures Placed(t)
  {
  }

  /** After an operation on f that keeps the others, the volume is sound again
      and the others read as before. */
  lemma SoundAfter(f: nat, s0: State, s1: State)
    requires Sound(s0) && Accounted(s1) && OthersKept(f, s0, s1) && f != 0
    requires f in s1.files && s1.files == s0.files[f := s1.files[f]]
    requires FileOk(s1.view, f, s1.files[f]) && Persisted(s1) && FileOk(s1.view, 0, s1.files[0])
    ensures Sound(s1)
    ensures Contents(s1) == Contents(s0)[f := Content(s1.view, s1.files[f])]
  {
    hide FileOk, Content, Placed, BitsOf;
    forall g | g in s0.files && g != f && g != 0
      ensures FileOk(s1.view, g, s1.files[g]) && Content(s1.view, s1.files[g]) == Content(s0.view, s0.files[g])
    {
      OtherFileKept(f, s0, s1, g);
    }
  }

  /** A write to f needs no more sectors than Need says, and takes exactly those. */
  lemma WriteRoom(s: State, f: nat, end: nat)
    requires Sound(s) && f in s.files && Need(s.files[f].len, end) <= |FreeList(s.bits)|
    ensures Cost(Sectors(end)) <= |s.files[f].blocks| + |FreeList(s.bits)|
  {
    hide FreeFrom, Sound, Cost, Sectors;
    SoundFile(s, f);
    if end <= s.files[f].len {
      SectorsMonotone(end, s.files[f].len);
    }
  }

  lemma SoundAfterWrite(f: nat, s0: State, s1: State, offset: nat, data: seq<byte>)
    requires Sound(s0) && Wrote(f, s0, s1, offset, data) && f != 0
    requires Accounted(s1) && FileOk(s1.view, f, s1.files[f]) && Persisted(s1) && FileOk(s1.view, 0, s1.files[0])
    ensures Sound(s1)
    ensures Contents(s1) == Contents(s0)[f := Splice(Content(s0.view, s0.files[f]), offset, data)]
    ensures |FreeList(s1.bits)| == |FreeList(s0.bits)| - Need(s0.files[f].len, offset + |data|)
  {
    hide FreeFrom, FileOk, Content, Contents, Splice, OthersKept, Persisted, Accounted, NoLeak, AllOk, Cost, Sectors;
    SoundAfter(f, s0, s1);
    SoundFile(s0, f);
    SoundFile(s1, f);
  }

  /** The same for an operation that removes f. */
  lemma SoundAfterRemoval(f: nat, s0: State, s1: State)
    requires Sound(s0) && Accounted(s1) && f != 0
    requires s1.files == s0.files - {f} && OnlyFreeMap(s0.(files := s1.files), s1)
    requires forall x :: x in s1.owner <==> x in s0.owner && s0.owner[x].ino != f
    requires forall x :: x in s1.owner ==> s1.owner[x] == s0.owner[x]
    requires Persisted(s1) && FileOk(s1.view, 0, s1.files[0])
    ensures Sound(s1)
    ensures Contents(s1) == Contents(s0) - {f}
    ensures OthersKept(f, s0, s1)
  {
    hide FileOk, Content, BitsOf, Placed, Sec;
    forall g | g in s1.files && g != 0
      ensures FileOk(s1.view, g, s1.files[g]) && Content(s1.view, s1.files[g]) == Content(s0.view, s0.files[g])
    {
      FileBesideRemoval(s0, s1, g);
    }
  }

  lemma FileBesideRemoval(s0: State, s1: State, g: nat)
    requires Placed(s0) && g in s0.files && g != 0 && FileOk(s0.view, g, s0.files[g])
    requires |s0.view| == |s1.view| && forall y: nat :: !IsDataOf(s0.owner, 0, y) ==> Sec(s1.view, y) == Sec(s0.view, y)
    ensures FileOk(s1.view, g, s0.files[g]) && Content(s1.view, s0.files[g]) == Content(s0.view, s0.files[g])
  {
    hide FileOk, Content, Sec;
    assert Owns(s0.owner, g, s0.files[g]);
    assert !IsDataOf(s0.owner, 0, g);
    assert forall r :: 0 <= r < |s0.files[g].blocks| ==> !IsDataOf(s0.owner, 0, s0.files[g].blocks[r]);
    SameSectors(s0.view, s1.view, g, s0.files[g]);
  }

  /** Handing a free sector out as an inode concerns no file. */
  lemma NodeGrantKeepsOthers(s0: State, s1: State, x: Word)
    requires Accounted(s0) && x < |s0.bits| && !s0.bits[x]
    requires s1 == Grant(s0, ToInode, x).(view := s1.view) && |s1.view| == |s0.view|
    requires forall y: nat :: !IsDataOf(s1.owner, 0, y) ==> Sec(s1.view, y) == Sec(s0.view, y)
    ensures OthersKept(x, s0, s1)
  {
    assert x !in s0.owner;
  }

  /** ... and the sector is ready to become one. */
  lemma NewNode(s0: State, s1: State, x: Word)
    requires Sound(s0) && FirstFree(s0.bits, x)
    requires s1 == Grant(s0, ToInode, x).(view := s1.view) && |s1.view| == |s0.view|
    requires forall y: nat :: !IsDataOf(s1.owner, 0, y) ==> Sec(s1.view, y) == Sec(s0.view, y)
    ensures OthersKept(x, s0, s1) && x !in s1.files && x != 0
    ensures s1.owner[x] == Node(x) && forall y :: y in s1.owner && s1.owner[y].Block? ==> s1.owner[y].ino != x
    ensures FreeList(s0.bits) == [x] + FreeList(s1.bits)
  {
    hide FreeFrom, AllOk, Persisted, Sec;
    NodeGrantKeepsOthers(s0, s1, x);
    FreeFromTakesHead(s0.bits, 0, x);
    forall g | g in s0.files
      ensures g in s0.owner
    {
      assert Owns(s0.owner, g, s0.files[g]);
    }
  }

  /** What making a file does: it is a file of zeros, in a new inode sector, and
      inode and tree come from the front of the free list. */
  ghost predicate MadeInode(s0: State, s1: State, ino: Word, len: nat, isDir: bool) {
    && ino !in s0.files && ino in s1.files && s1.files == s0.files[ino := s1.files[ino]]
    && s1.files[ino].isDir == isDir && s1.files[ino].len == len
    && Contents(s1) == Contents(s0)[ino := Zeros(len)] && OthersKept(ino, s0, s1)
    && FreeList(s0.bits) == [ino] + s1.files[ino].blocks + FreeList(s1.bits) && |s1.bits| == |s0.bits|
  }

  // ----- Counting -----

  ghost function OwnedFrom(owner: map<nat, Tag>, from: nat): set<nat> {
    set x | x in owner && from <= x
  }

  lemma {:induction false} FreeFromOwned(s: State, from: nat)
    requires Accounted(s) && from <= |s.bits|
    ensures |FreeFrom(s.bits, from)| + |OwnedFrom(s.owner, from)| == |s.bits| - from
    decreases |s.bits| - from
  {
    var here := OwnedFrom(s.owner, from);
    if from == |s.bits| {
      assert here == {};
    } else {
      var rest := OwnedFrom(s.owner, from + 1);
      FreeFromOwned(s, from + 1);
      if s.bits[from] {
        assert here == rest + {from} && from !in rest;
      } else {
        assert here == rest;
      }
    }
  }

  /** Free sectors and owned sectors make up the device. */
  lemma Balance(s: State)
    requires Accounted(s)
    ensures |FreeList(s.bits)| + |s.owner| == |s.bits|
  {
    FreeFromOwned(s, 0);
    assert OwnedFrom(s.owner, 0) == s.owner.Keys;
  }

  ghost function Elements(b: seq<Word>): set<nat> {
    set x | x in b
  }

  lemma {:induction false} DistinctCount(b: seq<Word>, owner: map<nat, Tag>, f: nat)
    requires forall r :: 0 <= r < |b| ==> b[r] in owner && owner[b[r]] == Block(f, r)
    ensures |Elements(b)| == |b|
  {
    if b == [] {
      assert Elements(b) == {};
    } else {
      var last := |b| - 1;
      DistinctCount(b[..last], owner, f);
      assert b[last] !in Elements(b[..last]);
      assert Elements(b) == Elements(b[..last]) + {b[last]};
    }
  }

  /** A file's sectors are its inode and the elements of its tree. */
  lemma OwnSectors(s: State, f: nat, x: nat)
    requires Placed(s) && f in s.files
    ensures f in s.owner && f !in Elements(s.files[f].blocks)
    ensures x in s.owner && s.owner[x].ino == f <==> x == f || x in Elements(s.files[f].blocks)
  {
    assert Owns(s.owner, f, s.files[f]);
  }

  lemma PartitionCount(whole: set<nat>, rest: set<nat>, part: set<nat>)
    requires forall x :: x in whole <==> x in rest || x in part
    requires forall x :: !(x in rest && x in part)
    ensures |whole| == |rest| + |part|
  {
    assert whole == rest + part && rest !! part;
  }

  lemma KeysAfterRemoval(f: nat, s0: State, s1: State)
    requires Placed(s0) && f in s0.files
    requires forall x :: x in s1.owner <==> x in s0.owner && s0.owner[x].ino != f
    ensures |s0.owner.Keys| == |s1.owner.Keys| + |Elements(s0.files[f].blocks) + {f}|
  {
    hide Placed, Elements;
    var own := Elements(s0.files[f].blocks) + {f};
    forall x: nat
      ensures x in s0.owner.Keys <==> x in s1.owner.Keys || x in own
      ensures !(x in s1.owner.Keys && x in own)
    {
      OwnSectors(s0, f, x);
    }
    PartitionCount(s0.owner.Keys, s1.owner.Keys, own);
  }

  lemma OwnCount(s: State, f: nat)
    requires Placed(s) && f in s.files
    ensures |Elements(s.files[f].blocks) + {f}| == |s.files[f].blocks| + 1
  {
    OwnSectors(s, f, f);
    assert Owns(s.owner, f, s.files[f]);
    DistinctCount(s.files[f].blocks, s.owner, f);
  }

  /** Removing a file frees its inode and every sector of its tree. */
  lemma RemovalFrees(f: nat, s0: State, s1: State)
    requires Accounted(s0) && Accounted(s1) && f in s0.files && |s0.bits| == |s1.bits|
    requires forall x :: x in s1.owner <==> x in s0.owner && s0.owner[x].ino != f
    ensures |FreeList(s1.bits)| == |FreeList(s0.bits)| + 1 + |s0.files[f].blocks|
  {
    hide Placed, FreeFrom, Elements;
    KeysAfterRemoval(f, s0, s1);
    OwnCount(s0, f);
    Balance(s0);
    Balance(s1);
  }

  /** The free map is determined by who owns what. */
  lemma SameOwnersSameBits(s0: State, s1: State)
    requires Accounted(s0) && Accounted(s1) && |s0.bits| == |s1.bits|
    requires forall x :: x in s1.owner <==> x in s0.owner
    ensures s0.bits == s1.bits
  {
  }

  // ----- A file whose inode alone is given back -----

  /** Its tree is then lost, unless it has none. */
  lemma LeakExactly(f: nat, s0: State, s1: State)
    requires Placed(s0) && NoLeak(s0) && f in s0.files
    requires s1.files == s0.files - {f} && s1.owner == s0.owner - {f}
    ensures NoLeak(s1) <==> s0.files[f].blocks == []
  {
    var b := s0.files[f].blocks;
    assert Owns(s0.owner, f, s0.files[f]);
    if b != [] {
      assert b[0] in s1.owner && s1.owner[b[0]] == Block(f, 0);
    } else {
      forall x | x in s1.owner
        ensures s1.owner[x].ino in s1.files
      {
        assert s0.owner[x].ino != f;
      }
    }
  }

  lemma AbandonedRoom(f: nat, s0: State, s1: State)
    requires Accounted(s0) && Accounted(s1) && |s0.bits| == |s1.bits| && f in s0.owner && s1.owner == s0.owner - {f}
    ensures |FreeList(s1.bits)| == |FreeList(s0.bits)| + 1
  {
    hide FreeFrom, Accounted;
    Balance(s0);
    Balance(s1);
    assert s1.owner.Keys == s0.owner.Keys - {f};
    assert |s1.owner| == |s1.owner.Keys| && |s0.owner| == |s0.owner.Keys|;
  }

  lemma AfterAbandoning(f: nat, s0: State, s1: State)
    requires Sound(s0) && Accounted(s1) && f in s0.files && f != 0 && |s0.bits| == |s1.bits|
    requires s1.files == s0.files - {f} && s1.owner == s0.owner - {f} && OnlyFreeMap(s0.(files := s1.files), s1)
    requires Persisted(s1) && FileOk(s1.view, 0, s1.files[0])
    ensures Contents(s1) == Contents(s0) - {f} && |FreeList(s1.bits)| == |FreeList(s0.bits)| + 1
    ensures Sound(s1) <==> s0.files[f].blocks == []
  {
    hide FileOk, Content, BitsOf, Placed, Sec, FreeFrom, NoLeak;
    forall g | g in s1.files && g != 0
      ensures FileOk(s1.view, g, s1.files[g]) && Content(s1.view, s1.files[g]) == Content(s0.view, s0.files[g])
    {
      FileBesideRemoval(s0, s1, g);
    }
    LeakExactly(f, s0, s1);
    OwnSectors(s0, f, f);
    AbandonedRoom(f, s0, s1);
  }
}
