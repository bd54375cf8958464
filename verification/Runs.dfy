/** Whole runs: the file system against a map from inode numbers to bytes. */
module Runs {
  import opened Words
  import opened BlockTree
  import opened Bitmaps
  import opened Cache
  import opened Volume
  import opened Growth
  import opened FileData
  import opened Ledger
  import Inodes

  /** What users see: the bytes of every file, and how many sectors are left. */
  datatype Abs = Abs(files: map<nat, seq<byte>>, room: nat)

  datatype Op =
    | Create(length: nat, isDir: bool)
    | Write(ino: nat, offset: nat, data: seq<byte>)
    | Read(ino: nat, offset: nat, size: nat)
    | Remove(ino: nat)

  datatype Out = Made(ino: nat) | Count(n: nat) | Bytes(s: seq<byte>) | Done

  ghost function View(s: State): Abs {
    Abs(Contents(s), |FreeList(s.bits)|)
  }

  /** The operation names a live file, stays within the largest file, and there is room for it. */
  predicate Enabled(a: Abs, op: Op) {
    match op
    case Create(length, _) => length <= MAX_LENGTH && 1 + Cost(Sectors(length)) <= a.room
    case Write(ino, offset, data) =>
      && ino in a.files && (offset + |data| > 0 || a.files[ino] == [])
      && offset + |data| <= MAX_LENGTH && Need(|a.files[ino]|, offset + |data|) <= a.room
    case Read(ino, _, _) => ino in a.files
    case Remove(ino) => ino in a.files
  }

  /** What an operation means on the map of files. */
  ghost predicate Step(a: Abs, op: Op, out: Out, a': Abs)
    requires Enabled(a, op)
  {
    match op
    case Create(length, _) =>
      && out.Made? && out.ino !in a.files
      && a' == Abs(a.files[out.ino := Zeros(length)], a.room - 1 - Cost(Sectors(length)))
    case Write(ino, offset, data) =>
      && out == Count(|data|)
      && a' == Abs(a.files[ino := Splice(a.files[ino], offset, data)], a.room - Need(|a.files[ino]|, offset + |data|))
    case Read(ino, offset, size) =>
      out == Bytes(Slice(a.files[ino], offset, size)) && a' == a
    case Remove(ino) =>
      out == Done && a' == Abs(a.files - {ino}, a.room + 1 + Cost(Sectors(|a.files[ino]|)))
  }

  lemma ViewOfFile(s: State, ino: nat)
    requires Sound(s)
    ensures ino in Contents(s) <==> ino in s.files && ino != 0
    ensures ino in Contents(s) ==>
              Contents(s)[ino] == Content(s.view, s.files[ino]) && |Contents(s)[ino]| == s.files[ino].len
  {
  }

  /** Decides whether an operation may be issued. */
  method Check(fs: Inodes.FileSystem, op: Op, inodes: set<nat>) returns (ok: bool)
    requires fs.Valid() && inodes == Contents(fs.S()).Keys
    modifies fs.cache, fs.cache.slots
    ensures fs.Valid() && fs.S() == old(fs.S())
    ensures ok <==> Enabled(View(fs.S()), op)
  {
    hide BufferCache.Valid, Bitmap.Valid, Placed, FileOk, AllOk, BitsOf, Content, FreeFrom, Cost, Sectors;
    var room := fs.NumFreeSectors();
    match op
    case Create(length, _) =>
      ok := length <= MAX_LENGTH && 1 + Cost(Sectors(length)) <= room;
    case Write(ino, offset, data) =>
      ok := false;
      if ino in inodes && offset + |data| <= MAX_LENGTH {
        SoundFile(fs.S(), ino);
        var inode := fs.OpenInode(ino);
        var length := fs.Length(inode);
        ok := (offset + |data| > 0 || length == 0) && Need(length, offset + |data|) <= room;
      }
    case Read(ino, _, _) => ok := ino in inodes;
    case Remove(ino) => ok := ino in inodes;
  }

  /** Carries out one operation. */
  method Do(fs: Inodes.FileSystem, op: Op, inodes: set<nat>) returns (out: Out, left: set<nat>)
    requires fs.Valid() && inodes == Contents(fs.S()).Keys && Enabled(View(fs.S()), op)
    modifies fs`files, fs`owner, fs.cache, fs.cache.slots, fs.freeMap, fs.freeMap.elems
    ensures fs.Valid() && left == Contents(fs.S()).Keys
    ensures Step(old(View(fs.S())), op, out, View(fs.S()))
  {
    hide BufferCache.Valid, Bitmap.Valid, Placed, FileOk, AllOk, BitsOf, Content, Contents, FreeFrom, Cost, Sectors,
      OthersKept, Taken, Splice, Slice;
    ghost var s0 := fs.S();
    match op
    case Create(length, isDir) =>
      var ino := fs.Create(length, isDir);
      CreateRoom(s0, fs.S(), ino);
      ViewOfFile(s0, ino);
      out, left := Made(ino), inodes + {ino};
    case Write(ino, offset, data) =>
      ViewOfFile(s0, ino);
      var n := fs.Write(ino, data, offset);
      out, left := Count(n), inodes;
    case Read(ino, offset, size) =>
      ViewOfFile(s0, ino);
      var s := fs.Read(ino, size, offset);
      out, left := Bytes(s), inodes;
    case Remove(ino) =>
      ViewOfFile(s0, ino);
      fs.Remove(ino);
      out, left := Done, inodes - {ino};
  }

  lemma CreateRoom(s0: State, s1: State, ino: Word)
    requires Sound(s1) && ino in s1.files && FreeList(s0.bits) == [ino] + s1.files[ino].blocks + FreeList(s1.bits)
    ensures |FreeList(s1.bits)| == |FreeList(s0.bits)| - 1 - Cost(Sectors(s1.files[ino].len))
  {
    hide FreeFrom, Placed;
    SoundFile(s1, ino);
  }

  /** Issues operations one after the other, up to the first that may not be issued.
      Every run of the file system is a run of the map of files, with the same results. */
  method Run(fs: Inodes.FileSystem, ops: seq<Op>, inodes: set<nat>) returns (outs: seq<Out>, ghost trace: seq<Abs>)
    requires fs.Valid() && inodes == Contents(fs.S()).Keys
    modifies fs`files, fs`owner, fs.cache, fs.cache.slots, fs.freeMap, fs.freeMap.elems
    ensures fs.Valid()
    ensures |outs| <= |ops| && |trace| == |outs| + 1
    ensures trace[0] == old(View(fs.S())) && trace[|outs|] == View(fs.S())
    ensures forall i :: 0 <= i < |outs| ==> Enabled(trace[i], ops[i]) && Step(trace[i], ops[i], outs[i], trace[i + 1])
    ensures |outs| < |ops| ==> !Enabled(trace[|outs|], ops[|outs|])
  {
    hide Inodes.FileSystem.Valid, View, Enabled, Step, Contents;
    outs, trace := [], [View(fs.S())];
    var live := inodes;
    while |outs| < |ops|
      invariant fs.Valid() && live == Contents(fs.S()).Keys
      invariant |outs| <= |ops| && |trace| == |outs| + 1
      invariant trace[0] == old(View(fs.S())) && trace[|outs|] == View(fs.S())
      invariant forall i :: 0 <= i < |outs| ==>
                  Enabled(trace[i], ops[i]) && Step(trace[i], ops[i], outs[i], trace[i + 1])
      decreases |ops| - |outs|
    {
      var ok := Check(fs, ops[|outs|], live);
      if !ok {
        return;
      }
      var out;
      out, live := Do(fs, ops[|outs|], live);
      outs, trace := outs + [out], trace + [View(fs.S())];
    }
  }

  // ----- Conservation -----

  /** The length a file reaches by a series of writes. */
  function Reach(length: nat, writes: seq<(nat, seq<byte>)>): nat {
    if writes == [] then length
    else var (offset, data) := writes[|writes| - 1];
         Max(Reach(length, writes[..|writes| - 1]), offset + |data|)
  }

  lemma {:induction false} ReachMonotone(length: nat, writes: seq<(nat, seq<byte>)>, n: nat)
    requires n <= |writes|
    ensures length <= Reach(length, writes[..n]) <= Reach(length, writes)
  {
    if n < |writes| {
      ReachMonotone(length, writes[..|writes| - 1], n);
      assert writes[..|writes| - 1][..n] == writes[..n];
    } else {
      assert writes[..n] == writes;
      if n > 0 {
        ReachMonotone(length, writes[..n - 1], n - 1);
        assert writes[..n - 1][..n - 1] == writes[..n - 1];
      }
    }
  }

  /** If only ino has gained or lost sectors, and it has none before or after, no bit has changed. */
  lemma Conserved(ino: nat, s0: State, s1: State)
    requires Sound(s0) && Sound(s1) && |s0.bits| == |s1.bits| && OthersKept(ino, s0, s1)
    requires ino !in s0.files && forall x :: x in s1.owner ==> s1.owner[x].ino != ino
    ensures s1.bits == s0.bits
  {
    hide Placed, AllOk, Persisted;
    SameOwnersSameBits(s0, s1);
  }

  /** One more write to the file of Lifecycle. */
  method Append(fs: Inodes.FileSystem, ino: nat, offset: nat, data: seq<byte>, ghost s0: State, ghost most: nat)
    requires fs.Valid() && ino in fs.files && ino != 0 && OthersKept(ino, s0, fs.S())
             && Contents(fs.S()) - {ino} == Contents(s0)
    requires 0 < offset + |data| <= most <= MAX_LENGTH && fs.files[ino].len <= most
    requires Cost(Sectors(most)) <= Cost(Sectors(fs.files[ino].len)) + fs.Room()
    modifies fs`files, fs`owner, fs.cache, fs.cache.slots, fs.freeMap, fs.freeMap.elems
    ensures fs.Valid() && ino in fs.files && OthersKept(ino, s0, fs.S()) && Contents(fs.S()) - {ino} == Contents(s0)
    ensures fs.files[ino].len == Max(old(fs.files)[ino].len, offset + |data|)
    ensures Cost(Sectors(fs.files[ino].len)) + fs.Room() == old(Cost(Sectors(fs.files[ino].len)) + fs.Room())
    ensures |fs.freeMap.bits| == old(|fs.freeMap.bits|)
  {
    hide BufferCache.Valid, Bitmap.Valid, Sound, Content, Contents, FreeFrom, OthersKept, Splice, Cost, Sectors, Need,
      Wrote;
    ghost var s1 := fs.S();
    NeedFits(fs.files[ino].len, offset + |data|, most);
    var _ := fs.Write(ino, data, offset);
    WroteFacts(ino, s0, s1, fs.S(), offset, data);
  }

  lemma WroteFacts(ino: nat, s0: State, s1: State, s2: State, offset: nat, data: seq<byte>)
    requires OthersKept(ino, s0, s1) && Wrote(ino, s1, s2, offset, data) && ino in s1.files
    requires Contents(s1) - {ino} == Contents(s0)
    requires Contents(s2) == Contents(s1)[ino := Splice(Content(s1.view, s1.files[ino]), offset, data)]
    ensures ino in s2.files && OthersKept(ino, s0, s2) && Contents(s2) - {ino} == Contents(s0)
    ensures s2.files[ino].len == Max(s1.files[ino].len, offset + |data|) && |s2.bits| == |s1.bits|
  {
    hide Contents, Content, Splice, OthersKept, FreeFrom;
    OthersKeptTrans(ino, s0, s1, s2);
    assert Contents(s2) - {ino} == Contents(s1) - {ino};
  }

  /** A write needs no more than growing to a larger size does, and exactly what it adds. */
  lemma NeedFits(len: nat, end: nat, most: nat)
    requires end <= most && len <= most
    ensures Need(len, end) <= Cost(Sectors(most)) - Cost(Sectors(len))
    ensures Need(len, end) == Cost(Sectors(Max(len, end))) - Cost(Sectors(len))
  {
    SectorsMonotone(end, most);
    SectorsMonotone(len, most);
  }

  /** Creating a file, writing to it any number of times, and removing it
      leaves the free map as it was, bit for bit, and every other file untouched. */
  method Lifecycle(fs: Inodes.FileSystem, length: nat, isDir: bool, writes: seq<(nat, seq<byte>)>)
    requires fs.Valid() && Reach(length, writes) <= MAX_LENGTH && 1 + Cost(Sectors(Reach(length, writes))) <= fs.Room()
    requires forall w :: w in writes ==> 0 < w.0 + |w.1|
    modifies fs`files, fs`owner, fs.cache, fs.cache.slots, fs.freeMap, fs.freeMap.elems
    ensures fs.Valid()
    ensures fs.freeMap.bits == old(fs.freeMap.bits)
    ensures Contents(fs.S()) == old(Contents(fs.S()))
  {
    hide BufferCache.Valid, Bitmap.Valid, Sound, Content, Contents, FreeFrom, OthersKept, Cost, Sectors, Reach;
    ghost var s0 := fs.S();
    ghost var most := Reach(length, writes);
    ReachMonotone(length, writes, 0);
    SectorsMonotone(length, most);
    var ino := fs.Create(length, isDir);
    CreateRoom(s0, fs.S(), ino);
    NewInNew(s0, fs.S(), ino);
    for i := 0 to |writes|
      invariant fs.Valid() && ino in fs.files && OthersKept(ino, s0, fs.S()) && Contents(fs.S()) - {ino} == Contents(s0)
      invariant fs.files[ino].len <= most && |fs.freeMap.bits| == |s0.bits|
      invariant Cost(Sectors(most)) <= Cost(Sectors(fs.files[ino].len)) + fs.Room()
    {
      var (offset, data) := writes[i];
      ReachCovers(length, writes, i);
      Append(fs, ino, offset, data, s0, most);
    }
    ghost var s1 := fs.S();
    fs.Remove(ino);
    OthersKeptTrans(ino, s0, s1, fs.S());
    Conserved(ino, s0, fs.S());
  }

  lemma NewInNew(s0: State, s1: State, ino: nat)
    requires Sound(s0) && ino !in s0.files && ino in s1.files && s1.files == s0.files[ino := s1.files[ino]]
    ensures ino != 0 && ino !in Contents(s0)
  {
  }

  lemma ReachCovers(length: nat, writes: seq<(nat, seq<byte>)>, i: nat)
    requires i < |writes|
    ensures writes[i].0 + |writes[i].1| <= Reach(length, writes)
  {
    ReachMonotone(length, writes, i + 1);
    assert writes[..i + 1][i] == writes[i];
  }
}
