/** The utilities' arithmetic against what the allocator really does. */
module FsUtil {
  import opened Words
  import opened BlockTree
  import opened Bitmaps
  import opened Cache
  import opened Volume
  import opened Growth
  import opened Ledger
  import Inodes

  function CeilDiv(n: nat, d: nat): nat
    requires d > 0
  {
    (n + d - 1) / d
  }

  /** The bytes that inode and index blocks take for a file of `size` bytes. The
      source computes the quotients in doubles, which is exact for divisors that
      are powers of two. */
  function GetOverhead(size: nat): nat {
    if size <= DIRECT * SECTOR_SIZE then SECTOR_SIZE
    else if size <= DIRECT * SECTOR_SIZE + FANOUT * SECTOR_SIZE then 2 * SECTOR_SIZE
    else
      var remainder := size - (DIRECT * SECTOR_SIZE + FANOUT * SECTOR_SIZE);
      (3 + CeilDiv(CeilDiv(remainder, SECTOR_SIZE), FANOUT)) * SECTOR_SIZE
  }

  /** The index blocks of a file that needs the doubly indirect block. */
  lemma LargeCost(n: nat)
    requires n > DIRECT + FANOUT
    ensures Cost(n) == n + 2 + CeilDiv(n - DIRECT - FANOUT, FANOUT)
  {
  }

  lemma LargeRemainder(size: nat)
    requires size > DIRECT * SECTOR_SIZE + FANOUT * SECTOR_SIZE
    ensures Sectors(size) > DIRECT + FANOUT
    ensures CeilDiv(size - (DIRECT * SECTOR_SIZE + FANOUT * SECTOR_SIZE), SECTOR_SIZE)
         == Sectors(size) - DIRECT - FANOUT
  {
  }

  /** The closed formula is the allocator's real cost: a file's inode and its tree. */
  lemma OverheadIsCost(size: nat)
    ensures GetOverhead(size) % SECTOR_SIZE == 0
    ensures 1 + Cost(Sectors(size)) == Sectors(size) + GetOverhead(size) / SECTOR_SIZE
  {
    if size > DIRECT * SECTOR_SIZE + FANOUT * SECTOR_SIZE {
      hide Cost, Sectors, CeilDiv;
      LargeRemainder(size);
      LargeCost(Sectors(size));
    } else {
      hide CeilDiv;
    }
  }

  /** A longer file has no fewer index blocks. */
  lemma IndexBlocksMonotone(m: nat, n: nat)
    requires m <= n
    ensures Cost(m) - m <= Cost(n) - n
  {
    if n > DIRECT + FANOUT {
      LargeCost(n);
      if m > DIRECT + FANOUT {
        LargeCost(m);
        hide Cost;
      }
    }
  }

  lemma OverheadMonotone(m: nat, n: nat)
    requires m <= n
    ensures GetOverhead(m) <= GetOverhead(n)
  {
    hide GetOverhead, Cost;
    SectorsMonotone(m, n);
    OverheadIsCost(m);
    OverheadIsCost(n);
    IndexBlocksMonotone(Sectors(m), Sectors(n));
  }

  /** get_write_size as long as it does not fall through to its last switch: how
      much of a buffer to write, given the free space in bytes. */
  function WriteSize(bufsize: nat, freeSpace: nat): int
    requires bufsize >= freeSpace || GetOverhead(bufsize) <= freeSpace - bufsize
  {
    if freeSpace == 1 then 0
    else if bufsize >= freeSpace then freeSpace - GetOverhead(freeSpace)
    else bufsize
  }

  /** What it answers, for any free space: all of the buffer if that fits with its
      overhead, else what the overhead of the whole free space leaves. */
  lemma WriteSizeParts(bufsize: nat, freeSpace: nat)
    requires bufsize >= freeSpace || GetOverhead(bufsize) <= freeSpace - bufsize
    ensures bufsize < freeSpace && freeSpace != 1 ==> WriteSize(bufsize, freeSpace) == bufsize
    ensures bufsize >= freeSpace && freeSpace != 1 ==>
              WriteSize(bufsize, freeSpace) + GetOverhead(freeSpace) == freeSpace
    ensures freeSpace == 1 ==> WriteSize(bufsize, freeSpace) == 0
  {
  }

  /** What it answers always fits: the allocator has room for that many bytes. */
  lemma WriteSizeFits(bufsize: nat, room: nat)
    requires room > 0
    requires bufsize >= room * SECTOR_SIZE || GetOverhead(bufsize) <= room * SECTOR_SIZE - bufsize
    ensures 0 <= WriteSize(bufsize, room * SECTOR_SIZE) <= bufsize
    ensures 1 + Cost(Sectors(WriteSize(bufsize, room * SECTOR_SIZE))) <= room
    ensures if bufsize < room * SECTOR_SIZE then WriteSize(bufsize, room * SECTOR_SIZE) == bufsize
            else Sectors(WriteSize(bufsize, room * SECTOR_SIZE)) + GetOverhead(room * SECTOR_SIZE) / SECTOR_SIZE == room
  {
    var size := WriteSize(bufsize, room * SECTOR_SIZE);
    OverheadLeavesRoom(room);
    OverheadIsCost(size);
    OverheadMonotone(size, room * SECTOR_SIZE);
    OverheadIsCost(room * SECTOR_SIZE);
  }

  lemma OverheadLeavesRoom(room: nat)
    requires room > 0
    ensures GetOverhead(room * SECTOR_SIZE) <= room * SECTOR_SIZE
  {
  }

  /** No larger part of the buffer would fit. */
  ghost predicate Maximal(size: nat, bufsize: nat, room: nat) {
    forall more: nat :: size < more <= bufsize ==> 1 + Cost(Sectors(more)) > room
  }

  /** The answer is the most that fits exactly if all of the buffer is written, or
      one more sector would still need the overhead of the whole free space. */
  lemma WriteSizeMaximalExactly(bufsize: nat, room: nat)
    requires room > 0
    requires bufsize >= room * SECTOR_SIZE || GetOverhead(bufsize) <= room * SECTOR_SIZE - bufsize
    ensures var space := room * SECTOR_SIZE;
            && 0 <= WriteSize(bufsize, space)
            && (Maximal(WriteSize(bufsize, space), bufsize, room) <==>
                bufsize < space || GetOverhead(WriteSize(bufsize, space) + SECTOR_SIZE) == GetOverhead(space))
  {
    hide GetOverhead, Cost;
    OverheadLeavesRoom(room);
    if bufsize >= room * SECTOR_SIZE {
      OverheadIsCost(room * SECTOR_SIZE);
      var parts := GetOverhead(room * SECTOR_SIZE) / SECTOR_SIZE;
      MaximalBeside(room - parts, parts, bufsize, room);
    }
  }

  /** The case in which the buffer does not fit: n sectors are written, o are set aside. */
  lemma MaximalBeside(n: nat, o: nat, bufsize: nat, room: nat)
    requires n + o == room && bufsize >= room * SECTOR_SIZE && GetOverhead(room * SECTOR_SIZE) == o * SECTOR_SIZE
    ensures Maximal(n * SECTOR_SIZE, bufsize, room) <==> GetOverhead((n + 1) * SECTOR_SIZE) == o * SECTOR_SIZE
  {
    hide GetOverhead, Cost, Sectors;
    OverheadOfSectors(n + 1);
    OverheadOfSectors(room);
    OverheadMonotone((n + 1) * SECTOR_SIZE, room * SECTOR_SIZE);
    if GetOverhead((n + 1) * SECTOR_SIZE) == o * SECTOR_SIZE {
      forall more: nat | n * SECTOR_SIZE < more <= bufsize
        ensures 1 + Cost(Sectors(more)) > room
      {
        SectorsAbove(n, more);
        CostMonotone(n + 1, Sectors(more));
      }
    } else {
      var more := (n + 1) * SECTOR_SIZE;
      assert n * SECTOR_SIZE < more <= bufsize && 1 + Cost(Sectors(more)) <= room;
    }
  }

  lemma OverheadOfSectors(n: nat)
    ensures Sectors(n * SECTOR_SIZE) == n <= Cost(n) && GetOverhead(n * SECTOR_SIZE) == (1 + Cost(n) - n) * SECTOR_SIZE
  {
    hide GetOverhead;
    OverheadIsCost(n * SECTOR_SIZE);
  }

  lemma SectorsAbove(n: nat, size: nat)
    requires n * SECTOR_SIZE < size
    ensures n + 1 <= Sectors(size)
  {
  }

  /** It is not always so: with 124 free sectors a file of 123 sectors fits, and
      122 are written. */
  lemma WriteSizeNotMaximal()
    ensures WriteSize(1000000, 124 * SECTOR_SIZE) == 122 * SECTOR_SIZE
    ensures 1 + Cost(Sectors(123 * SECTOR_SIZE)) <= 124
  {
  }

  // ----- Fragmentation -----

  /** fragmentation_degree's test on a file's data sectors: some step is larger than 3. */
  ghost predicate Fragmented(sectors: seq<Word>) {
    exists i :: 0 <= i < |sectors| - 1 && Gap(sectors, i) > 3
  }

  /** The distance as the source computes it, in unsigned and then signed 32 bits. */
  function Gap(sectors: seq<Word>, i: nat): (g: int)
    requires i + 1 < |sectors|
    ensures -0x8000_0000 <= g < 0x8000_0000
    ensures (sectors[i + 1] as int - sectors[i] as int - g) % 0x1_0000_0000 == 0
  {
    var next: int, here: int := sectors[i + 1], sectors[i];
    var distance := (next - here) % 0x1_0000_0000;
    if distance >= 0x8000_0000 then distance - 0x1_0000_0000 else distance
  }

  /** It is the distance, forwards or backwards, between sectors below 2^31. */
  lemma GapIsDistance(sectors: seq<Word>, i: nat)
    requires i + 1 < |sectors|
    requires -0x8000_0000 <= sectors[i + 1] as int - sectors[i] as int < 0x8000_0000
    ensures Gap(sectors, i) == sectors[i + 1] as int - sectors[i] as int
  {
  }

  /** Some sector lies more than 3 behind the one before it. */
  ghost predicate Scattered(sectors: seq<Word>) {
    exists i :: 0 <= i < |sectors| - 1 && sectors[i + 1] as int - sectors[i] as int > 3
  }

  ghost predicate Small(sectors: seq<Word>) {
    forall i :: 0 <= i < |sectors| ==> sectors[i] < 0x8000_0000
  }

  /** Which is what the test finds out; a step backwards does not count. */
  lemma FragmentedIsScattered(sectors: seq<Word>)
    requires Small(sectors)
    ensures Fragmented(sectors) <==> Scattered(sectors)
  {
    hide Gap;
    forall i | 0 <= i < |sectors| - 1
      ensures Gap(sectors, i) == sectors[i + 1] as int - sectors[i] as int
    {
      GapIsDistance(sectors, i);
    }
  }

  /** Sectors that follow each other on the device. */
  ghost predicate Consecutive(s: seq<nat>) {
    forall i :: 0 <= i < |s| ==> s[i] == s[0] + i
  }

  lemma ConsecutiveParts(x: nat, b: seq<Word>, rest: seq<nat>)
    requires Consecutive([x] + b + rest)
    ensures Consecutive(b) && Consecutive(rest)
  {
    var s := [x] + b + rest;
    assert forall i :: 0 <= i < |b| ==> b[i] == s[1 + i];
    assert forall i :: 0 <= i < |rest| ==> rest[i] == s[1 + |b| + i];
  }

  /** A tree laid out in consecutive sectors is not fragmented: index blocks
      interleave with data, but never more than two at a time. */
  lemma ConsecutiveTreeNotFragmented(b: seq<Word>, n: nat)
    requires Consecutive(b) && |b| == Cost(n)
    ensures !Fragmented(DataSectors(b, n))
    ensures forall i :: 0 <= i < n - 1 ==> 1 <= Gap(DataSectors(b, n), i) <= 3
  {
    var d := DataSectors(b, n);
    forall i | 0 <= i < n - 1
      ensures 1 <= Gap(d, i) <= 3
    {
      DataRoleGap(i);
      DataRoleBelowCost(i, n);
      DataRoleBelowCost(i + 1, n);
      GapIsDistance(d, i);
    }
  }

  /** The first step larger than 3, if any, decides. */
  method TestFragmented(sectors: seq<Word>) returns (fragmented: bool)
    requires sectors != []
    ensures fragmented <==> Fragmented(sectors)
    ensures Small(sectors) ==> (fragmented <==> Scattered(sectors))
  {
    hide Small, Scattered;
    if Small(sectors) {
      FragmentedIsScattered(sectors);
    }
    for i := 0 to |sectors| - 1
      invariant forall j :: 0 <= j < i ==> Gap(sectors, j) <= 3
    {
      if Gap(sectors, i) > 3 {
        return true;
      }
    }
    return false;
  }

  ghost function SectorsOf(s: State, ino: nat): seq<Word>
    requires ino in s.files
  {
    DataSectors(s.files[ino].blocks, Sectors(s.files[ino].len))
  }

  /** Files of the given sizes, laid out without a gap. */
  ghost predicate Compact(s: State, inodes: seq<nat>, sizes: seq<nat>) {
    && |inodes| <= |sizes|
    && forall k :: 0 <= k < |inodes| ==>
         inodes[k] in s.files && s.files[inodes[k]].len == sizes[k] && !Fragmented(SectorsOf(s, inodes[k]))
  }

  lemma CompactStays(s0: State, s1: State, ino: nat, inodes: seq<nat>, sizes: seq<nat>)
    requires Compact(s0, inodes, sizes) && |inodes| < |sizes|
    requires ino !in s0.files && ino in s1.files && s1.files == s0.files[ino := s1.files[ino]]
    requires s1.files[ino].len == sizes[|inodes|] && !Fragmented(SectorsOf(s1, ino))
    ensures Compact(s1, inodes + [ino], sizes)
  {
    hide Fragmented;
  }

  /** The layout that defragmenting aims for: on a volume whose free sectors form
      one run, files created one after the other are none of them fragmented. */
  method CreateAll(fs: Inodes.FileSystem, sizes: seq<nat>) returns (inodes: seq<nat>)
    requires fs.Valid() && Consecutive(FreeList(fs.freeMap.bits))
    requires TotalCost(sizes) <= fs.Room() && forall k :: 0 <= k < |sizes| ==> sizes[k] <= MAX_LENGTH
    modifies fs`files, fs`owner, fs.cache, fs.cache.slots, fs.freeMap, fs.freeMap.elems
    ensures fs.Valid() && |inodes| == |sizes| && Compact(fs.S(), inodes, sizes)
    ensures Consecutive(FreeList(fs.freeMap.bits))
  {
    hide Inodes.FileSystem.Valid, FreeFrom, Cost, Sectors, Compact, Consecutive;
    inodes := [];
    CompactNone(fs.S(), sizes);
    for k := 0 to |sizes|
      invariant fs.Valid() && |inodes| == k && Compact(fs.S(), inodes, sizes)
      invariant Consecutive(FreeList(fs.freeMap.bits)) && TotalCost(sizes[k..]) <= fs.Room()
    {
      assert sizes[k..][0] == sizes[k] && sizes[k..][1..] == sizes[k + 1..];
      var ino := CreateNext(fs, sizes, inodes);
      inodes := inodes + [ino];
    }
  }

  method CreateNext(fs: Inodes.FileSystem, sizes: seq<nat>, inodes: seq<nat>) returns (ino: nat)
    requires fs.Valid() && Consecutive(FreeList(fs.freeMap.bits)) && |inodes| < |sizes|
             && Compact(fs.S(), inodes, sizes)
    requires sizes[|inodes|] <= MAX_LENGTH && 1 + Cost(Sectors(sizes[|inodes|])) <= fs.Room()
    modifies fs`files, fs`owner, fs.cache, fs.cache.slots, fs.freeMap, fs.freeMap.elems
    ensures fs.Valid() && Consecutive(FreeList(fs.freeMap.bits)) && Compact(fs.S(), inodes + [ino], sizes)
    ensures fs.Room() == old(fs.Room()) - 1 - Cost(Sectors(sizes[|inodes|]))
  {
    hide BufferCache.Valid, Bitmap.Valid, Sound, Content, Contents, FreeFrom, OthersKept, Cost, Sectors, SectorsOf,
      Fragmented, Compact, Consecutive;
    ghost var s0 := fs.S();
    ino := fs.Create(sizes[|inodes|], false);
    CreatedCompact(s0, fs.S(), ino);
    CompactStays(s0, fs.S(), ino, inodes, sizes);
  }

  lemma CompactNone(s: State, sizes: seq<nat>)
    ensures Compact(s, [], sizes)
  {
  }

  /** Sectors that creating files of these sizes takes. */
  function TotalCost(sizes: seq<nat>): nat {
    if sizes == [] then 0 else 1 + Cost(Sectors(sizes[0])) + TotalCost(sizes[1..])
  }

  lemma CreatedCompact(s0: State, s1: State, ino: Word)
    requires Sound(s1) && ino in s1.files && Consecutive(FreeList(s0.bits))
    requires FreeList(s0.bits) == [ino] + s1.files[ino].blocks + FreeList(s1.bits)
    ensures !Fragmented(SectorsOf(s1, ino)) && Consecutive(FreeList(s1.bits))
    ensures |FreeList(s1.bits)| == |FreeList(s0.bits)| - 1 - Cost(Sectors(s1.files[ino].len))
  {
    hide FreeFrom, Placed, Persisted, Fragmented, Consecutive, DataSectors;
    SoundFile(s1, ino);
    ConsecutiveParts(ino, s1.files[ino].blocks, FreeList(s1.bits));
    ConsecutiveTreeNotFragmented(s1.files[ino].blocks, Sectors(s1.files[ino].len));
  }
}
