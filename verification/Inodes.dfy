/** Inodes and the free map, over the buffer cache. */
module Inodes {
  import opened Words
  import opened Cache
  import opened BlockTree
  import opened Bitmaps
  import opened Volume
  import opened Growth
  import opened FileData
  import opened Ledger

  const FREE_MAP_SECTOR: nat := 0
  const NO_SECTOR: Word := 0xFFFF_FFFF

  /** An open inode: where it lives and the in-memory copy of its on-disk form. */
  class Inode {
    const sector: nat
    var data: Words

    constructor (sector: nat, data: Words)
      ensures this.sector == sector && this.data == data
    {
      this.sector := sector;
      this.data := data;
    }
  }

  class FileSystem {
    const cache: BufferCache
    const freeMap: Bitmap
    var freeMapInode: Inode?       // null until the free-map file has been opened

    ghost var files: map<nat, FileRec>
    ghost var owner: map<nat, Tag>

    ghost function S(): State
      reads this, cache, freeMap
    {
      State(cache.view, freeMap.bits, files, owner)
    }

    /** The in-memory inode agrees with a file that the disk holds. */
    ghost predicate Open(inode: Inode)
      reads this, cache, inode
    {
      && inode.sector in files
      && inode.data == InodeWords(files[inode.sector])
      && FileOk(cache.view, inode.sector, files[inode.sector])
    }

    /** Enough to read files: the cache works and every file's sectors are on the device. */
    ghost predicate Readable()
      reads this, cache, cache.slots, freeMap
    {
      cache.Valid() && |freeMap.bits| < |cache.view| && Placed(S())
    }

    ghost predicate Sane()
      reads this, cache, cache.slots, freeMap, freeMap.elems, freeMapInode
    {
      && cache.Valid() && freeMap.Valid() && (cache.slots as object) != freeMap.elems
      && freeMap.bitCnt == |freeMap.bits| == |cache.view| - 1 && 2 <= |freeMap.bits| < BITMAP_ERROR
      && Accounted(S())
      && (freeMapInode != null ==>
            freeMapInode.sector == FREE_MAP_SECTOR && Open(freeMapInode) && files[0].len == FileSize(|freeMap.bits|))
    }

    /** The free map on disk, once there is one, is the free map in memory. */
    ghost predicate Synced()
      reads this, cache, freeMap
    {
      freeMapInode != null ==> Persisted(S())
    }

    /** A mounted volume between operations. */
    ghost predicate Valid()
      reads this, cache, cache.slots, freeMap, freeMap.elems, freeMapInode
    {
      Sane() && freeMapInode != null && Sound(S())
    }

    /** Sectors that num_free_sectors would report. */
    ghost function Room(): nat
      reads freeMap
    {
      |FreeList(freeMap.bits)|
    }

    /** Mounting: sectors 0 and 1 are set aside for the free map's and the root
        directory's inodes, and the last sector of the device is never used. */
    constructor (device: seq<Sector>)
      requires 2 < |device| <= BITMAP_ERROR
      ensures Sane() && freeMapInode == null
      ensures fresh(cache) && fresh(cache.slots) && fresh(freeMap) && fresh(freeMap.elems)
      ensures cache.view == device && |freeMap.bits| == |device| - 1
      ensures files == map[] && owner == map[0 := Node(0), 1 := Node(1)]
    {
      hide BufferCache.Valid, Bitmap.Valid, Placed;
      cache := new BufferCache(device);
      freeMap := new Bitmap(|device| - 1);
      freeMapInode := null;
      files := map[];
      owner := map[0 := Node(0), 1 := Node(1)];
      new;
      freeMap.Mark(0);
      freeMap.Mark(1);
      NewVolumeAccounted(S());
    }

    // ----- Reading the tree -----

    /** The sector with the index-th data block, found by walking the tree; 0 if it is
        missing. */
    method IndexToSector(ghost f: nat, data: Words, index: nat) returns (sector: Word)
      requires Readable() && f in files && data == InodeWords(files[f]) && FileOk(cache.view, f, files[f])
      requires index < MAX_SECTORS ==> HasPath(files[f].blocks, index)
      modifies cache, cache.slots
      ensures Readable() && cache.view == old(cache.view)
      ensures sector == if index < MAX_SECTORS then At(files[f].blocks, DataRole(index)) else NO_SECTOR
    {
      hide BufferCache.Valid, Bitmap.Valid, Placed, InodeWords, Table, Pack, Open, Stored, ByteAt;
      if index < DIRECT {
        WalkDirect(files[f], index);
        return data[index];
      }
      if index < DIRECT + FANOUT {
        WalkIndirect(files[f], index);
        StoredAt(cache.view, files[f].blocks, {}, INDIRECT);
        InRange(S(), f, INDIRECT);
        var table := ReadTable(files[f].blocks, INDIRECT, data[INDIRECT]);
        return table[index - DIRECT];
      }
      if index < DIRECT + FANOUT + FANOUT * FANOUT {
        WalkDoubly(files[f], index);
        StoredAt(cache.view, files[f].blocks, {}, DOUBLY);
        StoredAt(cache.view, files[f].blocks, {}, Child(DOUBLY, (index - DIRECT - FANOUT) / FANOUT));
        var first, second := (index - DIRECT - FANOUT) / FANOUT, (index - DIRECT - FANOUT) % FANOUT;
        InRange(S(), f, DOUBLY);
        InRange(S(), f, Child(DOUBLY, first));
        var table := ReadTable(files[f].blocks, DOUBLY, data[DOUBLY_SLOT]);
        table := ReadTable(files[f].blocks, Child(DOUBLY, first), table[first]);
        return table[second];
      }
      return NO_SECTOR;
    }

    /** Reads an index block of a tree. */
    method ReadTable(ghost b: seq<Word>, ghost p: nat, sector: Word) returns (table: Words)
      requires Readable() && sector < |freeMap.bits| && Sec(cache.view, sector) == Pack(Table(b, p))
      modifies cache, cache.slots
      ensures Readable() && cache.view == old(cache.view)
      ensures table == Table(b, p)
    {
      hide Turned, Lazy, ClockOf, BufferCache.Valid, Bitmap.Valid, Placed, Pack, Unpack, FileOk, Table;
      var s := cache.Read(sector);
      table := Unpack(s);
      UnpackPack(Table(b, p));
    }

    /** The sector that holds byte pos of the file, or NO_SECTOR outside the file. */
    method ByteToSector(inode: Inode, pos: int) returns (sector: Word)
      requires Readable() && Open(inode)
      modifies cache, cache.slots
      ensures Readable() && Open(inode) && cache.view == old(cache.view)
      ensures sector == if 0 <= pos < files[inode.sector].len
                        then At(files[inode.sector].blocks, DataRole(pos / SECTOR_SIZE)) else NO_SECTOR
    {
      hide BufferCache.Valid, Bitmap.Valid, Placed, FileOk, Sectors;
      assert inode.data[LENGTH_SLOT] == files[inode.sector].len;
      if 0 <= pos < inode.data[LENGTH_SLOT] {
        InFile(cache.view, inode.sector, files[inode.sector], pos);
        sector := IndexToSector(inode.sector, inode.data, pos / SECTOR_SIZE);
      } else {
        sector := NO_SECTOR;
      }
    }

    /** Reads the part of [offset, offset + size) that lies inside the file, sector by sector. */
    method ReadAt(inode: Inode, size: nat, offset: nat) returns (buffer: seq<byte>)
      requires Readable() && Open(inode)
      modifies cache, cache.slots
      ensures Readable() && Open(inode) && cache.view == old(cache.view)
      ensures buffer == Slice(Content(cache.view, files[inode.sector]), offset, size)
      ensures |buffer| == if offset >= files[inode.sector].len then 0 else Min(size, files[inode.sector].len - offset)
      ensures forall k :: 0 <= k < |buffer| ==> buffer[k] == Content(cache.view, files[inode.sector])[offset + k]
    {
      hide BufferCache.Valid, Bitmap.Valid, Placed, Pack, FileOk, InodeWords, Content, Slice;
      ghost var content := Content(cache.view, files[inode.sector]);
      var length := Length(inode);
      buffer := [];
      SliceMeans(content, offset, 0);
      SliceMeans(content, offset, size);
      while |buffer| < size && offset + |buffer| < length
        invariant Readable() && Open(inode) && cache.view == old(cache.view)
        invariant |buffer| <= size && (|buffer| == 0 || offset + |buffer| <= length)
        invariant buffer == Slice(content, offset, |buffer|)
      {
        var at := offset + |buffer|;
        var chunk := Min(size - |buffer|, Min(length - at, SECTOR_SIZE - at % SECTOR_SIZE));
        var bytes := ReadChunk(inode, at, chunk);
        SliceGrows(content, offset, |buffer|, chunk);
        buffer := buffer + bytes;
      }
      SliceEnds(content, offset, |buffer|, size);
    }

    method Length(inode: Inode) returns (length: nat)
      requires Open(inode)
      ensures length == files[inode.sector].len
    {
      length := inode.data[LENGTH_SLOT];
    }

    method ReadChunk(inode: Inode, at: nat, chunk: nat) returns (bytes: seq<byte>)
      requires Readable() && Open(inode) && at + chunk <= files[inode.sector].len
      requires 0 < chunk <= SECTOR_SIZE - at % SECTOR_SIZE
      modifies cache, cache.slots
      ensures Readable() && Open(inode) && cache.view == old(cache.view)
      ensures bytes == Content(cache.view, files[inode.sector])[at..at + chunk]
    {
      hide Turned, Lazy, ClockOf, BufferCache.Valid, Bitmap.Valid, Placed, InodeWords, FileOk;
      var sector := ByteToSector(inode, at);
      InFile(cache.view, inode.sector, files[inode.sector], at);
      InRange(S(), inode.sector, DataRole(at / SECTOR_SIZE));
      var bounce := cache.Read(sector);
      bytes := bounce[at % SECTOR_SIZE..at % SECTOR_SIZE + chunk];
      ChunkOfContent(cache.view, files[inode.sector], at, chunk);
    }

    /** Lists the sectors of a file's data, region by region. */
    method GetDataSectors(inode: Inode) returns (sectors: seq<Word>)
      requires Readable() && Open(inode)
      modifies cache, cache.slots
      ensures Readable() && Open(inode) && cache.view == old(cache.view)
      ensures sectors == DataSectors(files[inode.sector].blocks, Sectors(files[inode.sector].len))
    {
      hide BufferCache.Valid, Bitmap.Valid, Placed, FileOk, InodeWords, Pack, Table, Stored;
      ghost var f := inode.sector;
      FileOkFacts(cache.view, f, files[f]);
      InodePointers(files[f]);
      ghost var n := Sectors(files[f].len);
      CostParts(n);
      var num: nat := Sectors(inode.data[LENGTH_SLOT]);
      var l := Min(num, DIRECT);
      sectors := [];
      for i := 0 to l
        invariant Readable() && Open(inode) && cache.view == old(cache.view)
        invariant sectors == DataSectors(files[f].blocks, i)
      {
        WalkDirect(files[f], i);
        sectors := sectors + [inode.data[i]];
      }
      num := num - l;
      l := Min(num, FANOUT);
      if l > 0 {
        sectors := ListLeaf(f, INDIRECT, inode.data[INDIRECT], DIRECT, l, sectors);
        num := num - l;
      }
      l := Min(num, FANOUT * FANOUT);
      if l > 0 {
        sectors := ListDoubly(f, inode.data[DOUBLY_SLOT], l, sectors);
        num := num - l;
      }
      assert num == 0;
    }

    /** Appends the first l pointers of leaf index block p. */
    method ListLeaf(ghost f: nat, ghost p: nat, sector: Word, ghost base: nat, l: nat, found: seq<Word>)
      returns (sectors: seq<Word>)
      requires Readable() && f in files && Stored(cache.view, files[f].blocks, {})
      requires p < |files[f].blocks| && IsIndex(p) && sector == files[f].blocks[p] && l <= FANOUT
      requires forall i :: 0 <= i < l ==> DataRole(base + i) == Child(p, i)
      requires found == DataSectors(files[f].blocks, base)
      modifies cache, cache.slots
      ensures Readable() && cache.view == old(cache.view)
      ensures sectors == DataSectors(files[f].blocks, base + l)
    {
      hide BufferCache.Valid, Bitmap.Valid, Placed, Pack, Stored, DataRole;
      StoredAt(cache.view, files[f].blocks, {}, p);
      InRange(S(), f, p);
      var table := ReadTable(files[f].blocks, p, sector);
      sectors := found;
      for i := 0 to l
        invariant Readable() && cache.view == old(cache.view)
        invariant sectors == DataSectors(files[f].blocks, base + i)
      {
        TableEntry(files[f].blocks, p, i);
        sectors := sectors + [table[i]];
      }
    }

    /** Appends the data sectors below the doubly indirect block. */
    method ListDoubly(ghost f: nat, sector: Word, l: nat, found: seq<Word>) returns (sectors: seq<Word>)
      requires Readable() && f in files && Stored(cache.view, files[f].blocks, {})
      requires 0 < l <= FANOUT * FANOUT && DOUBLY + Span(l, 2) <= |files[f].blocks| && sector == files[f].blocks[DOUBLY]
      requires found == DataSectors(files[f].blocks, DIRECT + FANOUT)
      modifies cache, cache.slots
      ensures Readable() && cache.view == old(cache.view)
      ensures sectors == DataSectors(files[f].blocks, DIRECT + FANOUT + l)
    {
      hide BufferCache.Valid, Bitmap.Valid, Placed, Pack, Stored, DataSectors, Table;
      StoredAt(cache.view, files[f].blocks, {}, DOUBLY);
      InRange(S(), f, DOUBLY);
      var table := ReadTable(files[f].blocks, DOUBLY, sector);
      sectors := found;
      var left: nat, i: nat := l, 0;
      while i < (l + FANOUT - 1) / FANOUT
        invariant Readable() && cache.view == old(cache.view)
        invariant left <= l && if left > 0 then FANOUT * i == l - left else l <= FANOUT * i
        invariant sectors == DataSectors(files[f].blocks, DIRECT + FANOUT + l - left)
      {
        var sub := Min(left, FANOUT);
        ghost var base := DIRECT + FANOUT + FANOUT * i;
        TableEntry(files[f].blocks, DOUBLY, i);
        forall j | 0 <= j < sub
          ensures DataRole(base + j) == Child(Child(DOUBLY, i), j)
        {
          LeafRoles(Child(DOUBLY, i), base, j);
        }
        sectors := ListLeaf(f, Child(DOUBLY, i), table[i], base, sub, sectors);
        left := left - sub;
        i := i + 1;
      }
      assert left == 0;
    }

    // ----- Writing inside a file -----

    /** Writes one chunk, which lies in one sector. */
    method WriteChunk(inode: Inode, data: seq<byte>, offset: nat, n: nat, chunk: nat)
      requires Sane() && Open(inode) && offset + |data| <= files[inode.sector].len
      requires 0 < chunk <= SECTOR_SIZE - (offset + n) % SECTOR_SIZE && n + chunk <= |data|
      modifies cache, cache.slots
      ensures cache.Valid() && ChunkFits(old(S()), inode.sector, offset, data, n, chunk)
      ensures S() == ChunkState(old(S()), inode.sector, offset, data, n, chunk)
    {
      hide Turned, Lazy, ClockOf, BufferCache.Valid, Bitmap.Valid, Placed, InodeWords, FileOk;
      var at := (offset + n) % SECTOR_SIZE;
      var sector := ByteToSector(inode, offset + n);
      InFile(cache.view, inode.sector, files[inode.sector], offset + n);
      InRange(S(), inode.sector, DataRole((offset + n) / SECTOR_SIZE));
      if at == 0 && chunk == SECTOR_SIZE {
        PatchWhole(cache.view[sector], data[n..n + chunk]);
        cache.Write(sector, data[n..n + chunk]);
      } else {
        // Here the sector has bytes before or after the chunk, so it is read first.
        var bounce := cache.Read(sector);
        cache.Write(sector, Patch(bounce, at, data[n..n + chunk]));
      }
    }

    /** The sector loop of inode_write_at, once the file is long enough. */
    method WriteInside(inode: Inode, data: seq<byte>, offset: nat) returns (n: nat)
      requires Sane() && Open(inode) && offset + |data| <= files[inode.sector].len
      modifies cache, cache.slots
      ensures Sane() && Open(inode) && n == |data|
      ensures S() == old(S()).(view := cache.view)
      ensures Written(old(cache.view), S(), inode.sector, offset, data, |data|)
    {
      hide BufferCache.Valid, Bitmap.Valid, Placed, FileOk, InodeWords, Content, ByteAt, ChunkFits, ChunkState;
      var length := Length(inode);
      n := 0;
      while n < |data|
        invariant n <= |data|
        invariant Sane() && Open(inode) && S() == old(S()).(view := cache.view)
        invariant Written(old(cache.view), S(), inode.sector, offset, data, n)
      {
        var chunk := Min(|data| - n, Min(length - (offset + n), SECTOR_SIZE - (offset + n) % SECTOR_SIZE));
        ghost var before := S();
        WriteChunk(inode, data, offset, n, chunk);
        WrittenChunk(old(cache.view), before, inode.sector, offset, data, n, chunk);
        n := n + chunk;
        WrittenKeepsFile(old(cache.view), S(), inode.sector, offset, data, n);
        if freeMapInode != null && inode.sector != 0 {
          WrittenKeepsOthers(old(cache.view), S(), inode.sector, offset, data, n, 0);
        }
      }
    }

    // ----- Allocation, growth and writing: one recursion -----
    //
    // A write past the end reserves sectors; reserving allocates; allocating
    // writes the free map back to its file. The recursion ends there, because
    // the free-map file always has its full length and so is never extended:
    // the first component of the decreases clauses is 2 for a write that
    // extends, 1 for allocation, and 0 for a write that does not extend.

    /** Takes the first free sector and persists the free map; fails, without a change,
        exactly if there is none. */
    method Allocate(ghost g: Grantee) returns (ok: bool, sector: Word)
      requires Sane()
      requires g.ToFile? ==> g.ino in files && (g.ino != 0 || freeMapInode == null)
      modifies cache, cache.slots, freeMap, freeMap.elems, `files, `owner
      ensures Sane() && (ok <==> FreeList(old(freeMap.bits)) != []) && (!ok ==> S() == old(S()))
      ensures ok ==> Synced() && FirstFree(old(freeMap.bits), sector)
      ensures ok ==> S() == Grant(old(S()), g, sector).(view := cache.view) && |cache.view| == old(|cache.view|)
      ensures ok ==> forall y: nat :: freeMapInode == null || !IsDataOf(owner, 0, y) ==>
                Sec(cache.view, y) == Sec(old(cache.view), y)
      decreases 1, 0, 0
    {
      hide BufferCache.Valid, Bitmap.Valid, Placed, FileOk, InodeWords, Content, ByteAt, Sec, BitsOf, FreeFrom;
      ghost var s0 := S();
      ok, sector := TakeFirst();
      if ok {
        GrantKeepsAccounts(s0, g, sector);
        files := Grant(s0, g, sector).files;
        owner := Grant(s0, g, sector).owner;
        if freeMapInode != null {
          Persist();
        }
      }
    }

    /** Flips the first free bit. */
    method TakeFirst() returns (ok: bool, sector: Word)
      requires freeMap.Valid()
      modifies freeMap`bits, freeMap.elems
      ensures freeMap.Valid() && (ok <==> FreeList(old(freeMap.bits)) != [])
      ensures ok ==> FirstFree(old(freeMap.bits), sector) && freeMap.bits == old(freeMap.bits)[sector := true]
      ensures !ok ==> freeMap.bits == old(freeMap.bits)
    {
      hide Spells, RunOf, SetRange, CountFrom, FreeFrom;
      ghost var bits := freeMap.bits;
      var idx := freeMap.ScanAndFlip(0, 1, false);
      FirstRunIsFirstFree(bits, idx);
      ok := idx != BITMAP_ERROR;
      sector := if ok then idx else 0;
    }

    /** Writes the free map to its file, in place. */
    method Persist()
      requires Sane() && freeMapInode != null
      modifies cache, cache.slots, freeMap, freeMap.elems, `files, `owner
      ensures Sane() && Persisted(S())
      ensures S() == old(S()).(view := cache.view) && |cache.view| == old(|cache.view|)
      ensures forall y: nat :: !IsDataOf(owner, 0, y) ==> Sec(cache.view, y) == Sec(old(cache.view), y)
      decreases 0, 1, 0
    {
      hide BufferCache.Valid, Bitmap.Valid, Placed, FileOk, InodeWords, ByteAt, Sec, BitsOf;
      FileOkFacts(cache.view, 0, files[0]);
      InodeInRange(S(), 0);
      var image := freeMap.Dump();
      SpliceWhole(Content(cache.view, files[0]), image);
      var n := WriteAt(freeMapInode, image, 0);
      assert n == |image|;
    }

    /** Takes a sector for f, zeroes it and appends it to f's tree. */
    method AllocateZeroed(ghost f: nat, ghost skip: set<nat>) returns (sector: Word)
      requires Sane() && FreeList(freeMap.bits) != []
      requires f in files && (f != 0 || freeMapInode == null)
      requires Stored(cache.view, files[f].blocks, skip) && ParentSkipped(|files[f].blocks|, skip)
      modifies cache, cache.slots, freeMap, freeMap.elems, `files, `owner
      ensures Sane() && Synced() && Grown(f, old(S()), S())
      ensures files[f].blocks == old(files[f].blocks) + [sector] && sector != 0
      ensures Stored(cache.view, files[f].blocks, skip)
      decreases 1, 1, 0
    {
      hide BufferCache.Valid, Bitmap.Valid, Placed, FileOk, InodeWords, Content, ByteAt, BitsOf, Stored, Grown,
        FreeList, ParentSkipped;
      ghost var s0 := S();
      var ok;
      ok, sector := Allocate(ToFile(f));
      ghost var s1 := S();
      InRange(s1, f, |files[f].blocks| - 1);
      Zero(f, sector);
      AfterZeroing(s0, s1, f, sector, freeMapInode == null);
      GrantedZeroGrows(f, s0, S(), sector, freeMapInode == null);
      StoredAfterPush(s0.view, cache.view, s0.files[f].blocks, sector, skip);
    }

    /** Fills a sector of f with zeros. */
    method Zero(ghost f: nat, sector: Word)
      requires Sane() && Synced() && f in files && (f != 0 || freeMapInode == null)
      requires files[f].blocks != [] && sector == files[f].blocks[|files[f].blocks| - 1]
      modifies cache, cache.slots
      ensures Sane() && Synced() && sector < |cache.view|
      ensures S() == old(S()).(view := old(cache.view)[sector := ZERO_SECTOR])
    {
      hide Turned, Lazy, ClockOf, BufferCache.Valid, Bitmap.Valid, Placed, FileOk, InodeWords, Content, ByteAt, BitsOf;
      ghost var s0 := S();
      InRange(s0, f, |files[f].blocks| - 1);
      cache.Write(sector, ZERO_SECTOR);
      AccountsIgnoreView(s0, cache.view);
      if freeMapInode != null {
        RewriteKeepsFile(s0, f, |files[f].blocks| - 1, ZERO_SECTOR, 0);
      }
    }

    /** Makes sure the subtree at role p has the sectors for num data blocks,
        allocating those it lacks; entry is the pointer to it, zero if there is none. */
    method ReserveIndirect(ghost f: nat, ghost p: nat, entry: Word, num: nat, level: nat, ghost skip: set<nat>)
      returns (entry': Word)
      requires Sane() && Synced() && f in files && (f != 0 || freeMapInode == null)
      requires level <= 2 && RootAt(p, level) && 0 < num <= Capacity(level) && AboveSkipped(p, level, skip)
      requires p <= |files[f].blocks| && entry == At(files[f].blocks, p)
      requires Stored(cache.view, files[f].blocks, skip)
      requires p + Span(num, level) <= |files[f].blocks| + |FreeList(freeMap.bits)|
      modifies cache, cache.slots, freeMap, freeMap.elems, `files, `owner
      ensures Sane() && Synced() && Grown(f, old(S()), S())
      ensures Stored(cache.view, files[f].blocks, skip)
      ensures |files[f].blocks| == Max(|old(files[f].blocks)|, p + Span(num, level))
      ensures entry' == At(files[f].blocks, p)
      decreases 1, level + 2, 2
    {
      hide BufferCache.Valid, Bitmap.Valid, Placed, FileOk, InodeWords, BitsOf, Stored, FreeFrom, ParentSkipped, Pack,
        Grown, Table, Span, RootAt, AboveSkipped, Capacity, IsIndex;
      RootFacts(p, num, level, skip);
      ghost var s0 := S();
      entry' := entry;
      GrownRefl(f, s0);
      EntryIsZeroIfMissing(s0, f, p);
      if entry == 0 {
        AboveSkippedParent(p, level, skip);
        entry' := AllocateZeroed(f, skip);
      }
      if level == 0 {
        return;
      }
      ghost var s1 := S();
      GrownRoom(f, s0, s1);
      StoredAt(cache.view, files[f].blocks, skip, p);
      InRange(s1, f, p);
      var table := ReadTable(files[f].blocks, p, entry');
      table := FillTable(f, p, table, num, level, skip);
      ghost var s2 := S();
      GrownTrans(f, s0, s1, s2);
      GrownRoom(f, s1, s2);
      StoreTable(f, p, entry', table, skip);
      GrownTrans(f, s0, s2, S());
    }

    /** Reserves below every pointer of the in-memory index block p that num data blocks need. */
    method FillTable(ghost f: nat, ghost p: nat, table: Words, num: nat, level: nat, ghost skip: set<nat>)
      returns (table': Words)
      requires Sane() && Synced() && f in files && (f != 0 || freeMapInode == null)
      requires 1 <= level <= 2 && RootAt(p, level) && 0 < num <= Capacity(level) && AboveSkipped(p, level, skip)
      requires p < |files[f].blocks| && table == Table(files[f].blocks, p)
      requires Stored(cache.view, files[f].blocks, skip)
      requires p + Span(num, level) <= |files[f].blocks| + |FreeList(freeMap.bits)|
      modifies cache, cache.slots, freeMap, freeMap.elems, `files, `owner
      ensures Sane() && Synced() && Grown(f, old(S()), S())
      ensures Stored(cache.view, files[f].blocks, skip + {p})
      ensures |files[f].blocks| == Max(|old(files[f].blocks)|, p + Span(num, level))
      ensures table' == Table(files[f].blocks, p)
      decreases 1, level + 2, 1
    {
      hide BufferCache.Valid, Bitmap.Valid, Placed, FileOk, InodeWords, BitsOf, Stored, FreeFrom, Table, RootAt,
        AboveSkipped, IsIndex, Grown, Span, Capacity, Before, Child, Rounds;
      ghost var s0 := S();
      GrownRefl(f, s0);
      StoredSkipMore(cache.view, files[f].blocks, skip, p);
      var unit := Capacity(level - 1);
      var left: nat, i: nat := num, 0;
      table' := table;
      FirstChild(p, level);
      RoundsBefore(num, 0, level);
      while i < Rounds(num, level)
        invariant left <= num && if left > 0 then Before(i, level) == num - left else num <= Before(i, level)
        invariant left == 0 <==> Rounds(num, level) <= i
        invariant f in files && Sane() && Synced() && Grown(f, s0, S())
        invariant Stored(cache.view, files[f].blocks, skip + {p}) && table' == Table(files[f].blocks, p)
        invariant |files[f].blocks| == Max(|s0.files[f].blocks|, p + Span(num - left, level))
      {
        var sub := Min(left, unit);
        ghost var s1 := S();
        GrownRoom(f, s0, s1);
        ChildStart(p, i, sub, level);
        SpanMonotone(num - left + sub, num, level);
        table' := FillChild(f, p, i, table', sub, level, skip);
        GrownTrans(f, s0, s1, S());
        GrownRoom(f, s0, S());
        left := left - sub;
        i := i + 1;
        RoundsBefore(num, i, level);
      }
      assert left == 0;
    }

    /** Reserves below pointer i of the in-memory index block p. */
    method FillChild(ghost f: nat, ghost p: nat, i: nat, table: Words, sub: nat, level: nat, ghost skip: set<nat>)
      returns (table': Words)
      requires Sane() && Synced() && f in files && (f != 0 || freeMapInode == null)
      requires 1 <= level <= 2 && RootAt(p, level) && 0 < sub <= Capacity(level - 1) && AboveSkipped(p, level, skip)
      requires i < FANOUT && Child(p, i) <= |files[f].blocks| && table == Table(files[f].blocks, p)
      requires Stored(cache.view, files[f].blocks, skip + {p})
      requires Child(p, i) + Span(sub, level - 1) <= |files[f].blocks| + |FreeList(freeMap.bits)|
      requires Child(p, i) + Span(sub, level - 1) <= Child(p, i + 1)
      modifies cache, cache.slots, freeMap, freeMap.elems, `files, `owner
      ensures Sane() && Synced() && Grown(f, old(S()), S())
      ensures Stored(cache.view, files[f].blocks, skip + {p})
      ensures |files[f].blocks| == Max(|old(files[f].blocks)|, Child(p, i) + Span(sub, level - 1))
      ensures table' == Table(files[f].blocks, p)
      decreases 1, level + 2, 0
    {
      hide BufferCache.Valid, Bitmap.Valid, Placed, FileOk, InodeWords, BitsOf, Stored, FreeFrom, RootAt, AboveSkipped;
      ghost var b := files[f].blocks;
      AboveSkippedChild(p, i, level, skip);
      var entry := ReserveIndirect(f, Child(p, i), table[i], sub, level - 1, skip + {p});
      TableAfterChild(b, files[f].blocks, p, i);
      table' := table[i := entry];
    }

    /** Writes an index block of f back. */
    method StoreTable(ghost f: nat, ghost p: nat, sector: Word, table: Words, ghost skip: set<nat>)
      requires Sane() && Synced() && f in files && (f != 0 || freeMapInode == null)
      requires p < |files[f].blocks| && IsIndex(p) && sector == files[f].blocks[p] && table == Table(files[f].blocks, p)
      requires Stored(cache.view, files[f].blocks, skip + {p})
      modifies cache, cache.slots
      ensures Sane() && Synced() && Grown(f, old(S()), S())
      ensures files == old(files) && Stored(cache.view, files[f].blocks, skip)
    {
      hide Turned, Lazy, ClockOf, BufferCache.Valid, Bitmap.Valid, Placed, FileOk, InodeWords, BitsOf, FreeFrom, Pack,
        Content, Table;
      ghost var s0 := S();
      InRange(s0, f, p);
      cache.Write(sector, Pack(table));
      IndexRewriteGrows(f, s0, p, Pack(table));
      AccountsIgnoreView(s0, cache.view);
      if freeMapInode != null {
        RewriteKeepsFile(s0, f, p, Pack(table), 0);
      }
      forall q | 0 <= q < |files[f].blocks| && q != p
        ensures files[f].blocks[q] != sector
      {
        RolesDistinct(s0, f, if q < p then q else p, if q < p then p else q);
      }
    }

    /** Grows a file's tree, in memory and on disk, until it fits length bytes. */
    method Reserve(ghost f: nat, data: Words, length: nat) returns (words: Words)
      requires Sane() && Synced() && f in files && (f != 0 || freeMapInode == null)
      requires data == InodeWords(files[f]) && Stored(cache.view, files[f].blocks, {})
      requires length <= MAX_LENGTH && |files[f].blocks| <= Cost(Sectors(length))
      requires Cost(Sectors(length)) <= |files[f].blocks| + |FreeList(freeMap.bits)|
      modifies cache, cache.slots, freeMap, freeMap.elems, `files, `owner
      ensures Sane() && Synced() && Grown(f, old(S()), S())
      ensures words == InodeWords(files[f]) && Stored(cache.view, files[f].blocks, {})
      ensures |files[f].blocks| == Cost(Sectors(length))
      decreases 1, 9, 0
    {
      hide BufferCache.Valid, Bitmap.Valid, Placed, FileOk, InodeWords, BitsOf, Stored, FreeFrom, Grown, Cost;
      ghost var s0 := S();
      var num: nat := Sectors(length);
      CostParts(num);
      words := ReserveDirect(f, data, Min(num, DIRECT));
      num := num - Min(num, DIRECT);
      if num == 0 {
        return;
      }
      ghost var s1 := S();
      GrownRoom(f, s0, s1);
      words := ReserveSubtree(f, words, INDIRECT, INDIRECT, Min(num, FANOUT), 1);
      GrownTrans(f, s0, s1, S());
      num := num - Min(num, FANOUT);
      if num == 0 {
        return;
      }
      ghost var s2 := S();
      GrownRoom(f, s0, s2);
      words := ReserveSubtree(f, words, DOUBLY, DOUBLY_SLOT, Min(num, FANOUT * FANOUT), 2);
      GrownTrans(f, s0, s2, S());
      num := num - Min(num, FANOUT * FANOUT);
      assert num == 0;
    }

    /** Reserves the first num direct blocks. */
    method ReserveDirect(ghost f: nat, data: Words, num: nat) returns (words: Words)
      requires Sane() && Synced() && f in files && (f != 0 || freeMapInode == null)
      requires data == InodeWords(files[f]) && Stored(cache.view, files[f].blocks, {})
      requires num <= DIRECT && num <= |files[f].blocks| + |FreeList(freeMap.bits)|
      modifies cache, cache.slots, freeMap, freeMap.elems, `files, `owner
      ensures Sane() && Synced() && Grown(f, old(S()), S()) && f in files
      ensures words == InodeWords(files[f]) && Stored(cache.view, files[f].blocks, {})
      ensures |files[f].blocks| == Max(|old(files[f].blocks)|, num)
      decreases 1, 8, 0
    {
      hide BufferCache.Valid, Bitmap.Valid, Placed, FileOk, BitsOf, Stored, FreeFrom, Grown, ParentSkipped;
      ghost var s0 := S();
      GrownRefl(f, s0);
      words := data;
      for i := 0 to num
        invariant f in files && Sane() && Synced() && Grown(f, s0, S())
        invariant words == InodeWords(files[f]) && Stored(cache.view, files[f].blocks, {})
        invariant |files[f].blocks| == Max(|s0.files[f].blocks|, i)
      {
        ghost var s1 := S();
        EntryIsZeroIfMissing(s1, f, i);
        if words[i] == 0 {
          GrownRoom(f, s0, s1);
          InodeParent(i);
          var sector := AllocateZeroed(f, {});
          InodeWordsAfterPush(s1.files[f], sector);
          GrownRoom(f, s1, S());
          GrownTrans(f, s0, s1, S());
          words := words[i := sector];
        }
      }
    }

    /** Reserves below one of the inode's two index pointers. */
    method ReserveSubtree(ghost f: nat, data: Words, ghost p: nat, slot: nat, num: nat, level: nat)
      returns (words: Words)
      requires Sane() && Synced() && f in files && (f != 0 || freeMapInode == null)
      requires data == InodeWords(files[f]) && Stored(cache.view, files[f].blocks, {})
      requires 0 < num <= Capacity(level)
      requires if level == 1 then p == slot == INDIRECT else level == 2 && p == DOUBLY && slot == DOUBLY_SLOT
      requires p <= |files[f].blocks| && p + Span(num, level) <= |files[f].blocks| + |FreeList(freeMap.bits)|
      modifies cache, cache.slots, freeMap, freeMap.elems, `files, `owner
      ensures Sane() && Synced() && Grown(f, old(S()), S()) && f in files
      ensures words == InodeWords(files[f]) && Stored(cache.view, files[f].blocks, {})
      ensures |files[f].blocks| == Max(|old(files[f].blocks)|, p + Span(num, level))
      decreases 1, 8, 0
    {
      hide BufferCache.Valid, Bitmap.Valid, Placed, FileOk, BitsOf, Stored, FreeFrom, Grown;
      ghost var s0 := S();
      var entry := ReserveIndirect(f, p, data[slot], num, level, {});
      GrownRoom(f, s0, S());
      words := data[slot := entry];
      if level == 1 {
        InodeWordsAfterIndirect(s0.files[f], files[f].blocks);
      } else {
        InodeWordsAfterDoubly(s0.files[f], files[f].blocks);
      }
    }

    /** Writes the inode of f with a new header to disk. */
    method StoreInode(f: nat, ghost rec: FileRec, words: Words)
      requires Sane() && Synced() && f in files && (f != 0 || freeMapInode == null)
      requires rec.blocks == files[f].blocks && words == InodeWords(rec)
      modifies cache, cache.slots, `files
      ensures Sane() && Synced() && f < |old(cache.view)| && OthersKept(f, old(S()), S())
      ensures S() == old(S()).(files := old(files)[f := rec], view := old(cache.view)[f := Pack(InodeWords(rec))])
    {
      hide Turned, Lazy, ClockOf, BufferCache.Valid, Bitmap.Valid, Placed, BitsOf, FileOk, Pack, InodeWords, Content,
        OthersKept;
      ghost var s0 := S();
      InodeInRange(s0, f);
      InodeRewriteKeepsOthers(f, s0, rec, Pack(words));
      files := files[f := rec];
      cache.Write(f, Pack(words));
    }

    /** Makes the file length bytes long: its tree grows and its inode is rewritten. */
    method Extend(inode: Inode, length: nat)
      requires Sane() && Synced() && Open(inode) && inode.sector != 0
      requires files[inode.sector].len <= length <= MAX_LENGTH
      requires Cost(Sectors(length)) <= |files[inode.sector].blocks| + |FreeList(freeMap.bits)|
      modifies cache, cache.slots, freeMap, freeMap.elems, `files, `owner, inode
      ensures Sane() && Synced() && Open(inode)
      ensures Wrote(inode.sector, old(S()), S(), length, [])
      decreases 1, 10, 0
    {
      hide BufferCache.Valid, Bitmap.Valid, Placed, BitsOf, Stored, FreeFrom, FileOk, Pack, InodeWords, ByteAt,
        Content, DataKept, Taken, OthersKept, Splice;
      ghost var f := inode.sector;
      ghost var s0 := S();
      FileOkFacts(cache.view, f, files[f]);
      CostMonotone(Sectors(files[f].len), Sectors(length));
      var words := Reserve(f, inode.data, length);
      ghost var s1 := S();
      ghost var rec := s1.files[f].(len := length);
      InodeWordsLength(s1.files[f], length);
      inode.data := words[LENGTH_SLOT := length];
      StoreInode(inode.sector, rec, inode.data);
      ExtensionOk(f, s0, s1, length);
      OthersKeptTrans(f, s0, s1, S());
      ExtensionContent(s0.view, cache.view, f, s0.files[f], rec);
    }

    /** Writes data at offset, extending the file first if it is too short. */
    method WriteAt(inode: Inode, data: seq<byte>, offset: nat) returns (n: nat)
      requires Sane() && Open(inode) && offset + |data| <= MAX_LENGTH
      requires offset + |data| > 0 || files[inode.sector].len == 0
      requires Extends(files[inode.sector].len, offset + |data|) ==>
                 && inode.sector != 0 && Synced()
                 && Cost(Sectors(offset + |data|)) <= |files[inode.sector].blocks| + |FreeList(freeMap.bits)|
      modifies cache, cache.slots, freeMap, freeMap.elems, `files, `owner
      modifies if Extends(files[inode.sector].len, offset + |data|) then {inode} else {}
      ensures Sane() && Open(inode) && n == |data|
      ensures Wrote(inode.sector, old(S()), S(), offset, data)
      ensures inode.sector != 0 && old(Synced()) ==> Synced()
      ensures !Extends(old(files)[inode.sector].len, offset + |data|) ==>
                S() == old(S()).(view := cache.view)
                  && Written(old(cache.view), S(), inode.sector, offset, data, |data|)
      decreases if Extends(files[inode.sector].len, offset + |data|) then 2 else 0, 0, 0
    {
      hide BufferCache.Valid, Bitmap.Valid, Placed, BitsOf, Stored, FreeFrom, FileOk, InodeWords, ByteAt, Content,
        Splice, Written, Taken, OthersKept, Persisted, Wrote, Cost, Sectors;
      ghost var f := inode.sector;
      ghost var s0 := S();
      FileOkFacts(cache.view, f, files[f]);
      if !Extends(files[f].len, offset + |data|) {
        ByteHasSector(s0, f, offset + |data| - 1);
      }
      var last := ByteToSector(inode, offset + |data| - 1);
      if last == NO_SECTOR {
        Extend(inode, offset + |data|);
        ghost var s1 := S();
        WroteLength(f, s0, s1, offset + |data|, []);
        n := WriteInside(inode, data, offset);
        AfterWrite(s1, S(), f, offset, data);
        WroteInTwoSteps(f, s0, s1, S(), offset, data);
      } else {
        n := WriteInside(inode, data, offset);
        AfterWrite(s0, S(), f, offset, data);
      }
    }

    /** The writes that WriteAt does not cover: of no bytes, at offset 0 of a file
        that has some. No byte lies before offset 0, so the file is made to end
        there: it reads as empty, and its sectors stay marked. */
    method WriteNothing(inode: Inode) returns (n: nat)
      requires Sane() && Synced() && Open(inode) && inode.sector != 0 && files[inode.sector].len > 0
      modifies cache, cache.slots, `files, inode
      ensures Sane() && n == 0 && inode.sector in files
      ensures S() == old(S()).(files := old(files)[inode.sector := old(files)[inode.sector].(len := 0)],
                               view := cache.view)
      ensures Sec(cache.view, inode.sector) == Pack(InodeWords(files[inode.sector]))
      ensures Content(cache.view, files[inode.sector]) != Splice(old(Content(cache.view, files[inode.sector])), 0, [])
      ensures !Sound(S())
    {
      hide BufferCache.Valid, Bitmap.Valid, Placed, BitsOf, Stored, Pack, InodeWords, ByteAt, OthersKept, Persisted;
      ghost var rec := files[inode.sector];
      ghost var c := Content(cache.view, rec);
      var last := ByteToSector(inode, -1);
      if last == NO_SECTOR {
        inode.data := inode.data[LENGTH_SLOT := 0];
        InodeWordsLength(rec, 0);
        StoreInode(inode.sector, rec.(len := 0), inode.data);
      }
      NoSectors(rec.len);
      NoSectors(0);
      n := 0;
    }

    // ----- Giving sectors back -----

    /** Clears a sector's mark and persists the free map. */
    method Release(sector: nat)
      requires Sane() && freeMapInode != null
      requires sector in owner && sector != 0 && owner[sector].ino !in files
      modifies cache, cache.slots, freeMap, freeMap.elems, `files, `owner
      ensures Sane() && Synced() && files == old(files) && owner == old(owner) - {sector}
      ensures OnlyFreeMap(old(S()), S())
    {
      hide BufferCache.Valid, Bitmap.Valid, Placed, FileOk, InodeWords, Content, ByteAt, BitsOf, Sec;
      ghost var s0 := S();
      ReleaseKeepsAccounts(s0, sector);
      freeMap.Reset(sector);
      owner := owner - {sector};
      Persist();
      assert forall y: nat :: IsDataOf(s0.owner, 0, y) <==> IsDataOf(owner, 0, y);
    }

    /** Gives back the sector with role r of the removed file f. */
    method ReleaseRole(ghost f: nat, ghost b: seq<Word>, ghost r: nat, sector: Word)
      requires Sane() && freeMapInode != null && f !in files && f != 0
      requires Dying(owner, f, b) && Holds(owner, f, b, r, r + 1) && sector == At(b, r) && Stored(cache.view, b, {})
      modifies cache, cache.slots, freeMap, freeMap.elems, `files, `owner
      ensures Sane() && Synced() && files == old(files) && OnlyFreeMap(old(S()), S())
      ensures Released(old(owner), owner, f, r, r + 1)
      ensures Dying(owner, f, b) && Stored(cache.view, b, {})
    {
      hide BufferCache.Valid, Bitmap.Valid, FileOk, InodeWords, BitsOf, Stored, OnlyFreeMap;
      ghost var s0 := S();
      ReleasedOne(owner, f, b, r);
      Release(sector);
      ReleasedLeaves(s0.owner, owner, f, b, r, r + 1, r, r);
      DyingStored(s0, S(), f, b);
    }

    /** Gives back the subtree at role p of the removed file f, whose index blocks are still on disk. */
    method DeallocateIndirect(ghost f: nat, ghost b: seq<Word>, ghost p: nat, entry: Word, num: nat, level: nat)
      requires Sane() && freeMapInode != null && f !in files && f != 0
      requires level <= 2 && RootAt(p, level) && 0 < num <= Capacity(level)
      requires Dying(owner, f, b) && Holds(owner, f, b, p, p + Span(num, level))
      requires Stored(cache.view, b, {}) && entry == At(b, p)
      modifies cache, cache.slots, freeMap, freeMap.elems, `files, `owner
      ensures Sane() && Synced() && files == old(files) && OnlyFreeMap(old(S()), S())
      ensures Released(old(owner), owner, f, p, p + Span(num, level))
      ensures Dying(owner, f, b) && Stored(cache.view, b, {})
      decreases level, 1
    {
      hide BufferCache.Valid, Bitmap.Valid, Placed, FileOk, InodeWords, BitsOf, Stored, Pack, Span, Capacity, RootAt,
        Table, OnlyFreeMap, Released, Dying;
      SpanFacts(p, num, level);
      if level == 0 {
        ReleaseRole(f, b, p, entry);
        return;
      }
      ghost var s0 := S();
      OwnedInRange(s0, b[p]);
      StoredAt(cache.view, b, {}, p);
      var table := ReadTable(b, p, entry);
      DeallocateChildren(f, b, p, table, num, level);
      ghost var s1 := S();
      ReleasedLeaves(s0.owner, s1.owner, f, b, p + 1, p + Span(num, level), p, p + 1);
      ReleaseRole(f, b, p, entry);
      ReleasedBoth(s0.owner, s1.owner, owner, f, p, p + 1, p + Span(num, level));
      OnlyFreeMapTrans(s0, s1, S());
    }

    /** Gives back what the pointers of an index block lead to. */
    method DeallocateChildren(ghost f: nat, ghost b: seq<Word>, ghost p: nat, table: Words, num: nat, level: nat)
      requires Sane() && freeMapInode != null && f !in files && f != 0
      requires 1 <= level <= 2 && RootAt(p, level) && 0 < num <= Capacity(level)
      requires Dying(owner, f, b) && Holds(owner, f, b, p + 1, p + Span(num, level))
      requires Stored(cache.view, b, {}) && table == Table(b, p)
      modifies cache, cache.slots, freeMap, freeMap.elems, `files, `owner
      ensures Sane() && files == old(files) && OnlyFreeMap(old(S()), S())
      ensures Released(old(owner), owner, f, p + 1, p + Span(num, level))
      ensures Dying(owner, f, b) && Stored(cache.view, b, {})
      decreases level, 0
    {
      hide BufferCache.Valid, Bitmap.Valid, Placed, FileOk, InodeWords, BitsOf, Stored, Span, Capacity, Before, Rounds,
        RootAt, Table, OnlyFreeMap, Released, Dying, Holds, Child, Accounted;
      ghost var s0 := S();
      ghost var end := p + Span(num, level);
      var unit := Capacity(level - 1);
      var left: nat, i: nat := num, 0;
      FirstChild(p, level);
      RoundsBefore(num, 0, level);
      SpanMonotone(0, num, level);
      ReleasedNothing(owner, f, p + 1);
      OnlyFreeMapRefl(s0);
      while i < Rounds(num, level)
        invariant left <= num && if left > 0 then Before(i, level) == num - left else num <= Before(i, level)
        invariant left == 0 <==> Rounds(num, level) <= i
        invariant Sane() && files == s0.files && OnlyFreeMap(s0, S()) && freeMapInode != null
        invariant Dying(owner, f, b) && Stored(cache.view, b, {})
        invariant p + Span(num - left, level) <= end && Holds(owner, f, b, p + Span(num - left, level), end)
        invariant Released(s0.owner, owner, f, p + 1, p + Span(num - left, level))
      {
        var sub := Min(left, unit);
        ghost var s1 := S();
        ghost var lo, hi := p + Span(num - left, level), p + Span(num - left + sub, level);
        ChildStart(p, i, sub, level);
        SpanMonotone(num - left + sub, num, level);
        SpanMonotone(0, num - left, level);
        ChildRoot(p, i, level);
        TableEntry(b, p, i);
        HoldsPart(owner, f, b, lo, hi, end);
        DeallocateIndirect(f, b, Child(p, i), table[i], sub, level - 1);
        ReleasedLeaves(s1.owner, owner, f, b, lo, hi, hi, end);
        ReleasedBoth(s0.owner, s1.owner, owner, f, p + 1, lo, hi);
        OnlyFreeMapTrans(s0, s1, S());
        left := left - sub;
        i := i + 1;
        RoundsBefore(num, i, level);
      }
      assert left == 0;
    }

    /** Gives back every sector of a removed file but its inode. */
    method Deallocate(ghost f: nat, ghost rec: FileRec, data: Words)
      requires Sane() && freeMapInode != null && f !in files && f != 0
      requires data == InodeWords(rec) && rec.len <= MAX_LENGTH && |rec.blocks| == Cost(Sectors(rec.len))
      requires Dying(owner, f, rec.blocks) && Holds(owner, f, rec.blocks, 0, |rec.blocks|)
               && Stored(cache.view, rec.blocks, {})
      modifies cache, cache.slots, freeMap, freeMap.elems, `files, `owner
      ensures Sane() && (old(Synced()) ==> Synced()) && files == old(files) && OnlyFreeMap(old(S()), S())
      ensures Released(old(owner), owner, f, 0, |rec.blocks|)
    {
      hide BufferCache.Valid, Bitmap.Valid, Placed, FileOk, Persisted, Stored, OnlyFreeMap, Released, Dying, Holds,
        Cost, InodeWords, Span;
      ghost var b := rec.blocks;
      ghost var s0 := S();
      InodePointers(rec);
      var num: nat := Sectors(data[LENGTH_SLOT]);
      CostParts(num);
      var l := Min(num, DIRECT);
      HoldsPart(s0.owner, f, b, 0, l, |b|);
      DeallocateDirect(f, rec, data, l);
      ReleasedLeaves(s0.owner, owner, f, b, 0, l, l, |b|);
      DeallocateIndexed(f, rec, data, num - l, s0);
    }

    /** The part of Deallocate behind the direct blocks. */
    method DeallocateIndexed(ghost f: nat, ghost rec: FileRec, data: Words, rest: nat, ghost s0: State)
      requires Sane() && freeMapInode != null && f !in files && f != 0 && files == s0.files
      requires data == InodeWords(rec) && rec.len <= MAX_LENGTH && |rec.blocks| == Cost(Sectors(rec.len))
      requires rest == Sectors(rec.len) - Min(Sectors(rec.len), DIRECT)
      requires OnlyFreeMap(s0, S()) && Released(s0.owner, owner, f, 0, Min(Sectors(rec.len), DIRECT))
      requires Dying(owner, f, rec.blocks) && Stored(cache.view, rec.blocks, {})
      requires Holds(owner, f, rec.blocks, Min(Sectors(rec.len), DIRECT), |rec.blocks|)
      modifies cache, cache.slots, freeMap, freeMap.elems, `files, `owner
      ensures Sane() && (old(Synced()) ==> Synced()) && files == s0.files && OnlyFreeMap(s0, S())
      ensures Released(s0.owner, owner, f, 0, |rec.blocks|)
    {
      hide BufferCache.Valid, Bitmap.Valid, Placed, FileOk, Persisted, Stored, OnlyFreeMap, Released, Dying, Holds,
        Cost, InodeWords, Span, RootAt, Capacity, Sectors;
      ghost var b := rec.blocks;
      ghost var s1 := S();
      InodePointers(rec);
      InodeSubtrees();
      var num := rest;
      LengthBound(rec.len);
      CostParts(Sectors(rec.len));
      var l := Min(num, FANOUT);
      if l > 0 {
        DeallocateSubtree(f, b, INDIRECT, data[INDIRECT], l, 1);
        num := num - l;
        ReleasedBoth(s0.owner, s1.owner, owner, f, 0, INDIRECT, INDIRECT + Span(l, 1));
        OnlyFreeMapTrans(s0, s1, S());
      }
      ghost var s2 := S();
      l := Min(num, FANOUT * FANOUT);
      if l > 0 {
        DeallocateSubtree(f, b, DOUBLY, data[DOUBLY_SLOT], l, 2);
        num := num - l;
        ReleasedBoth(s0.owner, s2.owner, owner, f, 0, DOUBLY, DOUBLY + Span(l, 2));
        OnlyFreeMapTrans(s0, s2, S());
      }
      assert num == 0;
    }

    method DeallocateDirect(ghost f: nat, ghost rec: FileRec, data: Words, num: nat)
      requires Sane() && freeMapInode != null && f !in files && f != 0
      requires data == InodeWords(rec) && num <= DIRECT
      requires Dying(owner, f, rec.blocks) && Holds(owner, f, rec.blocks, 0, num) && Stored(cache.view, rec.blocks, {})
      modifies cache, cache.slots, freeMap, freeMap.elems, `files, `owner
      ensures Sane() && (old(Synced()) ==> Synced()) && files == old(files) && OnlyFreeMap(old(S()), S())
      ensures Released(old(owner), owner, f, 0, num)
      ensures Dying(owner, f, rec.blocks) && Stored(cache.view, rec.blocks, {})
    {
      hide BufferCache.Valid, Bitmap.Valid, Placed, FileOk, BitsOf, Stored, OnlyFreeMap, Released, Dying, Holds;
      ghost var b := rec.blocks;
      ghost var s0 := S();
      ReleasedNothing(owner, f, 0);
      OnlyFreeMapRefl(s0);
      for i := 0 to num
        invariant Sane() && (old(Synced()) ==> Synced()) && files == s0.files && OnlyFreeMap(s0, S())
        invariant Dying(owner, f, b) && Stored(cache.view, b, {}) && Holds(owner, f, b, i, num)
        invariant Released(s0.owner, owner, f, 0, i)
      {
        ghost var s1 := S();
        HoldsPart(owner, f, b, i, i + 1, num);
        ReleaseRole(f, b, i, data[i]);
        ReleasedLeaves(s1.owner, owner, f, b, i, i + 1, i + 1, num);
        ReleasedBoth(s0.owner, s1.owner, owner, f, 0, i, i + 1);
        OnlyFreeMapTrans(s0, s1, S());
      }
    }

    method DeallocateSubtree(ghost f: nat, ghost b: seq<Word>, ghost p: nat, entry: Word, num: nat, level: nat)
      requires Sane() && freeMapInode != null && f !in files && f != 0
      requires 1 <= level <= 2 && RootAt(p, level) && 0 < num <= Capacity(level) && entry == At(b, p)
      requires p + Span(num, level) <= |b|
      requires Dying(owner, f, b) && Holds(owner, f, b, p, |b|) && Stored(cache.view, b, {})
      modifies cache, cache.slots, freeMap, freeMap.elems, `files, `owner
      ensures Sane() && (old(Synced()) ==> Synced()) && files == old(files) && OnlyFreeMap(old(S()), S())
      ensures Released(old(owner), owner, f, p, p + Span(num, level))
      ensures Dying(owner, f, b) && Holds(owner, f, b, p + Span(num, level), |b|) && Stored(cache.view, b, {})
    {
      hide BufferCache.Valid, Bitmap.Valid, Placed, FileOk, BitsOf, Stored, OnlyFreeMap, Released, Dying, Holds;
      ghost var s0 := S();
      ghost var hi := p + Span(num, level);
      HoldsPart(owner, f, b, p, hi, |b|);
      DeallocateIndirect(f, b, p, entry, num, level);
      ReleasedLeaves(s0.owner, owner, f, b, p, hi, hi, |b|);
    }

    // ----- Creating, opening and removing files -----

    /** Writes a new inode for a file of length zero bytes into a sector set aside for it. */
    method CreateInode(sector: nat, length: nat, isDir: bool)
      requires Sane() && Synced() && sector !in files && (sector != 0 || freeMapInode == null)
      requires sector in owner && owner[sector] == Node(sector)
      requires forall x :: x in owner && owner[x].Block? ==> owner[x].ino != sector
      requires length <= MAX_LENGTH && Cost(Sectors(length)) <= |FreeList(freeMap.bits)|
      modifies cache, cache.slots, freeMap, freeMap.elems, `files, `owner
      ensures Sane() && Synced() && sector in files
      ensures files == old(files)[sector := FileRec(isDir, length, files[sector].blocks)]
      ensures FileOk(cache.view, sector, files[sector]) && Content(cache.view, files[sector]) == Zeros(length)
      ensures Taken(old(freeMap.bits), freeMap.bits, [], files[sector].blocks)
      ensures OthersKept(sector, old(S()), S())
    {
      hide BufferCache.Valid, Bitmap.Valid, Placed, BitsOf, Stored, FreeFrom, FileOk, Pack, InodeWords, ByteAt,
        Content, DataKept, Taken, OthersKept, Cost, Sectors, Zeros;
      ghost var s0 := S();
      var words: Words :=
        ZERO_WORDS[LENGTH_SLOT := length][MAGIC_SLOT := INODE_MAGIC][IS_DIR_SLOT := if isDir then 1 else 0];
      files := files[sector := FileRec(isDir, length, [])];
      ghost var s1 := S();
      EmptyFile(s0, sector, length, isDir);
      words := Reserve(sector, words, length);
      ghost var s2 := S();
      StoreInode(sector, files[sector], words);
      ExtensionOk(sector, s1, s2, length);
      OthersKeptTrans(sector, s0, s1, s2);
      OthersKeptTrans(sector, s0, s2, S());
      ZeroContent(s1.view, cache.view, files[sector]);
    }

    method OpenInode(sector: nat) returns (inode: Inode)
      requires Readable() && sector in files && FileOk(cache.view, sector, files[sector])
      modifies cache, cache.slots
      ensures Readable() && cache.view == old(cache.view)
      ensures fresh(inode) && inode.sector == sector && Open(inode)
    {
      hide Turned, Lazy, ClockOf, BufferCache.Valid, Bitmap.Valid, Placed, Pack, InodeWords, Stored, ByteAt;
      InodeInRange(S(), sector);
      var data := cache.Read(sector);
      UnpackPack(InodeWords(files[sector]));
      inode := new Inode(sector, Unpack(data));
    }

    /** A new file of length zero bytes, in the first free sector. */
    method Create(length: nat, isDir: bool) returns (ino: Word)
      requires Valid() && length <= MAX_LENGTH && 1 + Cost(Sectors(length)) <= Room()
      modifies cache, cache.slots, freeMap, freeMap.elems, `files, `owner
      ensures Valid() && MadeInode(old(S()), S(), ino, length, isDir)
    {
      hide BufferCache.Valid, Bitmap.Valid, Persisted, FreeFrom, FileOk, InodeWords, Content, OthersKept, Contents,
        Sec, Placed, AllOk, NoLeak, Taken;
      ghost var s0 := S();
      var ok;
      ok, ino := Allocate(ToInode);
      ghost var s1 := S();
      NewNode(s0, s1, ino);
      CreateInode(ino, length, isDir);
      OthersKeptTrans(ino, s0, s1, S());
      SoundAfter(ino, s0, S());
      TakenFront(s1.bits, freeMap.bits, files[ino].blocks);
    }

    /** A write to one file, as the users of files see it. */
    method Write(ino: nat, data: seq<byte>, offset: nat) returns (n: nat)
      requires Valid() && ino in files && ino != 0
      requires offset + |data| > 0 || files[ino].len == 0
      requires offset + |data| <= MAX_LENGTH && Need(files[ino].len, offset + |data|) <= Room()
      modifies cache, cache.slots, freeMap, freeMap.elems, `files, `owner
      ensures Valid() && n == |data|
      ensures Contents(S()) == old(Contents(S()))[ino := Splice(old(Content(cache.view, files[ino])), offset, data)]
      ensures Wrote(ino, old(S()), S(), offset, data)
      ensures Room() == old(Room()) - Need(old(files)[ino].len, offset + |data|)
      ensures !Extends(old(files)[ino].len, offset + |data|) ==> S() == old(S()).(view := cache.view)
    {
      hide BufferCache.Valid, Bitmap.Valid, Placed, BitsOf, FreeFrom, FileOk, InodeWords, Content, Contents,
        OthersKept, Splice, Sectors, Cost, Need, Wrote, Written;
      ghost var s0 := S();
      SoundFile(s0, ino);
      WriteRoom(s0, ino, offset + |data|);
      var inode := OpenInode(ino);
      n := WriteAt(inode, data, offset);
      SoundAfterWrite(ino, s0, S(), offset, data);
    }

    method Read(ino: nat, size: nat, offset: nat) returns (buffer: seq<byte>)
      requires Valid() && ino in files && ino != 0
      modifies cache, cache.slots
      ensures Valid() && cache.view == old(cache.view)
      ensures buffer == Slice(Contents(S())[ino], offset, size)
    {
      hide BufferCache.Valid, Bitmap.Valid, BitsOf, FileOk, InodeWords, Content, Contents, Placed, Slice;
      SoundFile(S(), ino);
      var inode := OpenInode(ino);
      buffer := ReadAt(inode, size, offset);
    }

    /** Removing a file and closing it for the last time. */
    method Remove(ino: nat)
      requires Valid() && ino in files && ino != 0
      modifies cache, cache.slots, freeMap, freeMap.elems, `files, `owner
      ensures Valid() && files == old(files) - {ino}
      ensures Contents(S()) == old(Contents(S())) - {ino}
      ensures OthersKept(ino, old(S()), S()) && forall x :: x in owner ==> owner[x].ino != ino
      ensures |freeMap.bits| == old(|freeMap.bits|)
      ensures Room() == old(Room()) + 1 + Cost(Sectors(old(files)[ino].len))
    {
      hide BufferCache.Valid, Bitmap.Valid, BitsOf, FreeFrom, InodeWords, FileOk, Content, OthersKept, Contents,
        Sectors, Cost, Stored, OnlyFreeMap, Placed, Dying, Holds, Released, AllOk;
      ghost var s0 := S();
      SoundFile(s0, ino);
      var inode := OpenInode(ino);
      ghost var rec := files[ino];
      DropKeepsAccounts(s0, ino);
      files := files - {ino};
      ghost var s1 := S();
      Release(ino);
      ghost var s2 := S();
      AfterNodeRelease(s1, s2, ino, rec.blocks);
      Deallocate(ino, rec, inode.data);
      OnlyFreeMapTrans(s1, s2, S());
      AllReleased(s0, s2.owner, owner, ino);
      SoundAfterRemoval(ino, s0, S());
      RemovalFrees(ino, s0, S());
    }

    /** Gives back the inode of a file that could not be entered in a directory, and
        nothing else: the volume stays sound exactly if the file has no sectors. */
    method Abandon(ino: nat)
      requires Valid() && ino in files && ino != 0
      modifies cache, cache.slots, freeMap, freeMap.elems, `files, `owner
      ensures Sane() && files == old(files) - {ino} && Contents(S()) == old(Contents(S())) - {ino}
      ensures Room() == old(Room()) + 1 && (Sound(S()) <==> old(files)[ino].len == 0)
    {
      hide BufferCache.Valid, Bitmap.Valid, BitsOf, FreeFrom, InodeWords, FileOk, Content, Contents, Sectors, Cost,
        OnlyFreeMap, Placed, Dying, Holds, AllOk, NoLeak;
      ghost var s0 := S();
      SoundFile(s0, ino);
      NoSectors(files[ino].len);
      DropKeepsAccounts(s0, ino);
      files := files - {ino};
      Release(ino);
      AfterAbandoning(ino, s0, S());
    }

    method NumFreeSectors() returns (n: nat)
      requires Sane()
      ensures n == Room()
    {
      hide BufferCache.Valid, Spells, Placed, FileOk;
      n := freeMap.Count(0, freeMap.bitCnt, false);
      CountIsFreeList(freeMap.bits, |freeMap.bits|);
    }

    // ----- Formatting, unmounting and mounting -----

    /** Creates the free-map file on an empty volume and writes the free map to it. */
    method CreateFreeMap()
      requires Sane() && freeMapInode == null && files == map[] && owner == map[0 := Node(0), 1 := Node(1)]
      requires FileSize(|freeMap.bits|) <= MAX_LENGTH && Cost(Sectors(FileSize(|freeMap.bits|))) <= Room()
      modifies this, cache, cache.slots, freeMap, freeMap.elems
      ensures Sane() && Synced() && freeMapInode != null && files.Keys == {0}
      ensures 1 in owner && owner[1] == Node(1) && forall x :: x in owner && x != 1 ==> owner[x].ino == 0
      ensures Room() == old(Room()) - Cost(Sectors(FileSize(old(|freeMap.bits|)))) && Front(freeMap.bits)
    {
      hide BufferCache.Valid, Bitmap.Valid, BitsOf, FreeFrom, FileOk, InodeWords, Content, Placed, Cost, Sectors, Sec;
      ghost var s0 := S();
      CreateInode(FREE_MAP_SECTOR, FileSize(freeMap.bitCnt), false);
      FileOkFacts(cache.view, 0, files[0]);
      TakenKeepsFront(s0.bits, freeMap.bits, [], files[0].blocks);
      freeMapInode := OpenInode(FREE_MAP_SECTOR);
      Persist();
    }

    /** Creates the free-map file and the root directory's file on an empty volume. */
    method Format(rootLength: nat)
      requires Sane() && freeMapInode == null && files == map[] && owner == map[0 := Node(0), 1 := Node(1)]
      requires FileSize(|freeMap.bits|) <= MAX_LENGTH && rootLength <= MAX_LENGTH
      requires Cost(Sectors(FileSize(|freeMap.bits|))) + Cost(Sectors(rootLength)) <= Room()
      modifies this, cache, cache.slots, freeMap, freeMap.elems
      ensures Valid() && files.Keys == {0, 1} && files[1].isDir
      ensures Contents(S()) == map[1 := Zeros(rootLength)] && Front(freeMap.bits)
    {
      hide BufferCache.Valid, Bitmap.Valid, BitsOf, FreeFrom, FileOk, InodeWords, Content, Placed, Cost, Sectors,
        Taken, Sec, Front;
      CreateFreeMap();
      ghost var bits := freeMap.bits;
      CreateInode(1, rootLength, true);
      TakenKeepsFront(bits, freeMap.bits, [], files[1].blocks);
    }

    /** Writes everything back; the device then holds a sound volume. */
    method Shutdown() returns (device: seq<Sector>)
      requires Valid()
      modifies cache, cache.slots
      ensures Valid() && S() == old(S()) && device == cache.view
    {
      hide Bitmap.Valid, BitsOf, FileOk, Content, Placed;
      cache.Close();
      device := cache.disk;
    }

    /** Opens the free-map file and reads the free map back from it. */
    method OpenFreeMap(ghost s: State)
      requires Readable() && freeMap.Valid() && (cache.slots as object) != freeMap.elems
      requires freeMap.bitCnt == |freeMap.bits| == |cache.view| - 1 && 2 <= |freeMap.bits| < BITMAP_ERROR
      requires Sound(s) && s == S().(bits := s.bits) && |s.bits| == |freeMap.bits|
      modifies `freeMapInode, cache, cache.slots, freeMap, freeMap.elems
      ensures Valid() && S() == s && fresh(freeMapInode)
    {
      hide BufferCache.Valid, Bitmap.Valid, BitsOf, FileOk, InodeWords, Content, Placed;
      SoundFile(s, FREE_MAP_SECTOR);
      var inode := OpenInode(FREE_MAP_SECTOR);
      var image := ReadAt(inode, FileSize(freeMap.bitCnt), 0);
      assert image == Content(cache.view, files[FREE_MAP_SECTOR]);
      freeMap.Load(image);
      freeMapInode := inode;
    }

    /** Mounts a device that holds a sound volume. */
    constructor Mount(device: seq<Sector>, ghost s: State)
      requires Sound(s) && s.view == device && |s.bits| == |device| - 1 && 2 < |device| <= BITMAP_ERROR
      ensures Valid() && S() == s
      ensures fresh(cache) && fresh(cache.slots) && fresh(freeMap) && fresh(freeMap.elems) && fresh(freeMapInode)
    {
      hide BufferCache.Valid, Bitmap.Valid, FileSystem.Valid, Sound, Placed;
      cache := new BufferCache(device);
      freeMap := new Bitmap(|device| - 1);
      freeMapInode := null;
      files := s.files;
      owner := s.owner;
      new;
      freeMap.Mark(0);
      freeMap.Mark(1);
      PlacedIgnoresBits(s, S());
      OpenFreeMap(s);
    }
  }

  /** A file has sectors exactly if it has bytes. */
  lemma NoSectors(len: nat)
    ensures Cost(Sectors(len)) == 0 <==> len == 0
  {
    if len > 0 {
      CostMonotone(1, Sectors(len));
    }
  }

  /** Unmounting a volume and mounting its device again loses nothing. */
  method Remount(fs: FileSystem) returns (again: FileSystem)
    requires fs.Valid()
    modifies fs.cache, fs.cache.slots
    ensures fresh(again) && again.Valid() && again.S() == old(fs.S())
  {
    hide BufferCache.Valid, Bitmap.Valid, BitsOf, FileOk, Content, Placed;
    var device := fs.Shutdown();
    again := new FileSystem.Mount(device, fs.S());
  }
}
