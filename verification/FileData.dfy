/** Files as byte sequences: what one chunk written to one data sector, and a
    whole series of them, does to a file's bytes and to everything else. */
module FileData {
  import opened Words
  import opened BlockTree
  import opened Volume
  import opened Growth
  import opened Bitmaps

  /** The meaning of a write: the bytes replace those at the offset, the file
      grows if it must, and a gap before the offset reads as zeros. */
  function Splice(c: seq<byte>, offset: nat, data: seq<byte>): (r: seq<byte>) {
    var n := if |c| < offset + |data| then offset + |data| else |c|;
    seq(n, k requires 0 <= k < n =>
      if offset <= k < offset + |data| then data[k - offset] else if k < |c| then c[k] else 0)
  }

  /** The meaning of a read: the part of the range that lies inside the file. */
  function Slice(c: seq<byte>, offset: nat, size: nat): (r: seq<byte>) {
    if offset >= |c| then []
    else if offset + size <= |c| then c[offset..offset + size]
    else c[offset..]
  }

  /** What a write leaves, byte by byte: the data at its place, the old bytes beside
      it, and zeros between the old end and the data. */
  lemma SpliceMeans(c: seq<byte>, offset: nat, data: seq<byte>)
    ensures var r := Splice(c, offset, data);
            && |r| == Max(|c|, offset + |data|)
            && (forall k :: 0 <= k < |data| ==> r[offset + k] == data[k])
            && (forall k :: 0 <= k < |c| && !(offset <= k < offset + |data|) ==> r[k] == c[k])
            && (forall k :: |c| <= k < offset && k < |r| ==> r[k] == 0)
  {
  }

  /** What a read returns, byte by byte. */
  lemma SliceMeans(c: seq<byte>, offset: nat, size: nat)
    ensures |Slice(c, offset, size)| == if offset >= |c| then 0 else Min(size, |c| - offset)
    ensures forall k :: 0 <= k < |Slice(c, offset, size)| ==> Slice(c, offset, size)[k] == c[offset + k]
  {
  }

  lemma SliceGrows(c: seq<byte>, offset: nat, n: nat, chunk: nat)
    requires offset + n + chunk <= |c|
    ensures Slice(c, offset, n) + c[offset + n..offset + n + chunk] == Slice(c, offset, n + chunk)
  {
  }

  lemma SliceEnds(c: seq<byte>, offset: nat, n: nat, size: nat)
    requires n <= size && (n == 0 || offset + n <= |c|) && (n == size || |c| <= offset + n)
    ensures Slice(c, offset, n) == Slice(c, offset, size)
  {
  }

  /** Reading on from where a read ended is one longer read. */
  lemma SliceInTwoSteps(c: seq<byte>, offset: nat, m: nat, n: nat)
    ensures Slice(c, offset, m) + Slice(c, offset + |Slice(c, offset, m)|, n) == Slice(c, offset, m + n)
  {
    hide Slice;
    SliceIs(c, offset, m);
    SliceIs(c, offset + |Slice(c, offset, m)|, n);
    SliceIs(c, offset, m + n);
    if offset < |c| {
      JoinSlices(c, offset, Min(offset + m, |c|), Min(offset + m + n, |c|));
    }
  }

  lemma SliceIs(c: seq<byte>, offset: nat, size: nat)
    ensures Slice(c, offset, size) == c[Min(offset, |c|)..Min(offset + size, |c|)]
  {
  }

  lemma JoinSlices(c: seq<byte>, lo: nat, mid: nat, hi: nat)
    requires lo <= mid <= hi <= |c|
    ensures c[lo..mid] + c[mid..hi] == c[lo..hi]
  {
  }

  /** A read of what was just written returns it ... */
  lemma SliceOfSplice(c: seq<byte>, offset: nat, data: seq<byte>)
    ensures Slice(Splice(c, offset, data), offset, |data|) == data
  {
    var r := Splice(c, offset, data);
    assert |r| >= offset + |data|;
    if data != [] {
      assert r[offset..offset + |data|] == data;
    }
  }

  /** ... and one elsewhere in the old file returns the old bytes. */
  lemma SliceBesideSplice(c: seq<byte>, offset: nat, data: seq<byte>, at: nat, size: nat)
    requires at + size <= |c| && (at + size <= offset || offset + |data| <= at)
    ensures Slice(Splice(c, offset, data), at, size) == Slice(c, at, size)
  {
    var r := Splice(c, offset, data);
    assert r[at..at + size] == c[at..at + size];
  }

  ghost predicate IsDataOf(owner: map<nat, Tag>, f: nat, x: nat) {
    x in owner && owner[x].Block? && owner[x].ino == f && !IsIndex(owner[x].role)
  }

  function Patch(s: Sector, at: nat, chunk: seq<byte>): Sector
    requires at + |chunk| <= SECTOR_SIZE
  {
    s[..at] + chunk + s[at + |chunk|..]
  }

  lemma PatchWhole(s: Sector, chunk: seq<byte>)
    requires |chunk| == SECTOR_SIZE
    ensures Patch(s, 0, chunk) == chunk
  {
  }

  lemma PatchedByte(s: Sector, at: nat, chunk: seq<byte>, m: nat)
    requires at + |chunk| <= SECTOR_SIZE && m < SECTOR_SIZE
    ensures Patch(s, at, chunk)[m] == if at <= m < at + |chunk| then chunk[m - at] else s[m]
  {
  }

  /** The first n bytes of data have reached the file, and no other byte of any sector has changed. */
  ghost predicate Written(view0: seq<Sector>, s: State, f: nat, offset: nat, data: seq<byte>, n: nat)
    requires f in s.files && n <= |data|
  {
    && |view0| == |s.view|
    && (forall k: nat :: ByteAt(s.view, s.files[f].blocks, k) ==
          if offset <= k < offset + n then data[k - offset] else ByteAt(view0, s.files[f].blocks, k))
    && (forall x: nat :: !IsDataOf(s.owner, f, x) ==> Sec(s.view, x) == Sec(view0, x))
  }

  lemma ChunkBytes(s: State, f: nat, i: nat, sector: Sector, k: nat)
    requires Accounted(s) && f in s.files && DataRole(i) < |s.files[f].blocks|
    requires s.files[f].blocks[DataRole(i)] < |s.view|
    ensures ByteAt(s.view[s.files[f].blocks[DataRole(i)] := sector], s.files[f].blocks, k) ==
            if k / SECTOR_SIZE == i then sector[k % SECTOR_SIZE] else ByteAt(s.view, s.files[f].blocks, k)
  {
    var j := k / SECTOR_SIZE;
    assert Owns(s.owner, f, s.files[f]);
    if i < j {
      DataRoleIncreases(i, j);
    } else if j < i {
      DataRoleIncreases(j, i);
    }
  }

  /** The state after one more chunk has reached its sector. */
  ghost function ChunkState(s: State, f: nat, offset: nat, data: seq<byte>, n: nat, chunk: nat): (s': State)
    requires ChunkFits(s, f, offset, data, n, chunk)
    ensures Accounted(s') && s' == s.(view := s'.view)
  {
    var x := s.files[f].blocks[DataRole((offset + n) / SECTOR_SIZE)];
    s.(view := s.view[x := Patch(s.view[x], (offset + n) % SECTOR_SIZE, data[n..n + chunk])])
  }

  ghost predicate ChunkFits(s: State, f: nat, offset: nat, data: seq<byte>, n: nat, chunk: nat) {
    && Accounted(s) && f in s.files && n + chunk <= |data|
    && DataRole((offset + n) / SECTOR_SIZE) < |s.files[f].blocks|
    && s.files[f].blocks[DataRole((offset + n) / SECTOR_SIZE)] < |s.view|
    && (offset + n) % SECTOR_SIZE + chunk <= SECTOR_SIZE
  }

  lemma ChunkByte(s: State, f: nat, offset: nat, data: seq<byte>, n: nat, chunk: nat, k: nat)
    requires ChunkFits(s, f, offset, data, n, chunk)
    ensures ByteAt(ChunkState(s, f, offset, data, n, chunk).view, s.files[f].blocks, k) ==
            if offset + n <= k < offset + n + chunk then data[k - offset] else ByteAt(s.view, s.files[f].blocks, k)
  {
    hide Placed, Patch;
    var b, i, at := s.files[f].blocks, (offset + n) / SECTOR_SIZE, (offset + n) % SECTOR_SIZE;
    var x := b[DataRole(i)];
    var sector := Patch(s.view[x], at, data[n..n + chunk]);
    ChunkBytes(s, f, i, sector, k);
    if k / SECTOR_SIZE == i {
      var m := k % SECTOR_SIZE;
      assert k - offset - n == m - at;
      PatchedByte(s.view[x], at, data[n..n + chunk], m);
    }
  }

  lemma WrittenChunk(view0: seq<Sector>, s: State, f: nat, offset: nat, data: seq<byte>, n: nat, chunk: nat)
    requires ChunkFits(s, f, offset, data, n, chunk)
    requires Written(view0, s, f, offset, data, n)
    ensures Written(view0, ChunkState(s, f, offset, data, n, chunk), f, offset, data, n + chunk)
  {
    hide ByteAt, Patch;
    var s' := ChunkState(s, f, offset, data, n, chunk);
    var x := s.files[f].blocks[DataRole((offset + n) / SECTOR_SIZE)];
    assert IsDataOf(s.owner, f, x) by {
      assert Owns(s.owner, f, s.files[f]);
    }
    forall k: nat
      ensures ByteAt(s'.view, s.files[f].blocks, k) ==
              if offset <= k < offset + n + chunk then data[k - offset] else ByteAt(view0, s.files[f].blocks, k)
    {
      ChunkByte(s, f, offset, data, n, chunk, k);
    }
  }

  /** A chunk that does not cross a sector boundary is a piece of one sector. */
  lemma ChunkOfContent(view: seq<Sector>, f: FileRec, at: nat, chunk: nat)
    requires at + chunk <= f.len && at % SECTOR_SIZE + chunk <= SECTOR_SIZE
    requires DataRole(at / SECTOR_SIZE) < |f.blocks|
    ensures Sec(view, f.blocks[DataRole(at / SECTOR_SIZE)])[at % SECTOR_SIZE..at % SECTOR_SIZE + chunk]
         == Content(view, f)[at..at + chunk]
  {
    var piece := Sec(view, f.blocks[DataRole(at / SECTOR_SIZE)])[at % SECTOR_SIZE..at % SECTOR_SIZE + chunk];
    forall k | 0 <= k < chunk
      ensures piece[k] == Content(view, f)[at..at + chunk][k]
    {
      assert (at + k) / SECTOR_SIZE == at / SECTOR_SIZE;
    }
  }

  // ----- Whole operations -----

  /** A write inside a file leaves its tree and its zero tail alone, however far it has got. */
  lemma WrittenKeepsFile(view0: seq<Sector>, s: State, f: nat, offset: nat, data: seq<byte>, n: nat)
    requires Accounted(s) && f in s.files && n <= |data| && Written(view0, s, f, offset, data, n)
    requires FileOk(view0, f, s.files[f]) && offset + |data| <= s.files[f].len
    ensures FileOk(s.view, f, s.files[f])
  {
    hide ByteAt, Pack, InodeWords, Table;
    var rec := s.files[f];
    assert Owns(s.owner, f, rec);
    assert !IsDataOf(s.owner, f, f);
    forall p | 0 <= p < |rec.blocks| && IsIndex(p)
      ensures Sec(s.view, rec.blocks[p]) == Pack(Table(rec.blocks, p))
    {
      assert !IsDataOf(s.owner, f, rec.blocks[p]);
    }
  }

  /** A write to one file is invisible in every other. */
  lemma WrittenKeepsOthers(view0: seq<Sector>, s: State, f: nat, offset: nat, data: seq<byte>, n: nat, g: nat)
    requires Accounted(s) && f in s.files && n <= |data| && Written(view0, s, f, offset, data, n)
    requires g in s.files && g != f
    ensures FileOk(view0, g, s.files[g]) ==> FileOk(s.view, g, s.files[g])
    ensures Content(s.view, s.files[g]) == Content(view0, s.files[g])
  {
    assert Owns(s.owner, g, s.files[g]);
    assert !IsDataOf(s.owner, f, g);
    assert forall r :: 0 <= r < |s.files[g].blocks| ==> !IsDataOf(s.owner, f, s.files[g].blocks[r]);
    SameSectors(view0, s.view, g, s.files[g]);
  }

  /** A complete write inside a file means what Splice says. */
  lemma WrittenContent(view0: seq<Sector>, s: State, f: nat, offset: nat, data: seq<byte>)
    requires f in s.files && Written(view0, s, f, offset, data, |data|)
    requires offset + |data| <= s.files[f].len
    ensures Content(s.view, s.files[f]) == Splice(Content(view0, s.files[f]), offset, data)
  {
    hide ByteAt;
  }

  lemma WrittenOthersKept(s0: State, s1: State, f: nat, offset: nat, data: seq<byte>)
    requires f in s1.files && s1 == s0.(view := s1.view) && Written(s0.view, s1, f, offset, data, |data|)
    ensures OthersKept(f, s0, s1)
  {
    hide ByteAt;
  }

  /** Extending first and writing then is one splice. */
  lemma SpliceAfterExtension(c: seq<byte>, offset: nat, data: seq<byte>)
    requires |c| <= offset + |data|
    ensures Splice(Splice(c, offset + |data|, []), offset, data) == Splice(c, offset, data)
  {
  }

  lemma SpliceWhole(c: seq<byte>, data: seq<byte>)
    requires |c| <= |data|
    ensures Splice(c, 0, data) == data
  {
  }

  lemma ExtensionContent(view0: seq<Sector>, view1: seq<Sector>, ino: nat, f0: FileRec, f1: FileRec)
    requires f0.len <= f1.len && FileOk(view0, ino, f0)
    requires forall k: nat :: ByteAt(view1, f1.blocks, k) == ByteAt(view0, f0.blocks, k)
    ensures Content(view1, f1) == Splice(Content(view0, f0), f1.len, [])
  {
    hide ByteAt;
  }

  /** Granting f a sector, persisting the free map and zeroing the sector
      amounts to GrantedZero, and leaves f's other sectors alone. */
  lemma AfterZeroing(s0: State, s1: State, f: nat, x: Word, quiet: bool)
    requires Accounted(s0) && f in s0.files && (f != 0 || quiet) && FirstFree(s0.bits, x)
    requires s1 == Grant(s0, ToFile(f), x).(view := s1.view) && |s1.view| == |s0.view| && x < |s0.view|
    requires forall y: nat :: quiet || !IsDataOf(s1.owner, 0, y) ==> Sec(s1.view, y) == Sec(s0.view, y)
    ensures GrantedZero(f, s0, s1.(view := s1.view[x := ZERO_SECTOR]), x, quiet)
    ensures forall q :: 0 <= q < |s0.files[f].blocks| ==>
              Sec(s1.view[x := ZERO_SECTOR], s0.files[f].blocks[q]) == Sec(s0.view, s0.files[f].blocks[q])
  {
    assert x !in s0.owner;
    assert Owns(s0.owner, f, s0.files[f]);
    assert forall q :: 0 <= q < |s0.files[f].blocks| ==> !IsDataOf(s1.owner, 0, s0.files[f].blocks[q]) || quiet;
  }

  /** A write up to end is taken to reach past the end of a file of len bytes,
      because the file has no byte at end - 1. */
  predicate Extends(len: nat, end: nat) {
    end > len || end == 0
  }

  /** What writing data at offset does to the volume: f's bytes are spliced, f
      takes the sectors it needs from the front of the free list, and the other
      files keep theirs. */
  ghost predicate Wrote(f: nat, s0: State, s1: State, offset: nat, data: seq<byte>) {
    && f in s0.files && f in s1.files && offset + |data| <= MAX_LENGTH
    && s1.files == s0.files[f := s1.files[f]]
    && s1.files[f] == s0.files[f].(len := Max(s0.files[f].len, offset + |data|), blocks := s1.files[f].blocks)
    && Content(s1.view, s1.files[f]) == Splice(Content(s0.view, s0.files[f]), offset, data)
    && Taken(s0.bits, s1.bits, s0.files[f].blocks, s1.files[f].blocks)
    && OthersKept(f, s0, s1)
  }

  lemma WroteLength(f: nat, s0: State, s1: State, offset: nat, data: seq<byte>)
    requires Wrote(f, s0, s1, offset, data)
    ensures f in s0.files && f in s1.files && s1.files[f].len == Max(s0.files[f].len, offset + |data|)
  {
    hide Content, Splice, OthersKept, Taken;
  }

  /** Extending a file and then writing inside it is one write. */
  lemma WroteInTwoSteps(f: nat, s0: State, s1: State, s2: State, offset: nat, data: seq<byte>)
    requires Wrote(f, s0, s1, offset + |data|, []) && Wrote(f, s1, s2, offset, data) && s2 == s1.(view := s2.view)
    requires s0.files[f].len <= offset + |data|
    ensures Wrote(f, s0, s2, offset, data)
  {
    hide Content, Splice, OthersKept, Taken;
    SpliceAfterExtension(Content(s0.view, s0.files[f]), offset, data);
    OthersKeptTrans(f, s0, s1, s2);
  }

  /** What a complete write inside f means for f, for the others and for the free map. */
  lemma AfterWrite(s0: State, s1: State, f: nat, offset: nat, data: seq<byte>)
    requires Accounted(s0) && f in s0.files && s1 == s0.(view := s1.view)
    requires offset + |data| <= s0.files[f].len && Written(s0.view, s1, f, offset, data, |data|)
    requires s0.files[f].len <= MAX_LENGTH
    ensures Wrote(f, s0, s1, offset, data)
    ensures f != 0 && Persisted(s0) ==> Persisted(s1)
  {
    hide Placed, Written, Content, Splice, OthersKept, BitsOf, Taken;
    TakenRefl(s0.bits, s0.files[f].blocks);
    AccountsIgnoreView(s0, s1.view);
    WrittenContent(s0.view, s1, f, offset, data);
    WrittenOthersKept(s0, s1, f, offset, data);
    if f != 0 && Persisted(s0) {
      WrittenKeepsOthers(s0.view, s1, f, offset, data, |data|, 0);
    }
  }

  /** Nothing on the disk has changed but the free-map file. */
  ghost predicate OnlyFreeMap(s0: State, s1: State) {
    && |s0.view| == |s1.view| && |s0.bits| == |s1.bits|
    && (forall y: nat :: IsDataOf(s0.owner, 0, y) <==> IsDataOf(s1.owner, 0, y))
    && (forall y: nat :: !IsDataOf(s0.owner, 0, y) ==> Sec(s1.view, y) == Sec(s0.view, y))
  }

  lemma OnlyFreeMapRefl(s: State)
    ensures OnlyFreeMap(s, s)
  {
  }

  lemma OnlyFreeMapTrans(s0: State, s1: State, s2: State)
    requires OnlyFreeMap(s0, s1) && OnlyFreeMap(s1, s2)
    ensures OnlyFreeMap(s0, s2)
  {
  }

  /** A dying file's index blocks outlast their release. */
  lemma DyingStored(s0: State, s1: State, f: nat, b: seq<Word>)
    requires OnlyFreeMap(s0, s1) && f != 0 && Dying(s0.owner, f, b) && Stored(s0.view, b, {})
    ensures Stored(s1.view, b, {})
  {
    hide Pack, Table;
    assert forall r :: 0 <= r < |b| ==> !IsDataOf(s0.owner, 0, b[r]);
  }

  /** A file that has no sectors yet. */
  lemma EmptyFile(s: State, f: nat, len: Word, isDir: bool)
    requires Accounted(s) && f !in s.files && f in s.owner && s.owner[f] == Node(f)
    requires forall x :: x in s.owner && s.owner[x].Block? ==> s.owner[x].ino != f
    ensures var rec := FileRec(isDir, len, []);
            var s' := s.(files := s.files[f := rec]);
            && Accounted(s') && OthersKept(f, s, s') && Stored(s.view, [], {})
            && (forall k: nat :: ByteAt(s.view, [], k) == 0)
            && InodeWords(rec)
            == ZERO_WORDS[LENGTH_SLOT := len][MAGIC_SLOT := INODE_MAGIC][IS_DIR_SLOT := if isDir then 1 else 0]
  {
    var s' := s.(files := s.files[f := FileRec(isDir, len, [])]);
    forall g | g in s'.files
      ensures Owns(s'.owner, g, s'.files[g])
    {
      assert g != f ==> Owns(s.owner, g, s.files[g]);
    }
  }

  lemma ZeroContent(view0: seq<Sector>, view1: seq<Sector>, f: FileRec)
    requires forall k: nat :: ByteAt(view0, [], k) == 0
    requires forall k: nat :: ByteAt(view1, f.blocks, k) == ByteAt(view0, [], k)
    ensures Content(view1, f) == Zeros(f.len)
  {
    hide ByteAt;
  }

  /** Giving the inode's sector back first leaves the rest of the file to follow. */
  lemma AfterNodeRelease(s0: State, s1: State, f: nat, b: seq<Word>)
    requires f != 0 && Dying(s0.owner, f, b) && Holds(s0.owner, f, b, 0, |b|) && Stored(s0.view, b, {})
    requires f in s0.owner && s0.owner[f] == Node(f) && s1.owner == s0.owner - {f} && OnlyFreeMap(s0, s1)
    ensures Dying(s1.owner, f, b) && Holds(s1.owner, f, b, 0, |b|) && Stored(s1.view, b, {})
  {
    DyingStored(s0, s1, f, b);
  }
}
