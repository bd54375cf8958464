/** What growing a file does to the volume: the file's tree gains sectors at its
    end, taken from the front of the free list, and nothing else is disturbed. */
module Growth {
  import opened Words
  import opened BlockTree
  import opened Bitmaps
  import opened Volume

  /** The sectors of b1 after those of b0 are the first of the free list. */
  ghost predicate Taken(bits0: seq<bool>, bits1: seq<bool>, b0: seq<Word>, b1: seq<Word>) {
    var free := FreeList(bits0);
    && |bits0| == |bits1| && |b0| <= |b1| <= |b0| + |free|
    && b1 == b0 + free[..|b1| - |b0|]
    && FreeList(bits1) == free[|b1| - |b0|..]
  }

  /** Data sectors keep their bytes; new ones are zero. */
  ghost predicate DataKept(view0: seq<Sector>, view1: seq<Sector>, b0: seq<Word>, b1: seq<Word>) {
    forall r :: 0 <= r < |b1| && !IsIndex(r) ==>
      Sec(view1, b1[r]) == if r < |b0| then Sec(view0, b0[r]) else ZERO_SECTOR
  }

  /** Sectors of files other than f keep their owner and, if they do not belong
      to the free-map file, their bytes; only f gains or loses sectors. */
  ghost predicate OthersKept(f: nat, s0: State, s1: State) {
    && |s0.view| == |s1.view|
    && (forall x :: x in s0.owner && s0.owner[x].ino != f ==> x in s1.owner && s1.owner[x] == s0.owner[x])
    && (forall x :: x in s1.owner && s1.owner[x].ino != f ==> x in s0.owner && s1.owner[x] == s0.owner[x])
    && (forall x :: x in s0.owner && s0.owner[x].ino != f && s0.owner[x].ino != 0 ==>
          Sec(s1.view, x) == Sec(s0.view, x))
  }

  lemma TakenRefl(bits: seq<bool>, b: seq<Word>)
    ensures Taken(bits, bits, b, b)
  {
    assert b == b + FreeList(bits)[..0];
  }

  lemma TakenFront(bits0: seq<bool>, bits1: seq<bool>, b: seq<Word>)
    requires Taken(bits0, bits1, [], b)
    ensures FreeList(bits0) == b + FreeList(bits1)
  {
    hide FreeFrom;
    assert FreeList(bits0) == FreeList(bits0)[..|b|] + FreeList(bits0)[|b|..];
  }

  /** The marked sectors come first on the device. */
  ghost predicate Front(bits: seq<bool>) {
    forall x, y :: 0 <= x < y < |bits| && bits[y] ==> bits[x]
  }

  lemma {:induction false} FreeFromMembers(bits: seq<bool>, from: nat, x: nat)
    requires from <= |bits|
    ensures x in FreeFrom(bits, from) <==> from <= x < |bits| && !bits[x]
    decreases |bits| - from
  {
    if from < |bits| {
      var rest := FreeFrom(bits, from + 1);
      assert FreeFrom(bits, from) == if bits[from] then rest else [from] + rest;
      hide FreeFrom;
      FreeFromMembers(bits, from + 1, x);
    }
  }

  lemma {:induction false} FreeFromIncreases(bits: seq<bool>, from: nat, i: nat, j: nat)
    requires from <= |bits| && i < j < |FreeFrom(bits, from)|
    ensures FreeFrom(bits, from)[i] < FreeFrom(bits, from)[j]
    decreases |bits| - from
  {
    if bits[from] {
      FreeFromIncreases(bits, from + 1, i, j);
    } else if i > 0 {
      FreeFromIncreases(bits, from + 1, i - 1, j - 1);
    } else {
      var rest := FreeFrom(bits, from + 1);
      assert rest[j - 1] in rest;
      FreeFromMembers(bits, from + 1, rest[j - 1]);
    }
  }

  /** Taking the first free sectors keeps the marked ones in front. */
  lemma TakenKeepsFront(bits0: seq<bool>, bits1: seq<bool>, b0: seq<Word>, b1: seq<Word>)
    requires Taken(bits0, bits1, b0, b1) && Front(bits0)
    ensures Front(bits1)
  {
    hide FreeFrom;
    var free, n := FreeList(bits0), |b1| - |b0|;
    forall x: nat, y: nat | x < y < |bits1| && !bits1[x]
      ensures !bits1[y]
    {
      FreeFromMembers(bits1, 0, x);
      var i :| 0 <= i < |FreeList(bits1)| && FreeList(bits1)[i] == x;
      assert free[n + i] == x;
      FreeFromMembers(bits0, 0, x);
      FreeFromMembers(bits0, 0, y);
      var j :| 0 <= j < |free| && free[j] == y;
      if j < n + i {
        FreeFromIncreases(bits0, 0, j, n + i);
      }
      assert FreeList(bits1)[j - n] == y;
      FreeFromMembers(bits1, 0, y);
    }
  }

  lemma OthersKeptRefl(f: nat, s: State)
    ensures OthersKept(f, s, s)
  {
  }

  lemma OthersKeptTrans(f: nat, s0: State, s1: State, s2: State)
    requires OthersKept(f, s0, s1) && OthersKept(f, s1, s2)
    ensures OthersKept(f, s0, s2)
  {
  }

  ghost predicate Grown(f: nat, s0: State, s1: State) {
    && f in s0.files && f in s1.files
    && s1.files == s0.files[f := s0.files[f].(blocks := s1.files[f].blocks)]
    && Taken(s0.bits, s1.bits, s0.files[f].blocks, s1.files[f].blocks)
    && DataKept(s0.view, s1.view, s0.files[f].blocks, s1.files[f].blocks)
    && OthersKept(f, s0, s1)
  }

  lemma GrownRefl(f: nat, s: State)
    requires f in s.files
    ensures Grown(f, s, s)
  {
    var b := s.files[f].blocks;
    assert b == b + FreeList(s.bits)[..0];
  }

  lemma TakenTrans(bits0: seq<bool>, bits1: seq<bool>, bits2: seq<bool>, b0: seq<Word>, b1: seq<Word>, b2: seq<Word>)
    requires Taken(bits0, bits1, b0, b1) && Taken(bits1, bits2, b1, b2)
    ensures Taken(bits0, bits2, b0, b2) && b1 <= b2
  {
    hide FreeFrom;
    TwoSlices(FreeList(bits0), |b1| - |b0|, |b2| - |b1|, b0);
  }

  lemma TwoSlices(free: seq<nat>, k: nat, l: nat, b: seq<nat>)
    requires k + l <= |free|
    ensures (b + free[..k]) + free[k..][..l] == b + free[..k + l]
    ensures free[k..][l..] == free[k + l..]
  {
  }

  lemma DataKeptTrans(view0: seq<Sector>, view1: seq<Sector>, view2: seq<Sector>, b0: seq<Word>, b1: seq<Word>,
                      b2: seq<Word>)
    requires DataKept(view0, view1, b0, b1) && DataKept(view1, view2, b1, b2) && |b0| <= |b1| && b1 <= b2
    ensures DataKept(view0, view2, b0, b2)
  {
    hide Sec;
  }

  lemma GrownTrans(f: nat, s0: State, s1: State, s2: State)
    requires Grown(f, s0, s1) && Grown(f, s1, s2)
    ensures Grown(f, s0, s2)
  {
    hide Taken, DataKept, OthersKept;
    TakenLonger(s0.bits, s1.bits, s0.files[f].blocks, s1.files[f].blocks);
    var b0, b1, b2 := s0.files[f].blocks, s1.files[f].blocks, s2.files[f].blocks;
    TakenTrans(s0.bits, s1.bits, s2.bits, b0, b1, b2);
    DataKeptTrans(s0.view, s1.view, s2.view, b0, b1, b2);
    OthersKeptTrans(f, s0, s1, s2);
  }

  lemma TakenLonger(bits0: seq<bool>, bits1: seq<bool>, b0: seq<Word>, b1: seq<Word>)
    requires Taken(bits0, bits1, b0, b1)
    ensures |b0| <= |b1|
  {
  }

  /** Sectors in use and sectors left add up. */
  lemma GrownRoom(f: nat, s0: State, s1: State)
    requires Grown(f, s0, s1)
    ensures f in s0.files && f in s1.files && s0.files[f].blocks <= s1.files[f].blocks
    ensures s1.files[f] == s0.files[f].(blocks := s1.files[f].blocks)
    ensures |s1.files[f].blocks| + |FreeList(s1.bits)| == |s0.files[f].blocks| + |FreeList(s0.bits)|
  {
    hide FreeFrom, DataKept, OthersKept;
  }

  /** s1 is s0 after f was granted the first free sector x and x was zeroed;
      unless quiet, the free-map file may have been rewritten on the way. */
  ghost predicate GrantedZero(f: nat, s0: State, s1: State, x: Word, quiet: bool) {
    && f in s0.files && x < |s0.bits| && !s0.bits[x] && (forall i :: 0 <= i < x ==> s0.bits[i])
    && s1 == Grant(s0, ToFile(f), x).(view := s1.view)
    && |s1.view| == |s0.view| && Sec(s1.view, x) == ZERO_SECTOR
    && forall y :: y in s0.owner && (quiet || s0.owner[y].ino != 0) ==> Sec(s1.view, y) == Sec(s0.view, y)
  }

  lemma GrantedZeroGrows(f: nat, s0: State, s1: State, x: Word, quiet: bool)
    requires Accounted(s0) && (f != 0 || quiet) && GrantedZero(f, s0, s1, x, quiet)
    ensures Grown(f, s0, s1)
  {
    hide FreeFrom;
    FreeFromTakesHead(s0.bits, 0, x);
    var b := s0.files[f].blocks;
    assert Owns(s0.owner, f, s0.files[f]);
    assert b + [x] == b + FreeList(s0.bits)[..1];
  }

  /** Rewriting an index block of f is no change to data or to other files. */
  lemma IndexRewriteGrows(f: nat, s0: State, p: nat, data: Sector)
    requires Accounted(s0) && f in s0.files && p < |s0.files[f].blocks| && IsIndex(p)
    requires s0.files[f].blocks[p] < |s0.view|
    ensures Grown(f, s0, s0.(view := s0.view[s0.files[f].blocks[p] := data]))
  {
    GrownRefl(f, s0);
    assert Owns(s0.owner, f, s0.files[f]);
  }

  /** A file's bytes do not change when its tree grows. */
  lemma GrownBytes(view0: seq<Sector>, view1: seq<Sector>, b0: seq<Word>, b1: seq<Word>, k: nat)
    requires b0 <= b1 && DataKept(view0, view1, b0, b1)
    ensures ByteAt(view1, b1, k) == ByteAt(view0, b0, k)
  {
    var r := DataRole(k / SECTOR_SIZE);
    assert !IsIndex(r);
  }

  /** The index blocks of a file that gains one sector, whose parent is in memory. */
  lemma StoredAfterPush(view0: seq<Sector>, view1: seq<Sector>, b: seq<Word>, x: Word, skip: set<nat>)
    requires Stored(view0, b, skip) && ParentSkipped(|b|, skip)
    requires Sec(view1, x) == ZERO_SECTOR && forall q :: 0 <= q < |b| ==> Sec(view1, b[q]) == Sec(view0, b[q])
    ensures Stored(view1, b + [x], skip)
  {
    hide Pack;
    var b' := b + [x];
    forall p | 0 <= p < |b'| && IsIndex(p) && p !in skip
      ensures Sec(view1, b'[p]) == Pack(Table(b', p))
    {
      if p == |b| {
        TableOfNewest(b', p);
        ZeroSectorIsZeroWords();
      } else {
        TableAfterPush(b, x, p);
      }
    }
  }

  /** Files other than f and the free-map file are what they were. */
  lemma OtherFileKept(f: nat, s0: State, s1: State, g: nat)
    requires Accounted(s0) && OthersKept(f, s0, s1)
    requires g in s0.files && g != f && g != 0
    ensures FileOk(s0.view, g, s0.files[g]) ==> FileOk(s1.view, g, s0.files[g])
    ensures Content(s1.view, s0.files[g]) == Content(s0.view, s0.files[g])
  {
    var rec := s0.files[g];
    assert Owns(s0.owner, g, rec);
    SameSectors(s0.view, s1.view, g, rec);
  }

  /** What a file is depends only on its own sectors. */
  lemma SameSectors(view0: seq<Sector>, view1: seq<Sector>, g: nat, rec: FileRec)
    requires Sec(view1, g) == Sec(view0, g)
    requires forall r :: 0 <= r < |rec.blocks| ==> Sec(view1, rec.blocks[r]) == Sec(view0, rec.blocks[r])
    ensures FileOk(view0, g, rec) ==> FileOk(view1, g, rec)
    ensures Content(view1, rec) == Content(view0, rec)
  {
    hide Pack, InodeWords, Table, Sec;
    forall k: nat
      ensures ByteAt(view1, rec.blocks, k) == ByteAt(view0, rec.blocks, k)
    {
    }
  }

  /** After a file's tree has grown to fit a new length, recording that length
      in the inode makes it a file of that length: the old bytes, then zeros. */
  lemma ExtensionOk(f: nat, s0: State, s1: State, len: Word)
    requires Accounted(s1) && Grown(f, s0, s1) && len <= MAX_LENGTH && f < |s1.view|
    requires forall k :: k >= len ==> ByteAt(s0.view, s0.files[f].blocks, k) == 0
    requires |s1.files[f].blocks| == Cost(Sectors(len)) && Stored(s1.view, s1.files[f].blocks, {})
    ensures var rec := s1.files[f].(len := len);
            var view := s1.view[f := Pack(InodeWords(rec))];
            FileOk(view, f, rec)
              && forall k: nat :: ByteAt(view, rec.blocks, k) == ByteAt(s0.view, s0.files[f].blocks, k)
  {
    hide Pack, InodeWords, Table;
    var b := s1.files[f].blocks;
    var rec := s1.files[f].(len := len);
    var view := s1.view[f := Pack(InodeWords(rec))];
    assert forall r :: 0 <= r < |b| ==> Sec(view, b[r]) == Sec(s1.view, b[r]) by {
      assert Owns(s1.owner, f, s1.files[f]);
    }
    forall k: nat
      ensures ByteAt(view, b, k) == ByteAt(s0.view, s0.files[f].blocks, k)
    {
      GrownBytes(s0.view, s1.view, s0.files[f].blocks, b, k);
    }
  }

  /** Rewriting a sector of one file is invisible in every other. */
  lemma RewriteKeepsFile(s: State, f: nat, r: nat, data: Sector, g: nat)
    requires Accounted(s) && f in s.files && g in s.files && g != f
    requires r < |s.files[f].blocks| && s.files[f].blocks[r] < |s.view|
    ensures var s' := s.(view := s.view[s.files[f].blocks[r] := data]);
            && Accounted(s')
            && (FileOk(s.view, g, s.files[g]) ==> FileOk(s'.view, g, s.files[g]))
            && Content(s'.view, s.files[g]) == Content(s.view, s.files[g])
  {
    hide FileOk, Content;
    assert Owns(s.owner, f, s.files[f]) && Owns(s.owner, g, s.files[g]);
    SameSectors(s.view, s.view[s.files[f].blocks[r] := data], g, s.files[g]);
  }

  /** Recording a new length in f's inode concerns f alone. */
  lemma InodeRewriteKeepsOthers(f: nat, s: State, rec: FileRec, data: Sector)
    requires Accounted(s) && f in s.files && f < |s.view| && rec.blocks == s.files[f].blocks
    ensures var s' := s.(files := s.files[f := rec], view := s.view[f := data]);
            && Accounted(s') && OthersKept(f, s, s')
            && forall g :: g in s.files && g != f ==>
                 && (FileOk(s.view, g, s.files[g]) ==> FileOk(s'.view, g, s.files[g]))
                 && Content(s'.view, s.files[g]) == Content(s.view, s.files[g])
  {
    hide FileOk, Content;
    var s' := s.(files := s.files[f := rec], view := s.view[f := data]);
    assert Owns(s.owner, f, s.files[f]);
    forall g | g in s.files && g != f
      ensures FileOk(s.view, g, s.files[g]) ==> FileOk(s'.view, g, s.files[g])
      ensures Content(s'.view, s.files[g]) == Content(s.view, s.files[g])
    {
      assert Owns(s.owner, g, s.files[g]);
      SameSectors(s.view, s'.view, g, s.files[g]);
    }
    assert forall g :: g in s'.files ==> Owns(s'.owner, g, s'.files[g]) by {
      assert forall g :: g in s.files ==> Owns(s.owner, g, s.files[g]);
    }
  }
}
