/** A volume on values: what the files own, what the disk must then hold, and
    what it means for a file to be a plain sequence of bytes. */
module Volume {
  import opened Words
  import opened BlockTree
  import opened Bitmaps

  const INODE_MAGIC: Word := 0x494e4f44
  const IS_DIR_SLOT: nat := 125
  const LENGTH_SLOT: nat := 126
  const MAGIC_SLOT: nat := 127

  /** The one thing a sector is for: a file's inode, or the sector with the given role in a file. */
  datatype Tag = Node(ino: nat) | Block(ino: nat, role: nat)

  datatype FileRec = FileRec(isDir: bool, len: Word, blocks: seq<Word>)

  datatype State = State(view: seq<Sector>, bits: seq<bool>, files: map<nat, FileRec>, owner: map<nat, Tag>)

  function Sec(view: seq<Sector>, s: nat): Sector {
    if s < |view| then view[s] else ZERO_SECTOR
  }

  function At(b: seq<Word>, r: nat): Word {
    if r < |b| then b[r] else 0
  }

  // ----- One file on the disk -----

  function InodeWord(f: FileRec, j: nat): Word {
    if j <= INDIRECT then At(f.blocks, j)
    else if j == DOUBLY_SLOT then At(f.blocks, DOUBLY)
    else if j == IS_DIR_SLOT then (if f.isDir then 1 else 0)
    else if j == LENGTH_SLOT then f.len
    else INODE_MAGIC
  }

  /** The on-disk inode: 123 direct pointers, the indirect and the doubly
      indirect pointer, and the header words. */
  function InodeWords(f: FileRec): Words {
    seq(WORDS_PER_SECTOR, j requires 0 <= j < WORDS_PER_SECTOR => InodeWord(f, j))
  }

  /** Every index block of a file, except those in skip, is on disk. */
  ghost predicate Stored(view: seq<Sector>, b: seq<Word>, skip: set<nat>) {
    forall p :: 0 <= p < |b| && IsIndex(p) && p !in skip ==> Sec(view, b[p]) == Pack(Table(b, p))
  }

  function DataSector(view: seq<Sector>, b: seq<Word>, i: nat): Sector {
    if DataRole(i) < |b| then Sec(view, b[DataRole(i)]) else ZERO_SECTOR
  }

  /** Byte k of a file, which may lie past its end. */
  function ByteAt(view: seq<Sector>, b: seq<Word>, k: nat): byte {
    DataSector(view, b, k / SECTOR_SIZE)[k % SECTOR_SIZE]
  }

  function Content(view: seq<Sector>, f: FileRec): (c: seq<byte>)
    ensures |c| == f.len
  {
    seq(f.len, k requires 0 <= k < f.len => ByteAt(view, f.blocks, k))
  }

  /** The disk holds the file: its tree has exactly the sectors its length
      needs, and the rest of its last sector is zero. */
  ghost predicate FileOk(view: seq<Sector>, ino: nat, f: FileRec) {
    && f.len <= MAX_LENGTH && |f.blocks| == Cost(Sectors(f.len))
    && Sec(view, ino) == Pack(InodeWords(f))
    && Stored(view, f.blocks, {})
    && (forall k :: k >= f.len ==> ByteAt(view, f.blocks, k) == 0)
  }

  lemma StoredSkipMore(view: seq<Sector>, b: seq<Word>, skip: set<nat>, p: nat)
    requires Stored(view, b, skip)
    ensures Stored(view, b, skip + {p})
  {
  }

  lemma StoredAt(view: seq<Sector>, b: seq<Word>, skip: set<nat>, p: nat)
    requires Stored(view, b, skip) && p < |b| && IsIndex(p) && p !in skip
    ensures Sec(view, b[p]) == Pack(Table(b, p))
  {
  }

  /** The inode's pointers after the file has grown by one of its direct sectors. */
  lemma InodeWordsAfterPush(f: FileRec, x: Word)
    requires |f.blocks| < DIRECT
    ensures InodeWords(f.(blocks := f.blocks + [x])) == InodeWords(f)[|f.blocks| := x]
  {
  }

  /** What the words of an inode are. */
  lemma InodePointers(f: FileRec)
    ensures InodeWords(f)[INDIRECT] == At(f.blocks, INDIRECT)
    ensures InodeWords(f)[DOUBLY_SLOT] == At(f.blocks, DOUBLY)
    ensures InodeWords(f)[LENGTH_SLOT] == f.len
    ensures InodeWords(f)[IS_DIR_SLOT] == (if f.isDir then 1 else 0) && InodeWords(f)[MAGIC_SLOT] == INODE_MAGIC
  {
  }

  lemma InodeWordsLength(f: FileRec, len: Word)
    ensures InodeWords(f.(len := len)) == InodeWords(f)[LENGTH_SLOT := len]
  {
  }

  /** The inode's pointers after the subtree below one of its index pointers has grown. */
  lemma InodeWordsAfterIndirect(f: FileRec, b: seq<Word>)
    requires f.blocks <= b && INDIRECT <= |f.blocks| && INDIRECT < |b| && (|b| <= DOUBLY || |b| == |f.blocks|)
    ensures InodeWords(f.(blocks := b)) == InodeWords(f)[INDIRECT := b[INDIRECT]]
  {
  }

  lemma InodeWordsAfterDoubly(f: FileRec, b: seq<Word>)
    requires f.blocks <= b && DOUBLY <= |f.blocks| && DOUBLY < |b|
    ensures InodeWords(f.(blocks := b)) == InodeWords(f)[DOUBLY_SLOT := b[DOUBLY]]
  {
  }

  // ----- Walking the tree -----

  /** Where the three regions of a file's index lead. */
  lemma WalkDirect(f: FileRec, index: nat)
    requires index < DIRECT
    ensures InodeWords(f)[index] == At(f.blocks, DataRole(index))
  {
  }

  lemma WalkIndirect(f: FileRec, index: nat)
    requires DIRECT <= index < DIRECT + FANOUT && HasPath(f.blocks, index)
    ensures INDIRECT < |f.blocks| && InodeWords(f)[INDIRECT] == f.blocks[INDIRECT]
    ensures Table(f.blocks, INDIRECT)[index - DIRECT] == At(f.blocks, DataRole(index))
  {
  }

  lemma WalkDoubly(f: FileRec, index: nat)
    requires DIRECT + FANOUT <= index < MAX_SECTORS && HasPath(f.blocks, index)
    ensures DOUBLY < |f.blocks| && InodeWords(f)[DOUBLY_SLOT] == f.blocks[DOUBLY]
    ensures var first, second := (index - DIRECT - FANOUT) / FANOUT, (index - DIRECT - FANOUT) % FANOUT;
            && first < FANOUT && Child(DOUBLY, first) < |f.blocks| && IsIndex(Child(DOUBLY, first))
            && Table(f.blocks, DOUBLY)[first] == f.blocks[Child(DOUBLY, first)]
            && Table(f.blocks, Child(DOUBLY, first))[second] == At(f.blocks, DataRole(index))
  {
  }

  /** The index blocks above the index-th data sector exist, whether or not that sector does. */
  predicate HasPath(b: seq<Word>, index: nat) {
    || index < DIRECT
    || (index < DIRECT + FANOUT && INDIRECT < |b|)
    || (DIRECT + FANOUT <= index && DOUBLY < |b| && Child(DOUBLY, (index - DIRECT - FANOUT) / FANOUT) < |b|)
  }

  lemma PathInFile(b: seq<Word>, index: nat)
    requires DataRole(index) < |b|
    ensures HasPath(b, index)
  {
  }

  lemma FileOkFacts(view: seq<Sector>, ino: nat, f: FileRec)
    requires FileOk(view, ino, f)
    ensures |f.blocks| == Cost(Sectors(f.len)) && f.len <= MAX_LENGTH && Stored(view, f.blocks, {})
    ensures forall k :: k >= f.len ==> ByteAt(view, f.blocks, k) == 0
  {
  }

  /** The sectors of a file's first n data blocks, in order. */
  function DataSectors(b: seq<Word>, n: nat): (r: seq<Word>)
    ensures |r| == n && forall i :: 0 <= i < n ==> r[i] == At(b, DataRole(i))
  {
    seq(n, i requires 0 <= i < n => At(b, DataRole(i)))
  }

  /** The data blocks below a leaf index block follow each other. */
  lemma LeafRoles(p: nat, base: nat, i: nat)
    requires i < FANOUT
    requires (p == INDIRECT && base == DIRECT)
          || (exists k: nat :: p == Child(DOUBLY, k) && base == DIRECT + FANOUT + FANOUT * k)
    ensures DataRole(base + i) == Child(p, i)
  {
  }

  // ----- Who owns which sector -----

  ghost predicate Owns(owner: map<nat, Tag>, ino: nat, f: FileRec) {
    && ino in owner && owner[ino] == Node(ino)
    && forall r :: 0 <= r < |f.blocks| ==> f.blocks[r] in owner && owner[f.blocks[r]] == Block(ino, r)
  }

  /** The owner of a sector that belongs to a live file is where the file says it is. */
  ghost predicate Exact(owner: map<nat, Tag>, files: map<nat, FileRec>) {
    forall x :: x in owner ==>
      match owner[x]
      case Node(i) => i == x
      case Block(i, r) => i in files ==> r < |files[i].blocks| && files[i].blocks[r] == x
  }

  /** Every sector has at most one role in at most one file. */
  ghost predicate Placed(s: State) {
    && (forall x :: x in s.owner ==> x < |s.bits|)
    && Exact(s.owner, s.files)
    && 0 in s.owner && s.owner[0] == Node(0)
    && forall i :: i in s.files ==> Owns(s.owner, i, s.files[i])
  }

  /** ... and is marked in the free map exactly if it has one. */
  ghost predicate Accounted(s: State) {
    Placed(s) && forall x :: 0 <= x < |s.bits| ==> (s.bits[x] <==> x in s.owner)
  }

  lemma AccountedIsPlaced(s: State)
    requires Accounted(s)
    ensures Placed(s)
  {
  }

  /** The free-map file holds the free map. */
  ghost predicate Persisted(s: State) {
    && 0 in s.files && s.files[0].len == FileSize(|s.bits|)
    && BitsOf(Content(s.view, s.files[0]), |s.bits|) == s.bits
  }

  /** No sector is marked without belonging to a live file: nothing leaks. */
  ghost predicate NoLeak(s: State) {
    forall x :: x in s.owner ==> s.owner[x].ino in s.files
  }

  /** Ownership does not depend on what the sectors hold. */
  lemma AccountsIgnoreView(s: State, view: seq<Sector>)
    requires Accounted(s)
    ensures Accounted(s.(view := view))
  {
  }

  // ----- Giving sectors back -----

  /** The roles [lo, hi) of file f have been given back, and nothing else. */
  ghost predicate Released(owner0: map<nat, Tag>, owner1: map<nat, Tag>, f: nat, lo: nat, hi: nat) {
    && (forall x :: x in owner1 ==> x in owner0 && owner1[x] == owner0[x])
    && (forall x :: x in owner0 ==>
          (x in owner1 <==> !(owner0[x].Block? && owner0[x].ino == f && lo <= owner0[x].role < hi)))
  }

  /** A removed file whose sectors are being given back: its tags still lead to the sectors b. */
  ghost predicate Dying(owner: map<nat, Tag>, f: nat, b: seq<Word>) {
    && (forall x :: x in owner && owner[x].Block? && owner[x].ino == f ==> owner[x].role < |b| && b[owner[x].role] == x)
    && (forall r :: 0 <= r < |b| && b[r] in owner ==> owner[b[r]] == Block(f, r))
  }

  /** Its roles [lo, hi) have not been given back yet. */
  ghost predicate Holds(owner: map<nat, Tag>, f: nat, b: seq<Word>, lo: nat, hi: nat) {
    hi <= |b| && forall r :: lo <= r < hi ==> b[r] in owner && owner[b[r]] == Block(f, r)
  }

  lemma HoldsPart(owner: map<nat, Tag>, f: nat, b: seq<Word>, lo: nat, mid: nat, hi: nat)
    requires Holds(owner, f, b, lo, hi) && lo <= mid <= hi
    ensures Holds(owner, f, b, lo, mid) && Holds(owner, f, b, mid, hi)
  {
  }

  lemma ReleasedOne(owner: map<nat, Tag>, f: nat, b: seq<Word>, r: nat)
    requires Dying(owner, f, b) && Holds(owner, f, b, r, r + 1)
    ensures Released(owner, owner - {b[r]}, f, r, r + 1)
  {
  }

  lemma ReleasedNothing(owner: map<nat, Tag>, f: nat, r: nat)
    ensures Released(owner, owner, f, r, r)
  {
  }

  /** Adjacent ranges, in either order. */
  lemma ReleasedBoth(owner0: map<nat, Tag>, owner1: map<nat, Tag>, owner2: map<nat, Tag>, f: nat, lo: nat, mid: nat,
                     hi: nat)
    requires lo <= mid <= hi
    requires (Released(owner0, owner1, f, lo, mid) && Released(owner1, owner2, f, mid, hi))
          || (Released(owner0, owner1, f, mid, hi) && Released(owner1, owner2, f, lo, mid))
    ensures Released(owner0, owner2, f, lo, hi)
  {
  }

  /** What is left of a dying file after some of its roles are gone. */
  lemma ReleasedLeaves(owner0: map<nat, Tag>, owner1: map<nat, Tag>, f: nat, b: seq<Word>, lo: nat, hi: nat, from: nat,
                       to: nat)
    requires Released(owner0, owner1, f, lo, hi) && Dying(owner0, f, b)
    ensures Dying(owner1, f, b)
    ensures Holds(owner0, f, b, from, to) && (to <= lo || hi <= from) ==> Holds(owner1, f, b, from, to)
  {
  }

  /** The disk holds every file. */
  ghost predicate AllOk(s: State) {
    forall g :: g in s.files ==> FileOk(s.view, g, s.files[g])
  }

  /** Removing a file from the books turns its sectors into ones to give back. */
  lemma DropKeepsAccounts(s: State, f: nat)
    requires Accounted(s) && f in s.files
    ensures Accounted(s.(files := s.files - {f}))
    ensures Dying(s.owner, f, s.files[f].blocks) && Holds(s.owner, f, s.files[f].blocks, 0, |s.files[f].blocks|)
    ensures f in s.owner && s.owner[f] == Node(f)
  {
    assert Owns(s.owner, f, s.files[f]);
    forall i | i in s.files - {f}
      ensures Owns(s.owner, i, s.files[i])
    {
      assert Owns(s.owner, i, s.files[i]);
    }
  }

  /** Once its inode and all its roles are given back, a file owns nothing. */
  lemma AllReleased(s: State, owner1: map<nat, Tag>, owner2: map<nat, Tag>, f: nat)
    requires Placed(s) && f in s.files
    requires owner1 == s.owner - {f} && Released(owner1, owner2, f, 0, |s.files[f].blocks|)
    ensures forall x :: x in owner2 <==> x in s.owner && s.owner[x].ino != f
    ensures forall x :: x in owner2 ==> owner2[x] == s.owner[x]
  {
    assert Owns(s.owner, f, s.files[f]);
  }

  // ----- Granting a free sector -----

  datatype Grantee = ToInode | ToFile(ino: nat)

  function Grant(s: State, g: Grantee, x: Word): State
    requires g.ToFile? ==> g.ino in s.files
    requires x < |s.bits|
  {
    var s' := s.(bits := s.bits[x := true]);
    match g
    case ToInode => s'.(owner := s.owner[x := Node(x)])
    case ToFile(i) =>
      var f := s.files[i];
      s'.(owner := s.owner[x := Block(i, |f.blocks|)], files := s.files[i := f.(blocks := f.blocks + [x])])
  }

  lemma GrantKeepsAccounts(s: State, g: Grantee, x: Word)
    requires Accounted(s) && (g.ToFile? ==> g.ino in s.files)
    requires x < |s.bits| && !s.bits[x]
    ensures Accounted(Grant(s, g, x))
  {
    var s' := Grant(s, g, x);
    assert x !in s.owner;
    forall i | i in s'.files
      ensures Owns(s'.owner, i, s'.files[i])
    {
      assert Owns(s.owner, i, s.files[i]);
    }
  }

  /** Distinct roles of a file are distinct sectors, none of them sector 0 or its inode. */
  lemma RolesDistinct(s: State, i: nat, q: nat, r: nat)
    requires Accounted(s) && i in s.files
    requires q < r < |s.files[i].blocks|
    ensures s.files[i].blocks[q] != s.files[i].blocks[r]
  {
    assert Owns(s.owner, i, s.files[i]);
  }

  /** A byte inside a file lies in one of its sectors. */
  lemma InFile(view: seq<Sector>, ino: nat, f: FileRec, pos: nat)
    requires FileOk(view, ino, f) && pos < f.len
    ensures pos / SECTOR_SIZE < Sectors(f.len) && pos / SECTOR_SIZE < MAX_SECTORS
    ensures DataRole(pos / SECTOR_SIZE) < |f.blocks| && HasPath(f.blocks, pos / SECTOR_SIZE)
  {
    DataRoleBelowCost(pos / SECTOR_SIZE, Sectors(f.len));
    PathInFile(f.blocks, pos / SECTOR_SIZE);
  }

  /** A file's sectors are on the device. */
  lemma InRange(s: State, f: nat, r: nat)
    requires Placed(s) && f in s.files && r < |s.files[f].blocks|
    ensures s.files[f].blocks[r] < |s.bits| && s.files[f].blocks[r] != 0
  {
    assert Owns(s.owner, f, s.files[f]);
  }

  /** byte_to_sector finds a real sector for every byte inside a file. */
  lemma ByteHasSector(s: State, f: nat, pos: nat)
    requires Accounted(s) && f in s.files && FileOk(s.view, f, s.files[f]) && pos < s.files[f].len
    ensures 0 < At(s.files[f].blocks, DataRole(pos / SECTOR_SIZE)) < |s.bits|
  {
    InFile(s.view, f, s.files[f], pos);
    InRange(s, f, DataRole(pos / SECTOR_SIZE));
  }

  lemma InodeInRange(s: State, f: nat)
    requires Placed(s) && f in s.files
    ensures f < |s.bits|
  {
    assert Owns(s.owner, f, s.files[f]);
  }

  lemma OwnedInRange(s: State, x: nat)
    requires Accounted(s) && x in s.owner
    ensures x < |s.bits|
  {
  }

  /** A pointer is zero exactly if the sector it should lead to is still missing. */
  lemma EntryIsZeroIfMissing(s: State, f: nat, r: nat)
    requires Accounted(s) && f in s.files
    ensures At(s.files[f].blocks, r) == 0 <==> |s.files[f].blocks| <= r
  {
    if r < |s.files[f].blocks| {
      InRange(s, f, r);
    }
  }

  lemma ReleaseKeepsAccounts(s: State, x: nat)
    requires Accounted(s) && x in s.owner && x != 0 && s.owner[x].ino !in s.files
    ensures x < |s.bits| && s.bits[x]
    ensures Accounted(s.(bits := s.bits[x := false], owner := s.owner - {x}))
  {
    var s' := s.(bits := s.bits[x := false], owner := s.owner - {x});
    forall i | i in s'.files
      ensures Owns(s'.owner, i, s'.files[i])
    {
      assert Owns(s.owner, i, s.files[i]);
    }
  }

  /** A new volume: only the two reserved sectors are marked. */
  lemma NewVolumeAccounted(s: State)
    requires |s.bits| >= 2 && s.bits == seq(|s.bits|, _ => false)[0 := true][1 := true]
    requires s.files == map[] && s.owner == map[0 := Node(0), 1 := Node(1)]
    ensures Accounted(s)
  {
  }
}
