/** The shape of a file's block tree, with no disk in sight.

    A file of n sectors owns n data sectors and the index blocks above them.
    Number all of them in the order in which a growing file first needs them:
    that number is a sector's ROLE. The roles of a shorter file are a prefix of
    the roles of a longer one, so a file's whole tree is a sequence `blocks`
    whose r-th element is the sector with role r, and every index block on disk
    is a function of that sequence. */
module BlockTree {
  import opened Words

  const DIRECT: nat := 123      // data pointers in the inode
  const FANOUT: nat := 128      // pointers in an index block
  const INDIRECT: nat := 123    // role of the indirect block, and its slot in the inode
  const DOUBLY: nat := 252      // role of the doubly indirect block
  const DOUBLY_SLOT: nat := 124 // its slot in the inode
  const LEAF_SPAN: nat := 129   // a second-level index block and its data

  const MAX_SECTORS: nat := 16635
  const MAX_LENGTH: nat := 8517120

  function Max(a: nat, b: nat): nat {
    if a < b then b else a
  }

  function Min(a: nat, b: nat): nat {
    if a < b then a else b
  }

  function Sectors(length: nat): nat {
    (length + SECTOR_SIZE - 1) / SECTOR_SIZE
  }

  /** The role of the i-th data sector. */
  function DataRole(i: nat): (r: nat)
    ensures !IsIndex(r)
  {
    if i < DIRECT then i
    else if i < DIRECT + FANOUT then i + 1
    else i + 3 + (i - DIRECT - FANOUT) / FANOUT
  }

  /** How many sectors a file with n data sectors owns, besides its inode. */
  function Cost(n: nat): nat {
    if n == 0 then 0 else DataRole(n - 1) + 1
  }

  /** How many sectors a write that ends at byte end needs and a file of len bytes does not have yet. */
  function Need(len: nat, end: nat): nat {
    if end <= len then 0
    else
      SectorsMonotone(len, end);
      Cost(Sectors(end)) - Cost(Sectors(len))
  }

  predicate IsLeafIndex(p: nat) {
    p == INDIRECT || (p > DOUBLY && (p - DOUBLY - 1) % LEAF_SPAN == 0)
  }

  predicate IsIndex(p: nat) {
    p == DOUBLY || IsLeafIndex(p)
  }

  /** The role that slot j of index block p points to. */
  function Child(p: nat, j: nat): nat {
    if p == DOUBLY then p + 1 + LEAF_SPAN * j else p + 1 + j
  }

  /** What index block p holds, given the file's sectors. */
  function Table(b: seq<Word>, p: nat): Words {
    seq(FANOUT, j requires 0 <= j < FANOUT => if Child(p, j) < |b| then b[Child(p, j)] else 0)
  }

  lemma DataRoleIncreases(i: nat, j: nat)
    requires i < j
    ensures DataRole(i) < DataRole(j)
  {
  }

  /** Consecutive data sectors are at most three roles apart. */
  lemma DataRoleGap(i: nat)
    ensures DataRole(i) < DataRole(i + 1) <= DataRole(i) + 3
  {
  }

  /** A file of n sectors has exactly the roles below Cost(n). */
  lemma DataRoleBelowCost(i: nat, n: nat)
    ensures i < n <==> DataRole(i) < Cost(n)
  {
  }

  lemma CostMonotone(m: nat, n: nat)
    requires m <= n
    ensures Cost(m) <= Cost(n)
  {
  }

  lemma SectorsMonotone(m: nat, n: nat)
    requires m <= n
    ensures Sectors(m) <= Sectors(n) && Cost(Sectors(m)) <= Cost(Sectors(n))
  {
    hide Cost;
    CostMonotone(Sectors(m), Sectors(n));
  }

  /** A new sector appears in no index block but its parent's. */
  lemma TableAfterPush(b: seq<Word>, x: Word, p: nat)
    requires forall j :: 0 <= j < FANOUT ==> Child(p, j) != |b|
    ensures Table(b + [x], p) == Table(b, p)
  {
  }

  /** The newest sector has no children yet. */
  lemma TableOfNewest(b: seq<Word>, p: nat)
    requires |b| <= p + 1
    ensures Table(b, p) == ZERO_WORDS
  {
  }

  // ----- Subtrees -----

  /** The largest number of data sectors below a block of the given level. */
  function Capacity(level: nat): nat {
    if level == 0 then 1 else if level == 1 then FANOUT else FANOUT * FANOUT
  }

  /** How many roles a subtree of the given level with n data sectors takes. */
  function Span(n: nat, level: nat): nat {
    if level == 0 then n
    else if level == 1 then 1 + n
    else 1 + n + (n + FANOUT - 1) / FANOUT
  }

  /** Role p is the root of a subtree of the given level. */
  predicate RootAt(p: nat, level: nat) {
    if level == 0 then !IsIndex(p) else if level == 1 then IsLeafIndex(p) else p == DOUBLY
  }

  /** No index block outside skip points to role r: its parent is in memory. */
  ghost predicate ParentSkipped(r: nat, skip: set<nat>) {
    forall q, j :: 0 <= q < r && IsIndex(q) && q !in skip && 0 <= j < FANOUT ==> Child(q, j) != r
  }

  /** The part of a table below a child that has just been filled. */
  lemma TableAfterChild(b: seq<Word>, b': seq<Word>, p: nat, i: nat)
    requires b <= b' && i < FANOUT && Child(p, i) <= |b| && Child(p, i) < |b'|
    requires |b'| == |b| || |b'| <= Child(p, i + 1)
    ensures Table(b', p) == Table(b, p)[i := b'[Child(p, i)]]
  {
  }

  /** The leaf index block above a data role that is not direct. */
  function LeafOf(r: nat): nat {
    if r <= DOUBLY then INDIRECT else r - (r - DOUBLY - 1) % LEAF_SPAN
  }

  /** The index blocks above role p are in memory, and nothing in memory lies below them. */
  ghost predicate AboveSkipped(p: nat, level: nat, skip: set<nat>) {
    && (forall q :: q in skip ==> q < p)
    && (level <= 1 && p > DOUBLY ==> DOUBLY in skip)
    && (level == 0 ==> p > INDIRECT && LeafOf(p) in skip)
  }

  lemma AboveSkippedParent(p: nat, level: nat, skip: set<nat>)
    requires level <= 2 && RootAt(p, level) && AboveSkipped(p, level, skip)
    ensures ParentSkipped(p, skip)
  {
  }

  /** Going down to child i of block p, with p itself now in memory. */
  lemma AboveSkippedChild(p: nat, i: nat, level: nat, skip: set<nat>)
    requires 1 <= level <= 2 && RootAt(p, level) && i < FANOUT && AboveSkipped(p, level, skip)
    ensures RootAt(Child(p, i), level - 1) && AboveSkipped(Child(p, i), level - 1, skip + {p})
  {
  }

  /** The number of data sectors below the first i children of a block. */
  function Before(i: nat, level: nat): nat
    requires level >= 1
  {
    i * Capacity(level - 1)
  }

  /** The children of a block are laid out one after the other. */
  lemma ChildStart(p: nat, i: nat, n: nat, level: nat)
    requires 1 <= level <= 2 && RootAt(p, level) && 0 < n <= Capacity(level - 1)
    ensures Child(p, i) == p + Span(Before(i, level), level)
    ensures p + Span(Before(i, level) + n, level) == Child(p, i) + Span(n, level - 1) <= Child(p, i + 1)
    ensures Before(i, level) + n <= Capacity(level) ==> i < FANOUT
    ensures Before(i + 1, level) == Before(i, level) + Capacity(level - 1)
  {
  }

  lemma RootFacts(p: nat, num: nat, level: nat, skip: set<nat>)
    requires level <= 2 && RootAt(p, level) && 0 < num <= Capacity(level) && AboveSkipped(p, level, skip)
    ensures Span(num, level) >= 1 && p !in skip
    ensures if level == 0 then Span(num, level) == 1 else IsIndex(p)
  {
  }

  lemma SpanFacts(p: nat, num: nat, level: nat)
    requires level <= 2 && RootAt(p, level) && 0 < num <= Capacity(level)
    ensures Span(num, level) >= 1 && if level == 0 then Span(num, level) == 1 else IsIndex(p)
  {
  }

  lemma ChildRoot(p: nat, i: nat, level: nat)
    requires 1 <= level <= 2 && RootAt(p, level) && i < FANOUT
    ensures RootAt(Child(p, i), level - 1)
  {
  }

  lemma TableEntry(b: seq<Word>, p: nat, i: nat)
    requires i < FANOUT
    ensures Table(b, p)[i] == if Child(p, i) < |b| then b[Child(p, i)] else 0
  {
  }

  /** How many children of a block hold n data sectors. */
  function Rounds(n: nat, level: nat): nat
    requires level >= 1
  {
    (n + Capacity(level - 1) - 1) / Capacity(level - 1)
  }

  lemma RoundsBefore(n: nat, i: nat, level: nat)
    requires level >= 1
    ensures i < Rounds(n, level) <==> Before(i, level) < n
  {
  }

  lemma FirstChild(p: nat, level: nat)
    requires level >= 1
    ensures Before(0, level) == 0 && Span(0, level) == 1 && Capacity(level - 1) > 0
  {
  }

  lemma SpanMonotone(m: nat, n: nat, level: nat)
    requires m <= n
    ensures Span(m, level) <= Span(n, level)
  {
  }

  /** The three regions of a file's tree add up to its cost. */
  lemma CostParts(n: nat)
    ensures n <= DIRECT ==> Cost(n) == n
    ensures DIRECT < n <= DIRECT + FANOUT ==> Cost(n) == INDIRECT + Span(n - DIRECT, 1)
    ensures DIRECT + FANOUT < n ==>
              INDIRECT + Span(FANOUT, 1) == DOUBLY && Cost(n) == DOUBLY + Span(n - DIRECT - FANOUT, 2)
  {
  }

  lemma LengthBound(length: nat)
    requires length <= MAX_LENGTH
    ensures Sectors(length) <= MAX_SECTORS
  {
  }

  lemma InodeSubtrees()
    ensures RootAt(INDIRECT, 1) && Capacity(1) == FANOUT
    ensures RootAt(DOUBLY, 2) && Capacity(2) == FANOUT * FANOUT
  {
  }

  /** The inode's own pointers belong to no index block. */
  lemma InodeParent(r: nat)
    requires r <= INDIRECT || r == DOUBLY
    ensures ParentSkipped(r, {})
  {
  }
}
