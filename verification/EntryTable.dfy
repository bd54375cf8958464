/** A directory's bytes as a table of 36-byte entries, and the table as a map
    from names to inode sectors. */
module EntryTable {
  import opened Words
  import opened FileData

  const NAME_MAX: nat := 30
  const NAME_FIELD: nat := 31
  const ENTRY_SIZE: nat := 36

  /** A C string: its bytes up to the terminating zero. */
  type Name = s: seq<byte> | 0 !in s witness []

  datatype Entry = Entry(sector: Word, field: seq<byte>, inUse: bool)

  /** The bytes of a field up to the first zero. */
  function CStr(s: seq<byte>): (r: Name)
    ensures r <= s && (|r| < |s| ==> s[|r|] == 0)
  {
    if s == [] || s[0] == 0 then [] else [s[0]] + CStr(s[1..])
  }

  /** strncpy: the name, padded with zeros to the width of the field. */
  function Pad(name: Name): (s: seq<byte>)
    requires |name| <= NAME_MAX
    ensures |s| == NAME_FIELD
  {
    name + Zeros(NAME_FIELD - |name|)
  }

  lemma {:induction false} CStrOfPadded(name: Name, n: nat)
    requires n > 0
    ensures CStr(name + Zeros(n)) == name
  {
    var s := name + Zeros(n);
    if name != [] {
      assert name[0] in name;
      assert s[1..] == name[1..] + Zeros(n);
      CStrOfPadded(name[1..], n);
    }
  }

  function Slots(c: seq<byte>): nat {
    |c| / ENTRY_SIZE
  }

  function Decode(s: seq<byte>): Entry
    requires |s| == ENTRY_SIZE
  {
    Entry(WordAt(s, 0), s[4..4 + NAME_FIELD], s[ENTRY_SIZE - 1] != 0)
  }

  function Encode(e: Entry): (s: seq<byte>)
    requires |e.field| == NAME_FIELD
    ensures |s| == ENTRY_SIZE && Decode(s) == e
    ensures s[..4] == WordBytes(e.sector) && s[4..4 + NAME_FIELD] == e.field
            && s[ENTRY_SIZE - 1] == (if e.inUse then 1 else 0)
  {
    var s := WordBytes(e.sector) + e.field + [if e.inUse then 1 else 0];
    assert s[4..4 + NAME_FIELD] == e.field;
    s
  }

  function EntryAt(c: seq<byte>, i: nat): (e: Entry)
    requires i < Slots(c)
    ensures |e.field| == NAME_FIELD
  {
    Decode(c[ENTRY_SIZE * i..ENTRY_SIZE * i + ENTRY_SIZE])
  }

  /** The entries of a directory's bytes. */
  function Table(c: seq<byte>): (t: seq<Entry>)
    ensures |t| == Slots(c) && forall i :: 0 <= i < |t| ==> t[i] == EntryAt(c, i)
  {
    seq(Slots(c), i requires 0 <= i < Slots(c) => EntryAt(c, i))
  }

  /** Rewriting slot i of a table, or adding one at its end. */
  function Put(t: seq<Entry>, i: nat, e: Entry): seq<Entry>
    requires i <= |t|
  {
    if i == |t| then t + [e] else t[i := e]
  }

  lemma SlotsAfterWrite(c: seq<byte>, i: nat, e: Entry)
    requires |c| % ENTRY_SIZE == 0 && i <= Slots(c) && |e.field| == NAME_FIELD
    ensures var c' := Splice(c, ENTRY_SIZE * i, Encode(e));
            |c'| % ENTRY_SIZE == 0 && Slots(c') == if i == Slots(c) then Slots(c) + 1 else Slots(c)
  {
    hide Encode;
    assert |c| == ENTRY_SIZE * Slots(c);
  }

  /** The bytes of one slot after an entry has been written to another or the same. */
  lemma BytesAfterWrite(c: seq<byte>, i: nat, bytes: seq<byte>, j: nat)
    requires |bytes| == ENTRY_SIZE && (j != i ==> ENTRY_SIZE * j + ENTRY_SIZE <= |c|)
    ensures var c' := Splice(c, ENTRY_SIZE * i, bytes);
            && ENTRY_SIZE * j + ENTRY_SIZE <= |c'|
            && c'[ENTRY_SIZE * j..ENTRY_SIZE * j + ENTRY_SIZE] ==
                 if j == i then bytes else c[ENTRY_SIZE * j..ENTRY_SIZE * j + ENTRY_SIZE]
  {
  }

  /** Writing an entry's bytes at its slot's offset, wherever sector boundaries
      fall, changes that slot alone. */
  lemma TableAfterWrite(c: seq<byte>, i: nat, e: Entry)
    requires |c| % ENTRY_SIZE == 0 && i <= Slots(c) && |e.field| == NAME_FIELD
    ensures var c' := Splice(c, ENTRY_SIZE * i, Encode(e));
            |c'| % ENTRY_SIZE == 0 && Table(c') == Put(Table(c), i, e)
  {
    hide Splice, Encode, Decode;
    var c' := Splice(c, ENTRY_SIZE * i, Encode(e));
    SlotsAfterWrite(c, i, e);
    forall j: nat | j < Slots(c')
      ensures Table(c')[j] == Put(Table(c), i, e)[j]
    {
      BytesAfterWrite(c, i, Encode(e), j);
    }
  }

  // ----- The table as a map -----

  /** Slot i is in use for a file; slot 0 is the parent's entry. */
  predicate Used(t: seq<Entry>, i: nat) {
    0 < i < |t| && t[i].inUse
  }

  ghost predicate UniqueNames(t: seq<Entry>) {
    forall i: nat, j: nat :: Used(t, i) && Used(t, j) && CStr(t[i].field) == CStr(t[j].field) ==> i == j
  }

  /** The invariant of a directory: the parent in slot 0, no name twice. */
  ghost predicate TableOk(t: seq<Entry>) {
    t != [] && t[0].inUse && UniqueNames(t)
  }

  /** The directory that a table represents. */
  ghost function Listing(t: seq<Entry>): map<Name, Word>
    requires UniqueNames(t)
  {
    map i | 0 <= i < |t| && Used(t, i) :: CStr(t[i].field) := t[i].sector
  }

  lemma ListingAt(t: seq<Entry>, i: nat)
    requires UniqueNames(t) && Used(t, i)
    ensures CStr(t[i].field) in Listing(t) && Listing(t)[CStr(t[i].field)] == t[i].sector
  {
  }

  lemma SlotOf(t: seq<Entry>, n: Name) returns (i: nat)
    requires UniqueNames(t) && n in Listing(t)
    ensures Used(t, i) && CStr(t[i].field) == n && Listing(t)[n] == t[i].sector
  {
    i :| Used(t, i) && CStr(t[i].field) == n;
  }

  lemma UniqueAfterAdd(t: seq<Entry>, i: nat, e: Entry)
    requires UniqueNames(t) && 0 < i <= |t| && !Used(t, i) && CStr(e.field) !in Listing(t)
    ensures UniqueNames(Put(t, i, e))
    ensures forall j: nat :: j != i ==> (Used(Put(t, i, e), j) <==> Used(t, j))
  {
    hide CStr, Listing;
    forall j: nat | Used(t, j)
      ensures CStr(t[j].field) != CStr(e.field)
    {
      ListingAt(t, j);
    }
  }

  /** Taking an unused slot for a new name adds that name and nothing else. */
  lemma ListingAfterAdd(t: seq<Entry>, i: nat, e: Entry)
    requires TableOk(t) && 0 < i <= |t| && !Used(t, i) && e.inUse && CStr(e.field) !in Listing(t)
    ensures TableOk(Put(t, i, e)) && Listing(Put(t, i, e)) == Listing(t)[CStr(e.field) := e.sector]
  {
    var t' := Put(t, i, e);
    UniqueAfterAdd(t, i, e);
    hide CStr, Listing, UniqueNames;
    var wanted := Listing(t)[CStr(e.field) := e.sector];
    ListingAt(t', i);
    forall n: Name | n in wanted
      ensures n in Listing(t') && Listing(t')[n] == wanted[n]
    {
      if n != CStr(e.field) {
        var j := SlotOf(t, n);
        ListingAt(t', j);
      }
    }
    forall n: Name | n in Listing(t')
      ensures n in wanted
    {
      var j := SlotOf(t', n);
      if j != i {
        ListingAt(t, j);
      }
    }
  }

  lemma UniqueAfterRemove(t: seq<Entry>, i: nat)
    requires UniqueNames(t) && Used(t, i)
    ensures UniqueNames(t[i := t[i].(inUse := false)])
    ensures forall j: nat :: Used(t[i := t[i].(inUse := false)], j) <==> j != i && Used(t, j)
  {
    hide CStr;
  }

  /** Clearing the in-use flag of a slot removes its name and nothing else. */
  lemma ListingAfterRemove(t: seq<Entry>, i: nat)
    requires TableOk(t) && Used(t, i)
    ensures var t' := t[i := t[i].(inUse := false)];
            TableOk(t') && Listing(t') == Listing(t) - {CStr(t[i].field)}
  {
    hide CStr, Listing, UniqueNames;
    var t' := t[i := t[i].(inUse := false)];
    UniqueAfterRemove(t, i);
    NamesAfterRemove(t, t', i);
    assert Listing(t') == Listing(t) - {CStr(t[i].field)};
  }

  lemma NamesAfterRemove(t: seq<Entry>, t': seq<Entry>, i: nat)
    requires UniqueNames(t) && UniqueNames(t') && Used(t, i) && |t'| == |t|
    requires forall j: nat :: Used(t', j) <==> j != i && Used(t, j)
    requires forall j :: 0 <= j < |t| && j != i ==> t'[j] == t[j]
    ensures forall n: Name :: n in Listing(t') <==> n in Listing(t) && n != CStr(t[i].field)
    ensures forall n: Name :: n in Listing(t') ==> Listing(t')[n] == Listing(t)[n]
  {
    hide CStr, Listing, UniqueNames;
    forall n: Name | n in Listing(t')
      ensures n in Listing(t) && n != CStr(t[i].field) && Listing(t')[n] == Listing(t)[n]
    {
      var j := SlotOf(t', n);
      ListingAt(t, j);
      OtherName(t, i, j);
    }
    forall n: Name | n in Listing(t) && n != CStr(t[i].field)
      ensures n in Listing(t')
    {
      var j := SlotOf(t, n);
      ListingAt(t', j);
    }
  }

  lemma OtherName(t: seq<Entry>, i: nat, j: nat)
    requires UniqueNames(t) && Used(t, i) && Used(t, j) && i != j
    ensures CStr(t[i].field) != CStr(t[j].field)
  {
    hide CStr;
  }

  // ----- The table as a list -----

  /** The least slot that is not in use, or the one behind the last. */
  ghost predicate FirstUnused(t: seq<Entry>, slot: nat) {
    slot <= |t| && (forall i :: 0 <= i < slot ==> t[i].inUse) && (slot < |t| ==> !t[slot].inUse)
  }

  /** The name went into the least unused slot, and no other slot has changed. */
  ghost predicate TakesFirst(t0: seq<Entry>, t1: seq<Entry>, name: Name, sector: Word) {
    && |name| <= NAME_MAX
    && exists slot: nat :: FirstUnused(t0, slot) && t1 == Put(t0, slot, Entry(sector, Pad(name), true))
  }

  /** The names in the slots [lo, hi), in slot order; the parent's does not count. */
  function NamesIn(t: seq<Entry>, lo: nat, hi: nat): seq<Name>
    requires lo <= hi <= |t|
  {
    if lo == hi then []
    else NamesIn(t, lo, hi - 1) + if Used(t, hi - 1) then [CStr(t[hi - 1].field)] else []
  }

  /** The names in the order of their slots, as a listing shows them. */
  function InOrder(t: seq<Entry>): seq<Name> {
    NamesIn(t, 0, |t|)
  }

  lemma {:induction false} NamesInAgree(t: seq<Entry>, u: seq<Entry>, lo: nat, hi: nat)
    requires lo <= hi <= |t| && hi <= |u| && forall i :: lo <= i < hi ==> t[i] == u[i]
    ensures NamesIn(t, lo, hi) == NamesIn(u, lo, hi)
  {
    if lo < hi {
      NamesInAgree(t, u, lo, hi - 1);
    }
  }

  lemma {:induction false} NamesInSplit(t: seq<Entry>, lo: nat, mid: nat, hi: nat)
    requires lo <= mid <= hi <= |t|
    ensures NamesIn(t, lo, hi) == NamesIn(t, lo, mid) + NamesIn(t, mid, hi)
  {
    if mid < hi {
      NamesInSplit(t, lo, mid, hi - 1);
    }
  }

  lemma {:induction false} NamesInUnused(t: seq<Entry>, lo: nat, hi: nat)
    requires lo <= hi <= |t| && forall i: nat :: lo <= i < hi ==> !Used(t, i)
    ensures NamesIn(t, lo, hi) == []
  {
    if lo < hi {
      NamesInUnused(t, lo, hi - 1);
    }
  }

  lemma NamesInOne(t: seq<Entry>, i: nat)
    requires i < |t|
    ensures NamesIn(t, i, i) == []
    ensures NamesIn(t, i, i + 1) == if Used(t, i) then [CStr(t[i].field)] else []
  {
  }

  lemma NamesInNone(t: seq<Entry>)
    ensures NamesIn(t, |t|, |t|) == []
  {
  }

  /** A name taken into a table is listed behind those in lower slots and before those in
      higher ones. */
  lemma InOrderAfterAdd(t: seq<Entry>, slot: nat, e: Entry)
    requires 0 < slot <= |t| && e.inUse && !Used(t, slot)
    ensures InOrder(Put(t, slot, e)) == NamesIn(t, 0, slot) + [CStr(e.field)] + NamesIn(t, slot, |t|)
  {
    hide CStr, NamesIn;
    var t' := Put(t, slot, e);
    NamesInSplit(t', 0, slot, |t'|);
    NamesInSplit(t', slot, slot + 1, |t'|);
    NamesInAgree(t', t, 0, slot);
    NamesInOne(t', slot);
    if slot < |t| {
      NamesInSplit(t, slot, slot + 1, |t|);
      NamesInOne(t, slot);
      NamesInAgree(t', t, slot + 1, |t|);
    } else {
      NamesInNone(t);
      NamesInNone(t');
    }
  }

  /** No slot in use lies behind an unused one. */
  ghost predicate Packed(t: seq<Entry>) {
    forall i, j :: 0 < i < j < |t| && t[j].inUse ==> t[i].inUse
  }

  /** In a directory without gaps the new name comes last. */
  lemma AppendsToPacked(t0: seq<Entry>, t1: seq<Entry>, name: Name, sector: Word)
    requires TableOk(t0) && Packed(t0) && TakesFirst(t0, t1, name, sector)
    ensures Packed(t1) && InOrder(t1) == InOrder(t0) + [name]
  {
    hide CStr, UniqueNames, NamesIn;
    var slot: nat :| FirstUnused(t0, slot) && t1 == Put(t0, slot, Entry(sector, Pad(name), true));
    CStrOfPadded(name, NAME_FIELD - |name|);
    InOrderAfterAdd(t0, slot, Entry(sector, Pad(name), true));
    NamesInUnused(t0, slot, |t0|);
    NamesInSplit(t0, 0, slot, |t0|);
  }

  /** Clearing a slot takes its name out of the list. */
  lemma InOrderAfterRemove(t: seq<Entry>, i: nat)
    requires Used(t, i)
    ensures InOrder(t) == NamesIn(t, 0, i) + [CStr(t[i].field)] + NamesIn(t, i + 1, |t|)
    ensures InOrder(t[i := t[i].(inUse := false)]) == NamesIn(t, 0, i) + NamesIn(t, i + 1, |t|)
  {
    hide CStr, NamesIn;
    var t' := t[i := t[i].(inUse := false)];
    NamesInSplit(t, 0, i, |t|);
    NamesInSplit(t, i, i + 1, |t|);
    NamesInOne(t, i);
    NamesInSplit(t', 0, i, |t|);
    NamesInSplit(t', i, i + 1, |t|);
    NamesInOne(t', i);
    NamesInAgree(t, t', 0, i);
    NamesInAgree(t, t', i + 1, |t|);
  }

  // ----- A new directory -----

  /** A table of zeros but for the parent's entry. */
  lemma FreshTable(c: seq<byte>, n: nat, e: Entry)
    requires e.inUse && |e.field| == NAME_FIELD && c == Splice(Zeros(ENTRY_SIZE * n), 0, Encode(e))
    ensures |c| % ENTRY_SIZE == 0 && |Table(c)| == (if n == 0 then 1 else n) && Table(c)[0] == e
    ensures TableOk(Table(c)) && forall i: nat :: !Used(Table(c), i)
  {
    hide Splice, Encode, Zeros;
    var z := Zeros(ENTRY_SIZE * n);
    ZerosLength(ENTRY_SIZE * n);
    TableAfterWrite(z, 0, e);
    forall i: nat | i < n
      ensures !Table(z)[i].inUse
    {
      ZeroEntry(n, i);
    }
  }

  lemma ZerosLength(n: nat)
    ensures |Zeros(n)| == n
  {
  }

  lemma ZeroEntry(n: nat, i: nat)
    requires i < n
    ensures |Zeros(ENTRY_SIZE * n)| == ENTRY_SIZE * n && !EntryAt(Zeros(ENTRY_SIZE * n), i).inUse
  {
  }
}
