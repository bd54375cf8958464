/** The write-back buffer cache: 64 slots, clock (second chance) eviction. */
module Cache {
  import opened Words

  const CACHE_SIZE: nat := 64

  datatype Slot = Slot(occupied: bool, sector: nat, buffer: Sector, dirty: bool, access: bool)

  // ----- The invariant, on values -----

  /** No sector sits in two slots: place inverts the slots' sector numbers. */
  ghost predicate Indexed(slots: seq<Slot>, place: map<nat, nat>) {
    && (forall s :: s in place ==> place[s] < |slots| && slots[place[s]].occupied && slots[place[s]].sector == s)
    && (forall i :: 0 <= i < |slots| && slots[i].occupied ==> slots[i].sector in place && place[slots[i].sector] == i)
  }

  /** What a reader sees of one sector: its cached copy if there is one. */
  ghost predicate Coherent(slots: seq<Slot>, place: map<nat, nat>, disk: seq<Sector>, view: seq<Sector>) {
    && |disk| == |view|
    && Indexed(slots, place)
    && (forall s :: s in place ==> s < |disk| && view[s] == slots[place[s]].buffer)
    && (forall s :: s in place && !slots[place[s]].dirty ==> disk[s] == view[s])
    && (forall s :: 0 <= s < |disk| && s !in place ==> disk[s] == view[s])
  }

  /** Until the cache is full, the occupied slots are a prefix whose last
      member is under the hand with its second chance intact. */
  ghost predicate Prefix(slots: seq<Slot>, filled: nat, hand: nat) {
    && hand < CACHE_SIZE == |slots|
    && filled <= CACHE_SIZE
    && (forall i :: 0 <= i < CACHE_SIZE ==> (slots[i].occupied <==> i < filled))
    && (filled == 0 ==> hand == 0)
    && (0 < filled < CACHE_SIZE ==> hand == filled - 1 && slots[hand].access)
  }

  /** Between eviction and refill: only the slot under the hand is vacant out of turn. */
  ghost predicate Vacated(slots: seq<Slot>, filled: nat, hand: nat) {
    && hand < CACHE_SIZE == |slots|
    && !slots[hand].occupied
    && (filled == CACHE_SIZE || filled == hand)
    && (forall i :: 0 <= i < CACHE_SIZE && i != hand ==> (slots[i].occupied <==> i < filled))
  }

  /** How far the hand has to move from `hand` to reach slot i. */
  function Distance(hand: nat, i: nat): (t: nat)
    requires hand < CACHE_SIZE && i < CACHE_SIZE
    ensures t < CACHE_SIZE && (hand + t) % CACHE_SIZE == i
  {
    if hand <= i then i - hand else i + CACHE_SIZE - hand
  }

  /** The hand has passed t occupied, recently used slots and taken their second chance. */
  ghost predicate Swept(before: seq<Slot>, after: seq<Slot>, hand: nat, t: nat)
    requires hand < CACHE_SIZE == |before| == |after|
  {
    forall i :: 0 <= i < CACHE_SIZE ==>
      if Distance(hand, i) < t
      then before[i].occupied && before[i].access && after[i] == before[i].(access := false)
      else after[i] == before[i]
  }

  lemma SweepKeepsCoherent(before: seq<Slot>, after: seq<Slot>, hand: nat, t: nat,
                           place: map<nat, nat>, disk: seq<Sector>, view: seq<Sector>)
    requires hand < CACHE_SIZE == |before| == |after|
    requires Swept(before, after, hand, t) && Coherent(before, place, disk, view)
    ensures Coherent(after, place, disk, view)
  {
    assert forall i :: 0 <= i < CACHE_SIZE ==> after[i] == before[i].(access := after[i].access);
  }

  /** The sweep of a cache that is not full ends on the first empty slot. */
  lemma SweepOutcome(before: seq<Slot>, after: seq<Slot>, filled: nat, start: nat, hand: nat, t: nat)
    requires Prefix(before, filled, start) && hand < CACHE_SIZE == |after|
    requires Swept(before, after, start, t) && !(after[hand].occupied && after[hand].access)
    requires t <= CACHE_SIZE && if t < CACHE_SIZE then Distance(start, hand) == t else hand == start
    ensures forall i :: 0 <= i < CACHE_SIZE ==> (after[i].occupied <==> i < filled)
    ensures filled == CACHE_SIZE || filled == hand
  {
    if filled < CACHE_SIZE {
      assert Distance(start, filled) <= 1 && !before[filled].occupied;
      assert t <= 1;
      assert Distance(start, start) == 0;
    }
  }

  /** Writing a slot back leaves the view alone. */
  lemma FlushKeepsView(slots: seq<Slot>, place: map<nat, nat>, disk: seq<Sector>, view: seq<Sector>, v: nat)
    requires v < |slots| && slots[v].occupied && Coherent(slots, place, disk, view)
    ensures slots[v].sector < |disk|
    ensures Coherent(slots[v := slots[v].(dirty := false)], place, disk[slots[v].sector := slots[v].buffer], view)
  {
  }

  /** Giving up a clean slot leaves the view alone. */
  lemma DropKeepsView(slots: seq<Slot>, place: map<nat, nat>, disk: seq<Sector>, view: seq<Sector>, v: nat)
    requires v < |slots| && slots[v].occupied && !slots[v].dirty && Coherent(slots, place, disk, view)
    ensures Coherent(slots[v := slots[v].(occupied := false)], place - {slots[v].sector}, disk, view)
  {
  }

  lemma FillKeepsView(slots: seq<Slot>, place: map<nat, nat>, disk: seq<Sector>, view: seq<Sector>,
                      v: nat, s: nat)
    requires v < |slots| && !slots[v].occupied && Coherent(slots, place, disk, view)
    requires s < |disk| && s !in place
    ensures Coherent(slots[v := Slot(true, s, disk[s], false, true)], place[s := v], disk, view)
  {
  }

  lemma FillRestoresPrefix(slots: seq<Slot>, filled: nat, hand: nat, s: Slot)
    requires Vacated(slots, filled, hand) && filled <= CACHE_SIZE && s.occupied && s.access
    ensures Prefix(slots[hand := s], if filled < CACHE_SIZE then filled + 1 else filled, hand)
  {
  }

  lemma TouchKeepsAll(slots: seq<Slot>, place: map<nat, nat>, disk: seq<Sector>, view: seq<Sector>,
                      filled: nat, hand: nat, v: nat)
    requires Coherent(slots, place, disk, view) && Prefix(slots, filled, hand)
    requires v < |slots| && slots[v].occupied
    ensures Coherent(slots[v := slots[v].(access := true)], place, disk, view)
    ensures Prefix(slots[v := slots[v].(access := true)], filled, hand)
  {
  }

  lemma StoreUpdatesView(slots: seq<Slot>, place: map<nat, nat>, disk: seq<Sector>, view: seq<Sector>,
                         s: nat, data: Sector)
    requires Coherent(slots, place, disk, view) && s in place
    ensures Coherent(slots[place[s] := slots[place[s]].(buffer := data, dirty := true)], place, disk, view[s := data])
  {
  }

  // ----- The clock, on values -----

  /** What the clock looks at: which sector a slot holds, and its access bit. */
  datatype Line = Line(occupied: bool, sector: nat, access: bool)

  datatype Clock = Clock(lines: seq<Line>, hand: nat)

  function LineOf(s: Slot): Line {
    Line(s.occupied, s.sector, s.access)
  }

  function ClockOf(slots: seq<Slot>, hand: nat): (c: Clock)
    ensures |c.lines| == |slots| && c.hand == hand
    ensures forall i :: 0 <= i < |slots| ==> c.lines[i] == LineOf(slots[i])
  {
    Clock(seq(|slots|, i requires 0 <= i < |slots| => LineOf(slots[i])), hand)
  }

  predicate HeldAt(c: Clock, i: nat, sector: nat) {
    i < |c.lines| && c.lines[i].occupied && c.lines[i].sector == sector
  }

  ghost predicate Held(c: Clock, sector: nat) {
    exists i :: HeldAt(c, i, sector)
  }

  /** How many slots the hand passed on its way from one request to the next. */
  function Steps(b: Clock, a: Clock): nat
    requires b.hand < CACHE_SIZE == |b.lines| && a.hand < CACHE_SIZE
  {
    if a.hand != b.hand then Distance(b.hand, a.hand)
    else if b.lines[b.hand].occupied && b.lines[b.hand].access then CACHE_SIZE
    else 0
  }

  /** A request for a cached sector sets its access bit and moves nothing. */
  ghost predicate Hit(b: Clock, a: Clock, sector: nat) {
    && a.hand == b.hand && |a.lines| == |b.lines|
    && forall i :: 0 <= i < |b.lines| ==>
         a.lines[i] == if HeldAt(b, i, sector) then b.lines[i].(access := true) else b.lines[i]
  }

  /** A request for any other sector moves the hand on, over slots in use whose access bits
      it clears, to the first that is empty or has its bit clear, and loads the
      sector there, with the bit set. */
  ghost predicate Miss(b: Clock, a: Clock, sector: nat) {
    && b.hand < CACHE_SIZE == |b.lines| && a.hand < CACHE_SIZE == |a.lines|
    && (Steps(b, a) < CACHE_SIZE ==> !(b.lines[a.hand].occupied && b.lines[a.hand].access))
    && forall i :: 0 <= i < CACHE_SIZE ==>
         && (Distance(b.hand, i) < Steps(b, a) ==> b.lines[i].occupied && b.lines[i].access)
         && a.lines[i] == if i == a.hand then Line(true, sector, true)
                          else if Distance(b.hand, i) < Steps(b, a) then b.lines[i].(access := false)
                          else b.lines[i]
  }

  ghost predicate Turned(b: Clock, a: Clock, sector: nat) {
    if Held(b, sector) then Hit(b, a, sector) else Miss(b, a, sector)
  }

  /** The disk is written on a miss only, and then only with the dirty slot that is given up. */
  ghost predicate Lazy(was: seq<Slot>, hand: nat, sector: nat, disk0: seq<Sector>, disk1: seq<Sector>)
    requires hand < |was|
  {
    disk1 == if (exists i :: 0 <= i < |was| && was[i].occupied && was[i].sector == sector) then disk0
             else GivenUp(was, hand, disk0)
  }

  /** The disk after a slot has been given up. */
  ghost function GivenUp(was: seq<Slot>, hand: nat, disk: seq<Sector>): seq<Sector>
    requires hand < |was|
  {
    if was[hand].occupied && was[hand].dirty && was[hand].sector < |disk|
    then disk[was[hand].sector := was[hand].buffer] else disk
  }

  /** What Evict leaves of the slots beside the one it frees. */
  ghost predicate Aged(was: seq<Slot>, now: seq<Slot>, start: nat, hand: nat, t: nat)
    requires start < CACHE_SIZE == |was| == |now|
  {
    && hand < CACHE_SIZE && t <= CACHE_SIZE
    && (if t < CACHE_SIZE then Distance(start, hand) == t else hand == start)
    && (t < CACHE_SIZE ==> !(was[hand].occupied && was[hand].access))
    && forall i :: 0 <= i < CACHE_SIZE ==>
         && (Distance(start, i) < t ==> was[i].occupied && was[i].access)
         && (i != hand ==> now[i] == if Distance(start, i) < t then was[i].(access := false) else was[i])
  }

  lemma AgedBySweep(was: seq<Slot>, swept: seq<Slot>, now: seq<Slot>, start: nat, hand: nat, t: nat, disk: seq<Sector>)
    requires start < CACHE_SIZE == |was| == |swept| == |now| && hand < CACHE_SIZE && Swept(was, swept, start, t)
    requires t <= CACHE_SIZE && if t < CACHE_SIZE then Distance(start, hand) == t else hand == start
    requires !(swept[hand].occupied && swept[hand].access)
    requires forall i :: 0 <= i < CACHE_SIZE && i != hand ==> now[i] == swept[i]
    ensures Aged(was, now, start, hand, t) && GivenUp(was, hand, disk) == GivenUp(swept, hand, disk)
    ensures was[hand].sector == swept[hand].sector
    ensures was[hand].occupied && was[hand].access ==>
              t == CACHE_SIZE && forall s :: s in was ==> s.occupied && s.access
  {
  }

  lemma MissBy(was: seq<Slot>, mid: seq<Slot>, start: nat, hand: nat, t: nat, s: Slot)
    requires start < CACHE_SIZE == |was| == |mid| && Aged(was, mid, start, hand, t) && s.occupied && s.access
    ensures Miss(ClockOf(was, start), ClockOf(mid[hand := s], hand), s.sector)
  {
    var b, a := ClockOf(was, start), ClockOf(mid[hand := s], hand);
    assert Distance(start, start) == 0;
    assert Steps(b, a) == t;
  }

  lemma HitBy(was: seq<Slot>, hand: nat, i: nat, place: map<nat, nat>)
    requires i < |was| && was[i].occupied && Indexed(was, place)
    ensures Hit(ClockOf(was, hand), ClockOf(was[i := was[i].(access := true)], hand), was[i].sector)
    ensures HeldAt(ClockOf(was, hand), i, was[i].sector)
  {
  }

  lemma HeldIsPlaced(slots: seq<Slot>, hand: nat, place: map<nat, nat>, sector: nat)
    requires Indexed(slots, place)
    ensures Held(ClockOf(slots, hand), sector) <==> sector in place
    ensures (exists i :: 0 <= i < |slots| && slots[i].occupied && slots[i].sector == sector) <==> sector in place
  {
    if sector in place {
      assert HeldAt(ClockOf(slots, hand), place[sector], sector);
    }
  }

  /** Bytes and dirty marks do not concern the clock. */
  lemma ClockIgnoresBytes(slots: seq<Slot>, hand: nat, i: nat, s: Slot)
    requires i < |slots| && LineOf(s) == LineOf(slots[i])
    ensures ClockOf(slots[i := s], hand) == ClockOf(slots, hand)
  {
  }

  lemma CleanIsCopied(slots: seq<Slot>, place: map<nat, nat>, disk: seq<Sector>, view: seq<Sector>)
    requires Coherent(slots, place, disk, view) && forall i :: 0 <= i < |slots| ==>
               !(slots[i].occupied && slots[i].dirty)
    ensures disk == view
  {
  }

  lemma PrefixIgnoresBytes(slots: seq<Slot>, filled: nat, hand: nat, i: nat, s: Slot)
    requires Prefix(slots, filled, hand) && i < |slots| && LineOf(s) == LineOf(slots[i])
    ensures Prefix(slots[i := s], filled, hand)
  {
  }

  class BufferCache {
    const slots: array<Slot>
    var hand: nat
    var disk: seq<Sector>           // the device behind the cache

    ghost var view: seq<Sector>     // what a reader of the cache sees
    ghost var place: map<nat, nat>  // which slot holds a cached sector
    ghost var filled: nat           // slots [0, filled) are the occupied ones

    ghost predicate Valid()
      reads this, slots
    {
      Coherent(slots[..], place, disk, view) && Prefix(slots[..], filled, hand)
    }

    ghost function TheClock(): Clock
      reads this, slots
    {
      ClockOf(slots[..], hand)
    }

    constructor (device: seq<Sector>)
      ensures Valid() && fresh(slots)
      ensures view == disk == device && filled == 0
      ensures TheClock().hand == 0 && |TheClock().lines| == CACHE_SIZE
      ensures forall i :: 0 <= i < CACHE_SIZE ==> !TheClock().lines[i].occupied
    {
      slots := new Slot[CACHE_SIZE](_ => Slot(false, 0, ZERO_SECTOR, false, false));
      hand := 0;
      disk, view, place, filled := device, device, map[], 0;
    }

    /** The slot that holds a sector, or CACHE_SIZE on a miss. */
    method Lookup(sector: nat) returns (i: nat)
      requires Valid()
      ensures i == (if sector in place then place[sector] else CACHE_SIZE)
    {
      assert sector in place ==> slots[..][place[sector]].occupied;
      i := 0;
      while i < slots.Length && !(slots[i].occupied && slots[i].sector == sector)
        invariant i <= slots.Length
        invariant forall k :: 0 <= k < i ==> !(slots[k].occupied && slots[k].sector == sector)
      {
        i := i + 1;
      }
      assert i < CACHE_SIZE ==> slots[..][i].occupied;
    }

    /** The clock hand: gives every recently used slot a second chance. It stops
        within 65 positions, on a slot that is empty or was not recently used,
        and reaches a recently used one only by going once round a cache all of
        whose slots were occupied and recently used. */
    method Sweep() returns (ghost t: nat)
      requires slots.Length == CACHE_SIZE && hand < CACHE_SIZE
      modifies `hand, slots
      ensures t <= CACHE_SIZE && hand < CACHE_SIZE
      ensures Swept(old(slots[..]), slots[..], old(hand), t)
      ensures t < CACHE_SIZE ==> Distance(old(hand), hand) == t
      ensures t == CACHE_SIZE ==> hand == old(hand)
      ensures !(slots[hand].occupied && slots[hand].access)
    {
      t := 0;
      while slots[hand].occupied && slots[hand].access
        invariant t <= CACHE_SIZE && hand < CACHE_SIZE
        invariant t < CACHE_SIZE ==> Distance(old(hand), hand) == t
        invariant t == CACHE_SIZE ==> hand == old(hand)
        invariant Swept(old(slots[..]), slots[..], old(hand), t)
        decreases CACHE_SIZE - t
      {
        assert slots[..][hand].access;
        slots[hand] := slots[hand].(access := false);
        hand := (hand + 1) % CACHE_SIZE;
        t := t + 1;
      }
    }

    /** Writes a dirty slot back to the device. */
    method Flush(v: nat)
      requires v < slots.Length && slots[v].occupied && Coherent(slots[..], place, disk, view)
      modifies `disk, slots
      ensures slots[..] == old(slots[..])[v := old(slots[v]).(dirty := false)]
      ensures Coherent(slots[..], place, disk, view)
      ensures disk == if old(slots[v]).dirty && old(slots[v]).sector < old(|disk|)
                      then old(disk)[old(slots[v]).sector := old(slots[v]).buffer] else old(disk)
    {
      if slots[v].dirty {
        FlushKeepsView(slots[..], place, disk, view, v);
        ghost var was := slots[..];
        disk := disk[slots[v].sector := slots[v].buffer];
        slots[v] := slots[v].(dirty := false);
        assert slots[..] == was[v := was[v].(dirty := false)];
      }
    }

    /** Frees the slot under the hand after a sweep. An occupied slot is given up
        only when every slot is occupied, and a recently used one only when every
        slot is recently used as well. */
    method Evict() returns (ghost t: nat)
      requires Valid()
      modifies this, slots
      ensures Coherent(slots[..], place, disk, view) && Vacated(slots[..], filled, hand)
      ensures view == old(view) && filled == old(filled)
      ensures filled < CACHE_SIZE ==> place == old(place)
      ensures filled == CACHE_SIZE ==> place == old(place) - {old(slots[..])[hand].sector}
      ensures Aged(old(slots[..]), slots[..], old(hand), hand, t)
      ensures disk == GivenUp(old(slots[..]), hand, old(disk))
      ensures old(slots[..])[hand].occupied && old(slots[..])[hand].access ==>
                t == CACHE_SIZE && forall s :: s in old(slots[..]) ==> s.occupied && s.access
    {
      hide Coherent, Vacated, Swept, Aged, GivenUp;
      t := Sweep();
      ghost var swept := slots[..];
      SweepKeepsCoherent(old(slots[..]), swept, old(hand), t, place, disk, view);
      SweepOutcome(old(slots[..]), swept, filled, old(hand), hand, t);
      Vacate();
      AgedBySweep(old(slots[..]), swept, slots[..], old(hand), hand, t, old(disk));
    }

    method Vacate()
      requires Coherent(slots[..], place, disk, view)
      requires hand < CACHE_SIZE == slots.Length && (filled == CACHE_SIZE || filled == hand)
      requires forall i :: 0 <= i < CACHE_SIZE ==> (slots[i].occupied <==> i < filled)
      modifies `disk, `place, slots
      ensures Coherent(slots[..], place, disk, view) && Vacated(slots[..], filled, hand)
      ensures filled < CACHE_SIZE ==> place == old(place)
      ensures filled == CACHE_SIZE ==> place == old(place) - {old(slots[..])[hand].sector}
      ensures forall i :: 0 <= i < CACHE_SIZE && i != hand ==> slots[i] == old(slots[i])
      ensures disk == GivenUp(old(slots[..]), hand, old(disk))
    {
      if slots[hand].occupied {
        Flush(hand);
        ghost var was := slots[..];
        DropKeepsView(was, place, disk, view, hand);
        place := place - {slots[hand].sector};
        slots[hand] := slots[hand].(occupied := false);
        assert slots[..] == was[hand := was[hand].(occupied := false)];
      }
    }

    /** Loads a sector into the slot that Evict freed. */
    method Fill(sector: nat)
      requires Coherent(slots[..], place, disk, view) && Vacated(slots[..], filled, hand)
      requires sector < |disk| && sector !in place && filled <= CACHE_SIZE
      modifies `place, `filled, slots
      ensures Valid() && place == old(place)[sector := hand] && filled >= old(filled)
      ensures slots[..] == old(slots[..])[hand := Slot(true, sector, disk[sector], false, true)]
    {
      ghost var was := slots[..];
      FillKeepsView(was, place, disk, view, hand, sector);
      FillRestoresPrefix(was, filled, hand, Slot(true, sector, disk[sector], false, true));
      slots[hand] := Slot(true, sector, disk[sector], false, true);
      place := place[sector := hand];
      filled := if filled < CACHE_SIZE then filled + 1 else filled;
      assert slots[..] == was[hand := Slot(true, sector, disk[sector], false, true)];
    }

    /** Finds or loads a sector and marks its slot as recently used. */
    method Fetch(sector: nat) returns (i: nat)
      requires Valid() && sector < |view|
      modifies this, slots
      ensures Valid() && view == old(view) && hand < slots.Length == old(|slots[..]|)
      ensures sector in place && place[sector] == i && i < slots.Length && slots[i].access
      ensures Turned(old(TheClock()), TheClock(), sector) && Lazy(old(slots[..]), hand, sector, old(disk), disk)
    {
      hide Miss, Hit, Aged, Held;
      HeldIsPlaced(slots[..], hand, place, sector);
      i := Lookup(sector);
      if i == CACHE_SIZE {
        ghost var was, start := slots[..], hand;
        ghost var t := Evict();
        ghost var mid := slots[..];
        i := hand;
        Fill(sector);
        MissBy(was, mid, start, hand, t, slots[hand]);
      } else {
        ghost var was := slots[..];
        TouchKeepsAll(was, place, disk, view, filled, hand, i);
        HitBy(was, hand, i, place);
        slots[i] := slots[i].(access := true);
        assert slots[..] == was[i := was[i].(access := true)];
      }
    }

    method Read(sector: nat) returns (target: Sector)
      requires Valid() && sector < |view|
      modifies this, slots
      ensures Valid() && view == old(view)
      ensures target == view[sector]
      ensures Turned(old(TheClock()), TheClock(), sector)
      ensures hand < slots.Length == old(|slots[..]|) && Lazy(old(slots[..]), hand, sector, old(disk), disk)
    {
      hide Turned, Lazy;
      var i := Fetch(sector);
      target := slots[i].buffer;
    }

    method Write(sector: nat, source: Sector)
      requires Valid() && sector < |view|
      modifies this, slots
      ensures Valid() && view == old(view)[sector := source]
      ensures Turned(old(TheClock()), TheClock(), sector)
      ensures hand < slots.Length == old(|slots[..]|) && Lazy(old(slots[..]), hand, sector, old(disk), disk)
    {
      hide Turned, Lazy, Coherent, Prefix, ClockOf;
      var i := Fetch(sector);
      ghost var was := slots[..];
      StoreUpdatesView(was, place, disk, view, sector, source);
      PrefixIgnoresBytes(was, filled, hand, i, was[i].(buffer := source, dirty := true));
      ClockIgnoresBytes(was, hand, i, was[i].(buffer := source, dirty := true));
      slots[i] := slots[i].(buffer := source, dirty := true);
      view := view[sector := source];
      assert slots[..] == was[i := was[i].(buffer := source, dirty := true)];
    }

    /** Writes every dirty slot back: the device now holds exactly what readers saw. */
    method Close()
      requires Valid()
      modifies `disk, slots
      ensures Valid() && view == old(view) && disk == view && TheClock() == old(TheClock())
    {
      hide Coherent, Prefix, ClockOf;
      for k := 0 to slots.Length
        invariant Valid() && view == old(view) && TheClock() == old(TheClock())
        invariant forall i :: 0 <= i < k ==> !(slots[i].occupied && slots[i].dirty)
      {
        if slots[k].occupied {
          ClockIgnoresBytes(slots[..], hand, k, slots[k].(dirty := false));
          PrefixIgnoresBytes(slots[..], filled, hand, k, slots[k].(dirty := false));
          Flush(k);
        }
      }
      CleanIsCopied(slots[..], place, disk, view);
    }
  }
}
