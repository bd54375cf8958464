/** The cache over whole runs: it cannot be told from a plain device. */
module CacheRuns {
  import opened Words
  import opened Cache

  datatype Request = Get(sector: nat) | Put(sector: nat, source: Sector) | Sync

  predicate InRange(device: seq<Sector>, r: Request) {
    !r.Sync? ==> r.sector < |device|
  }

  /** What a device without a cache would hold: at each sector the last bytes put
      there, or those it started with. */
  function Plain(device: seq<Sector>, rs: seq<Request>): (d: seq<Sector>)
    ensures |d| == |device|
  {
    seq(|device|, s requires 0 <= s < |device| => LastPut(device[s], rs, s))
  }

  function LastPut(start: Sector, rs: seq<Request>, s: nat): Sector {
    if rs == [] then start
    else
      var last := rs[|rs| - 1];
      if last.Put? && last.sector == s then last.source else LastPut(start, rs[..|rs| - 1], s)
  }

  lemma PlainNext(device: seq<Sector>, rs: seq<Request>, k: nat)
    requires k < |rs| && InRange(device, rs[k])
    ensures Plain(device, rs[..k + 1]) ==
            if rs[k].Put? then Plain(device, rs[..k])[rs[k].sector := rs[k].source] else Plain(device, rs[..k])
  {
    assert rs[..k + 1][..k] == rs[..k];
  }

  /** One request, as the clock sees it. Closing does not concern it. */
  ghost predicate Ticked(b: Clock, a: Clock, r: Request) {
    if r.Sync? then a == b else Turned(b, a, r.sector)
  }

  /** The clock over a run from a cold cache. */
  ghost predicate Ticking(trace: seq<Clock>, rs: seq<Request>) {
    && |trace| == |rs| + 1 && Cold(trace[0])
    && forall k :: 0 <= k < |rs| ==> Ticked(trace[k], trace[k + 1], rs[k])
  }

  ghost predicate Cold(c: Clock) {
    c.hand == 0 && |c.lines| == CACHE_SIZE && forall i :: 0 <= i < CACHE_SIZE ==> !c.lines[i].occupied
  }

  /** In every run from a cold cache, each read returns what the plain device would
      hold, and after a final close the disk holds the same. */
  method Serve(device: seq<Sector>, rs: seq<Request>)
    returns (outs: seq<Sector>, disk: seq<Sector>, ghost trace: seq<Clock>)
    requires forall r :: r in rs ==> InRange(device, r)
    ensures |outs| == |rs| && disk == Plain(device, rs)
    ensures forall k :: 0 <= k < |rs| && rs[k].Get? && rs[k].sector < |device| ==>
              outs[k] == Plain(device, rs[..k])[rs[k].sector]
    ensures Ticking(trace, rs)
  {
    hide BufferCache.Valid, LastPut, Turned, Lazy, ClockOf, Plain;
    var cache := new BufferCache(device);
    outs, trace := [], [cache.TheClock()];
    PlainNone(device);
    for k := 0 to |rs|
      invariant cache.Valid() && fresh(cache) && fresh(cache.slots) && |outs| == k
      invariant cache.view == Plain(device, rs[..k])
      invariant |trace| == k + 1 && Cold(trace[0]) && trace[k] == cache.TheClock()
      invariant forall j :: 0 <= j < k ==> Ticked(trace[j], trace[j + 1], rs[j])
      invariant forall j :: 0 <= j < k && rs[j].Get? && rs[j].sector < |device| ==>
                  outs[j] == Plain(device, rs[..j])[rs[j].sector]
    {
      assert rs[k] in rs;
      PlainNext(device, rs, k);
      var out := ZERO_SECTOR;
      match rs[k] {
        case Get(sector) => out := cache.Read(sector);
        case Put(sector, source) => cache.Write(sector, source);
        case Sync => cache.Close();
      }
      outs, trace := outs + [out], trace + [cache.TheClock()];
    }
    assert rs[..|rs|] == rs;
    cache.Close();
    disk := cache.disk;
  }

  // ----- Second chances -----

  /** The hand passed slot i, or stopped there, to serve a request. */
  ghost predicate Passed(b: Clock, a: Clock, r: Request, i: nat)
    requires i < CACHE_SIZE && b.hand < CACHE_SIZE == |b.lines| && a.hand < CACHE_SIZE
  {
    !r.Sync? && !Held(b, r.sector) && (Distance(b.hand, i) < Steps(b, a) || i == a.hand)
  }

  predicate Asks(r: Request, sector: nat) {
    !r.Sync? && r.sector == sector
  }

  ghost predicate Shaped(trace: seq<Clock>) {
    forall k :: 0 <= k < |trace| ==> trace[k].hand < CACHE_SIZE == |trace[k].lines|
  }

  /** The sector in slot i after k requests was asked for by request j, and the hand
      has not passed that slot since. */
  ghost predicate AskedAt(trace: seq<Clock>, rs: seq<Request>, k: nat, i: nat, j: nat)
    requires Shaped(trace) && k < |trace| == |rs| + 1 && i < CACHE_SIZE
  {
    && j < k && Asks(rs[j], trace[k].lines[i].sector)
    && forall m :: j < m < k ==> !Passed(trace[m], trace[m + 1], rs[m], i)
  }

  /** ... by some request. */
  ghost predicate Fresh(trace: seq<Clock>, rs: seq<Request>, k: nat, i: nat)
    requires Shaped(trace) && k < |trace| == |rs| + 1 && i < CACHE_SIZE
  {
    exists j: nat :: AskedAt(trace, rs, k, i, j)
  }

  /** No sector sits in two slots. */
  ghost predicate Tidy(c: Clock) {
    forall i: nat, j: nat ::
      && i < |c.lines| && j < |c.lines| && c.lines[i].occupied && c.lines[j].occupied
      && c.lines[i].sector == c.lines[j].sector
      ==> i == j
  }

  lemma TickKeepsTidy(b: Clock, a: Clock, r: Request)
    requires Ticked(b, a, r) && Tidy(b) && b.hand < CACHE_SIZE == |b.lines|
    ensures Tidy(a) && a.hand < CACHE_SIZE == |a.lines|
  {
    if !r.Sync? && !Held(b, r.sector) {
      assert forall i :: 0 <= i < CACHE_SIZE && b.lines[i].occupied ==> !HeldAt(b, i, r.sector);
    }
  }

  lemma {:induction false} TraceTidy(trace: seq<Clock>, rs: seq<Request>, k: nat)
    requires Ticking(trace, rs) && k < |trace|
    ensures Tidy(trace[k]) && trace[k].hand < CACHE_SIZE == |trace[k].lines|
  {
    hide Ticked, Tidy;
    if k == 0 {
      ColdTidy(trace[0]);
    } else {
      TraceTidy(trace, rs, k - 1);
      TickKeepsTidy(trace[k - 1], trace[k], rs[k - 1]);
    }
  }

  lemma ColdTidy(c: Clock)
    requires Cold(c)
    ensures Tidy(c)
  {
  }

  lemma TraceShaped(trace: seq<Clock>, rs: seq<Request>)
    requires Ticking(trace, rs)
    ensures Shaped(trace)
  {
    hide Ticking;
    assert |trace| == |rs| + 1 by {
      TickingLength(trace, rs);
    }
    forall k | 0 <= k < |trace|
      ensures trace[k].hand < CACHE_SIZE == |trace[k].lines|
    {
      TraceTidy(trace, rs, k);
    }
  }

  lemma TickingLength(trace: seq<Clock>, rs: seq<Request>)
    requires Ticking(trace, rs)
    ensures |trace| == |rs| + 1
  {
  }

  /** What one request does to the access bit of an occupied slot: it is set if the
      request asks for the slot's sector, and cleared if the hand passes it. */
  lemma TickOfSlot(b: Clock, a: Clock, r: Request, i: nat)
    requires b.hand < CACHE_SIZE == |b.lines| && a.hand < CACHE_SIZE == |a.lines| && Tidy(b) && Ticked(b, a, r)
    requires i < CACHE_SIZE && a.lines[i].occupied
    ensures Asks(r, a.lines[i].sector) ==> a.lines[i].access
    ensures !Asks(r, a.lines[i].sector) && Passed(b, a, r, i) ==> !a.lines[i].access
    ensures !Asks(r, a.lines[i].sector) && !Passed(b, a, r, i) ==> a.lines[i] == b.lines[i]
    ensures !Passed(b, a, r, i) ==> b.lines[i].occupied && a.lines[i].sector == b.lines[i].sector
  {
    if !r.Sync? {
      assert HeldAt(b, i, r.sector) ==> Held(b, r.sector);
      if Held(b, r.sector) {
        var h :| HeldAt(b, h, r.sector);
      }
    }
  }

  /** The access bit of a slot in use says exactly that its sector was asked for since
      the hand last passed it. */
  lemma {:induction false} AccessIsFresh(trace: seq<Clock>, rs: seq<Request>, k: nat, i: nat)
    requires Ticking(trace, rs) && Shaped(trace) && k < |trace| && i < CACHE_SIZE && trace[k].lines[i].occupied
    ensures trace[k].lines[i].access <==> Fresh(trace, rs, k, i)
  {
    if k > 0 {
      TraceTidy(trace, rs, k - 1);
      TickOfSlot(trace[k - 1], trace[k], rs[k - 1], i);
      var passed := Passed(trace[k - 1], trace[k], rs[k - 1], i);
      hide Ticked, Passed, Ticking;
      if Asks(rs[k - 1], trace[k].lines[i].sector) {
        assert AskedAt(trace, rs, k, i, k - 1);
      } else if passed {
        forall j: nat
          ensures !AskedAt(trace, rs, k, i, j)
        {
        }
      } else {
        AccessIsFresh(trace, rs, k - 1, i);
        FreshStays(trace, rs, k - 1, i);
      }
    }
  }

  /** A request that neither asks for the slot's sector nor passes the slot changes nothing for it. */
  lemma FreshStays(trace: seq<Clock>, rs: seq<Request>, k: nat, i: nat)
    requires Shaped(trace) && k + 1 < |trace| == |rs| + 1 && i < CACHE_SIZE
    requires trace[k + 1].lines[i].sector == trace[k].lines[i].sector
    requires !Asks(rs[k], trace[k + 1].lines[i].sector) && !Passed(trace[k], trace[k + 1], rs[k], i)
    ensures Fresh(trace, rs, k + 1, i) <==> Fresh(trace, rs, k, i)
  {
    hide Passed;
    if Fresh(trace, rs, k + 1, i) {
      var j: nat :| AskedAt(trace, rs, k + 1, i, j);
      assert AskedAt(trace, rs, k, i, j);
    }
    if Fresh(trace, rs, k, i) {
      var j: nat :| AskedAt(trace, rs, k, i, j);
      assert AskedAt(trace, rs, k + 1, i, j);
    }
  }

  /** The law of the second chance, over every run: a sector that was asked for since the
      hand last passed its slot loses it only if all 64 slots hold such sectors, and
      then the hand goes once round and takes the slot it started from. */
  lemma SecondChance(trace: seq<Clock>, rs: seq<Request>, k: nat)
    requires Ticking(trace, rs) && Shaped(trace) && k < |rs| && !rs[k].Sync? && !Held(trace[k], rs[k].sector)
    requires trace[k].lines[trace[k + 1].hand].occupied && Fresh(trace, rs, k, trace[k + 1].hand)
    ensures trace[k + 1].hand == trace[k].hand
    ensures forall i :: 0 <= i < CACHE_SIZE ==> trace[k].lines[i].occupied && Fresh(trace, rs, k, i)
  {
    var b, a := trace[k], trace[k + 1];
    AccessIsFresh(trace, rs, k, a.hand);
    assert Ticked(b, a, rs[k]) && Miss(b, a, rs[k].sector);
    forall i | 0 <= i < CACHE_SIZE
      ensures b.lines[i].occupied && Fresh(trace, rs, k, i)
    {
      assert Distance(b.hand, i) < Steps(b, a);
      AccessIsFresh(trace, rs, k, i);
    }
  }

  /** And no sector loses its slot while another slot is empty. */
  lemma NoNeedlessEviction(trace: seq<Clock>, rs: seq<Request>, k: nat)
    requires Ticking(trace, rs) && Shaped(trace) && k < |rs| && !rs[k].Sync? && !Held(trace[k], rs[k].sector)
    requires trace[k].lines[trace[k + 1].hand].occupied
    ensures forall i :: 0 <= i < CACHE_SIZE ==> trace[k].lines[i].occupied
  {
    var n := TracePrefix(trace, rs, k);
    assert Ticked(trace[k], trace[k + 1], rs[k]) && Miss(trace[k], trace[k + 1], rs[k].sector);
    if trace[k].hand < CACHE_SIZE - 1 && !trace[k].lines[trace[k].hand + 1].occupied {
      assert Distance(trace[k].hand, trace[k].hand + 1) == 1;
    }
  }

  /** The slots in use are a prefix, and until it is the whole cache its last slot is under the
      hand with the access bit set. */
  ghost predicate Filling(c: Clock, n: nat) {
    && c.hand < CACHE_SIZE == |c.lines| && n <= CACHE_SIZE
    && (forall i :: 0 <= i < CACHE_SIZE ==> (c.lines[i].occupied <==> i < n))
    && (n == 0 ==> c.hand == 0)
    && (0 < n < CACHE_SIZE ==> c.hand == n - 1 && c.lines[c.hand].access)
  }

  lemma TickFills(b: Clock, a: Clock, r: Request, n: nat) returns (m: nat)
    requires Filling(b, n) && Ticked(b, a, r)
    ensures Filling(a, m)
  {
    m := n;
    if !r.Sync? {
      if Held(b, r.sector) {
        var h :| HeldAt(b, h, r.sector);
      } else if n < CACHE_SIZE {
        assert Distance(b.hand, n) <= 1;
        m := n + 1;
      }
    }
  }

  lemma {:induction false} TracePrefix(trace: seq<Clock>, rs: seq<Request>, k: nat) returns (n: nat)
    requires Ticking(trace, rs) && k < |trace|
    ensures Filling(trace[k], n)
  {
    if k == 0 {
      n := 0;
    } else {
      var m := TracePrefix(trace, rs, k - 1);
      n := TickFills(trace[k - 1], trace[k], rs[k - 1], m);
    }
  }

  lemma PlainNone(device: seq<Sector>)
    ensures Plain(device, []) == device
  {
  }
}
