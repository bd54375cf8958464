/** The doubly linked list with head and tail sentinels, and its in-place sort. */
module List {
  import opened ListOrder

  /** x comes right before y. */
  ghost predicate Link<K>(x: Elem<K>, y: Elem<K>)
    reads x, y
  {
    x.next == y && y.prev == x
  }

  /** Consecutive elements of s are linked to each other. */
  ghost predicate Chain<K>(s: seq<Elem<K>>)
    reads s
  {
    forall i :: 0 <= i < |s| - 1 ==> Link(s[i], s[i + 1])
  }

  /** at inverts s, so no element occurs twice. */
  ghost predicate Inverts<K>(s: seq<Elem<K>>, at: map<Elem<K>, int>) {
    InvertsFrom(s, at, 0)
  }

  ghost predicate InvertsFrom<K>(s: seq<Elem<K>>, at: map<Elem<K>, int>, base: int) {
    forall i :: 0 <= i < |s| ==> s[i] in at && at[s[i]] == base + i
  }

  lemma InvertsParts<K>(s: seq<Elem<K>>, t: seq<Elem<K>>, at: map<Elem<K>, int>)
    requires Inverts(s + t, at)
    ensures InvertsFrom(s, at, 0) && InvertsFrom(t, at, |s|)
  {
    assert forall x :: 0 <= x < |s| ==> (s + t)[x] == s[x];
    assert forall x :: 0 <= x < |t| ==> (s + t)[|s| + x] == t[x];
  }

  lemma ChainConcat<K>(s: seq<Elem<K>>, t: seq<Elem<K>>)
    requires Chain(s) && Chain(t) && (s != [] && t != [] ==> Link(s[|s| - 1], t[0]))
    ensures Chain(s + t)
  {
  }

  /** Takes all[i..j], which runs from first to l, out of the list. */
  method Detach<K>(first: Elem<K>, l: Elem<K>, ghost prior: Elem<K>, ghost after: Elem<K>,
                   ghost all: seq<Elem<K>>, ghost at: map<Elem<K>, int>, ghost i: nat, ghost j: nat)
    requires Chain(all) && Inverts(all, at)
    requires 0 < i < j < |all| && all[i] == first && all[j - 1] == l
    requires all[i - 1] == prior && all[j] == after
    modifies prior`next, after`prev
    ensures Chain(all[..i] + all[j..]) && Chain(all[i..j])
    ensures first.prev == prior && l.next == after
  {
    assert Link(all[i - 1], all[i]) && Link(all[j - 1], all[j]);
    first.prev.next := l.next;
    l.next.prev := first.prev;
    assert Chain(all[..i]) && Chain(all[j..]) && Chain(all[i..j]);
    ChainConcat(all[..i], all[j..]);
  }

  /** Puts the chain m, which runs from first to l, in before rest[k]. */
  method Attach<K>(before: Elem<K>, first: Elem<K>, l: Elem<K>, ghost prior: Elem<K>, ghost rest: seq<Elem<K>>,
                   ghost m: seq<Elem<K>>,
                   ghost at: map<Elem<K>, int>, ghost k: nat)
    requires Chain(rest) && Chain(m) && InvertsFrom(rest, at, 0) && InvertsFrom(m, at, |rest|)
    requires 0 < k < |rest| && rest[k - 1] == prior && rest[k] == before && m != [] && m[0] == first && m[|m| - 1] == l
    modifies first`prev, l`next, prior`next, before`prev
    ensures Chain(rest[..k] + m + rest[k..])
  {
    ghost var p, r := rest[..k], rest[k..];
    assert Link(rest[k - 1], rest[k]);
    first.prev := before.prev;
    l.next := before;
    before.prev.next := first;
    before.prev := l;
    assert Chain(p) && Chain(m) && Chain(r);
    ChainConcat(p, m);
    ChainConcat(p + m, r);
  }

  ghost predicate Distinct<T>(s: seq<T>) {
    forall i, j :: 0 <= i < j < |s| ==> s[i] != s[j]
  }

  ghost function Index<K>(s: seq<Elem<K>>): map<Elem<K>, int> {
    map e | e in s :: var i :| 0 <= i < |s| && s[i] == e; i
  }

  lemma IndexInverts<K>(s: seq<Elem<K>>)
    requires Distinct(s)
    ensures Inverts(s, Index(s))
  {
  }

  lemma DistinctCounts<T>(s: seq<T>, e: T)
    requires Distinct(s)
    ensures multiset(s)[e] <= 1
  {
    if e in s {
      var i :| 0 <= i < |s| && s[i] == e;
      assert s == s[..i] + [e] + s[i + 1..];
      assert e !in s[..i] && e !in s[i + 1..];
    }
  }

  lemma RepeatCounts<T>(t: seq<T>, i: nat, j: nat)
    requires i < j < |t| && t[i] == t[j]
    ensures multiset(t)[t[i]] >= 2
  {
    assert t == t[..i] + [t[i]] + t[i + 1..j] + [t[j]] + t[j + 1..];
  }

  /** A rearrangement of distinct elements is distinct. */
  lemma DistinctPermutes<T>(s: seq<T>, t: seq<T>)
    requires Distinct(s) && multiset(s) == multiset(t)
    ensures Distinct(t)
  {
    forall i, j | 0 <= i < j < |t|
      ensures t[i] != t[j]
    {
      DistinctCounts(s, t[i]);
      if t[i] == t[j] {
        RepeatCounts(t, i, j);
      }
    }
  }

  /** The list after all[i..j] has moved to position k of what is left without it. */
  ghost function Moved<T>(all: seq<T>, i: nat, j: nat, k: nat): seq<T>
    requires i <= j <= |all| && k <= |all| - (j - i)
  {
    var rest := all[..i] + all[j..];
    rest[..k] + all[i..j] + rest[k..]
  }

  lemma CutElements<T>(s: seq<T>, k: nat)
    requires k <= |s|
    ensures multiset(s) == multiset(s[..k]) + multiset(s[k..])
  {
    assert s == s[..k] + s[k..];
  }

  lemma CutThree<T>(s: seq<T>, i: nat, j: nat)
    requires i <= j <= |s|
    ensures multiset(s) == multiset((s[..i] + s[j..]) + s[i..j])
  {
    CutElements(s, j);
    CutElements(s[..j], i);
    assert s[..j][..i] == s[..i] && s[..j][i..] == s[i..j];
  }

  lemma InsertElements<T>(rest: seq<T>, m: seq<T>, k: nat)
    requires k <= |rest|
    ensures multiset(rest[..k] + m + rest[k..]) == multiset(rest + m)
  {
    CutElements(rest, k);
  }

  lemma MovedElements<T>(all: seq<T>, i: nat, j: nat, k: nat)
    requires i <= j <= |all| && k <= |all| - (j - i)
    ensures multiset(Moved(all, i, j, k)) == multiset(all) == multiset((all[..i] + all[j..]) + all[i..j])
  {
    CutThree(all, i, j);
    InsertElements(all[..i] + all[j..], all[i..j], k);
  }

  /** The two parts of a list that is being cut in two stay distinct. */
  lemma CutInverts<K>(all: seq<Elem<K>>, i: nat, j: nat)
    requires Distinct(all) && i <= j <= |all|
    ensures Inverts(all, Index(all))
    ensures var cut := (all[..i] + all[j..]) + all[i..j]; Inverts(cut, Index(cut))
  {
    var cut := (all[..i] + all[j..]) + all[i..j];
    hide Index;
    MovedElements(all, i, j, 0);
    DistinctPermutes(all, cut);
    IndexInverts(all);
    IndexInverts(cut);
  }

  lemma MovedNothing<T>(all: seq<T>, i: nat, j: nat, k: nat)
    requires Distinct(all) && 0 < i <= j < |all| && all[i] == all[j] && 0 < k < |all| - (j - i)
    ensures Moved(all, i, j, k) == all
  {
    assert i == j;
    assert all[..i] + all[i..] == all;
    assert all[i..i] == [];
  }

  /** Removes the elements from first up to last (exclusive), all[i..j], and puts
      them back before `before`, which is at position k of what is left. */
  method Splice<K>(before: Elem<K>, first: Elem<K>, last: Elem<K>, ghost all: seq<Elem<K>>, ghost i: nat, ghost j: nat,
                   ghost k: nat)
    requires Chain(all) && Distinct(all)
    requires 0 < i <= j < |all| && all[i] == first && all[j] == last
    requires 0 < k < |all| - (j - i) && (all[..i] + all[j..])[k] == before
    modifies Members(all)
    ensures Chain(Moved(all, i, j, k))
    ensures all[0].prev == old(all[0].prev) && all[|all| - 1].next == old(all[|all| - 1].next)
  {
    if first == last {
      MovedNothing(all, i, j, k);
      return;
    }
    assert Link(all[j - 1], all[j]);
    var l := last.prev;
    CutInverts(all, i, j);
    hide Distinct, Index, Moved;
    SpliceApart(before, first, last, l, all, Index(all), Index((all[..i] + all[j..]) + all[i..j]), i, j, k);
  }

  method SpliceApart<K>(before: Elem<K>, first: Elem<K>, ghost last: Elem<K>, l: Elem<K>, ghost all: seq<Elem<K>>,
                        ghost at: map<Elem<K>, int>, ghost cutAt: map<Elem<K>, int>,
                        ghost i: nat, ghost j: nat, ghost k: nat)
    requires 0 < i < j < |all| && all[i] == first && all[j] == last && all[j - 1] == l
    requires Chain(all) && Inverts(all, at) && Inverts((all[..i] + all[j..]) + all[i..j], cutAt)
    requires 0 < k < |all| - (j - i) && (all[..i] + all[j..])[k] == before
    modifies Members(all)
    ensures Chain(Moved(all, i, j, k))
    ensures all[0].prev == old(all[0].prev) && all[|all| - 1].next == old(all[|all| - 1].next)
  {
    ghost var rest, m := all[..i] + all[j..], all[i..j];
    assert rest[k - 1] in all && all[0] == rest[0] && all[|all| - 1] == rest[|rest| - 1];
    Detach(first, l, all[i - 1], last, all, at, i, j);
    InvertsParts(rest, m, cutAt);
    Attach(before, first, l, rest[k - 1], rest, m, cutAt, k);
  }

  /** The same between two lists: all[i..j] leaves its list and joins the other one
      before its element at position k. */
  method SpliceAcross<K>(before: Elem<K>, first: Elem<K>, last: Elem<K>,
                         ghost all: seq<Elem<K>>, ghost other: seq<Elem<K>>, ghost i: nat, ghost j: nat, ghost k: nat)
    requires Chain(all) && Chain(other) && Distinct(all + other)
    requires 0 < i <= j < |all| && all[i] == first && all[j] == last && 0 < k < |other| && other[k] == before
    modifies Members(all), Members(other)
    ensures Chain(all[..i] + all[j..]) && Chain(other[..k] + all[i..j] + other[k..])
    ensures all[0].prev == old(all[0].prev) && all[|all| - 1].next == old(all[|all| - 1].next)
    ensures other[0].prev == old(other[0].prev) && other[|other| - 1].next == old(other[|other| - 1].next)
  {
    AcrossInverts(all, other, i, j);
    if first == last {
      assert all[..i] + all[j..] == all && other[..k] + all[i..j] + other[k..] == other;
      return;
    }
    assert Link(all[j - 1], all[j]);
    var l := last.prev;
    hide Distinct, Index;
    TwoListSplice(before, first, last, l, all, other, Index(all + other), Index(other + all[i..j]), i, j, k);
  }

  method TwoListSplice<K>(before: Elem<K>, first: Elem<K>, ghost last: Elem<K>, l: Elem<K>,
                          ghost all: seq<Elem<K>>, ghost other: seq<Elem<K>>, ghost at: map<Elem<K>, int>,
                          ghost joinAt: map<Elem<K>, int>, ghost i: nat, ghost j: nat, ghost k: nat)
    requires 0 < i < j < |all| && all[i] == first && all[j] == last && all[j - 1] == l
    requires 0 < k < |other| && other[k] == before && Chain(all) && Chain(other)
    requires Inverts(all + other, at) && Inverts(other + all[i..j], joinAt)
    modifies Members(all), Members(other)
    ensures Chain(all[..i] + all[j..]) && Chain(other[..k] + all[i..j] + other[k..])
    ensures all[0].prev == old(all[0].prev) && all[|all| - 1].next == old(all[|all| - 1].next)
    ensures other[0].prev == old(other[0].prev) && other[|other| - 1].next == old(other[|other| - 1].next)
  {
    InvertsParts(all, other, at);
    InvertsParts(other, all[i..j], joinAt);
    assert other[k - 1] in other && all[i - 1] in all;
    Detach(first, l, all[i - 1], last, all, at, i, j);
    ghost var rest := all[..i] + all[j..];
    assert forall x :: 0 <= x < |rest| ==> rest[x] in at && at[rest[x]] == if x < i then x else x + j - i;
    Attach(before, first, l, other[k - 1], other, all[i..j], joinAt, k);
  }

  lemma AcrossInverts<K>(all: seq<Elem<K>>, other: seq<Elem<K>>, i: nat, j: nat)
    requires Distinct(all + other) && i <= j < |all|
    ensures Inverts(all + other, Index(all + other)) && Inverts(other + all[i..j], Index(other + all[i..j]))
    ensures all[i] == all[j] ==> i == j
  {
    var both, joined := all + other, other + all[i..j];
    assert forall x :: 0 <= x < |joined| ==> joined[x] == both[if x < |other| then |all| + x else i + x - |other|];
    hide Index;
    assert (all + other)[i] == all[i] && (all + other)[j] == all[j];
    IndexInverts(both);
    IndexInverts(joined);
  }

  /** The end of the nondecreasing run that starts at a and ends not after b. */
  method FindEndOfRun<K>(a: Elem<K>, b: Elem<K>, less: (K, K) -> bool, ghost all: seq<Elem<K>>, ghost i: nat,
                         ghost e: nat)
    returns (r: Elem<K>, ghost n: nat)
    requires Chain(all) && Distinct(all) && i < e < |all| && all[i] == a && all[e] == b
    ensures n == RunLen(all[i..e], less) && r == all[i + RunLen(all[i..e], less)] && Chain(all)
  {
    assert Link(all[i], all[i + 1]);
    r, n := a.next, 1;
    while r != b && !less(r.key, r.prev.key)
      invariant 1 <= n <= e - i && r == all[i + n]
      invariant r.prev == all[i + n - 1]
      invariant RunLen(all[i..e], less) == n - 1 + RunLen(all[i + n - 1..e], less)
      decreases e - i - n
    {
      assert Link(all[i + n], all[i + n + 1]);
      assert all[i + n - 1..e][1..] == all[i + n..e];
      r, n := r.next, n + 1;
    }
    assert all[i + n - 1..e][0] == all[i + n - 1];
    assert i + n < e ==> all[i + n - 1..e][1] == all[i + n];
  }

  ghost function Join<T>(p: seq<T>, a: seq<T>, b: seq<T>, q: seq<T>): seq<T> {
    p + a + b + q
  }

  /** Where the two ranges of a merge start and end. */
  ghost predicate Ranges<K>(a0: Elem<K>, a1b0: Elem<K>, b1: Elem<K>, pre: seq<Elem<K>>, a: seq<Elem<K>>,
                            b: seq<Elem<K>>, post: seq<Elem<K>>) {
    pre != [] && post != [] && (a + b + post)[0] == a0 && (b + post)[0] == a1b0 && post[0] == b1
  }

  lemma RangesEmpty<K>(a0: Elem<K>, a1b0: Elem<K>, b1: Elem<K>, pre: seq<Elem<K>>, a: seq<Elem<K>>, b: seq<Elem<K>>,
                       post: seq<Elem<K>>)
    requires Ranges(a0, a1b0, b1, pre, a, b, post) && Distinct(Join(pre, a, b, post))
    ensures a0 == a1b0 <==> a == []
    ensures a1b0 == b1 <==> b == []
  {
    var all := Join(pre, a, b, post);
    assert all[|pre|] == a0;
    assert all[|pre| + |a|] == a1b0;
    assert all[|pre| + |a| + |b|] == b1;
  }

  ghost function Members<T>(s: seq<T>): set<T> {
    set e | e in s
  }

  lemma SameMembers<T>(s: seq<T>, t: seq<T>)
    requires multiset(s) == multiset(t)
    ensures Members(s) == Members(t)
  {
    assert forall e :: e in s <==> e in multiset(s);
    assert forall e :: e in t <==> e in multiset(t);
  }

  /** The list of a merge, seen as one sequence. */
  lemma JoinAt<T>(p: seq<T>, c: seq<T>, d: seq<T>, q: seq<T>)
    requires p != [] && c != [] && d != [] && q != []
    ensures var all := Join(p, c, d, q); var i := |p| + |c|;
            && i + 1 < |all| && all[i] == d[0] && all[i + 1] == (d[1..] + q)[0]
            && all[0] == p[0] && all[|all| - 1] == q[|q| - 1]
            && (all[..i] + all[i + 1..])[|p|] == c[0]
  {
  }

  lemma MovedOne<T>(p: seq<T>, c: seq<T>, x: T, v: seq<T>)
    ensures Moved((p + c) + [x] + v, |p| + |c|, |p| + |c| + 1, |p|) == p + [x] + (c + v)
  {
    var all, i := (p + c) + [x] + v, |p| + |c|;
    assert all[..i] == p + c && all[i..i + 1] == [x] && all[i + 1..] == v;
    assert ((p + c) + v)[..|p|] == p && ((p + c) + v)[|p|..] == c + v;
  }

  lemma JoinHead<T>(p: seq<T>, c: seq<T>, d: seq<T>, q: seq<T>)
    requires d != []
    ensures Join(p, c, d, q) == (p + c) + [d[0]] + (d[1..] + q)
    ensures Join(p + [d[0]], c, d[1..], q) == p + [d[0]] + (c + (d[1..] + q))
  {
    assert d == [d[0]] + d[1..];
  }

  /** Moving the first element of d in front of c. */
  lemma JoinMovedShape<T>(p: seq<T>, c: seq<T>, d: seq<T>, q: seq<T>)
    requires d != []
    ensures var all, i := Join(p, c, d, q), |p| + |c|;
            && i + 1 <= |all| && |p| <= |all| - 1
            && Moved(all, i, i + 1, |p|) == Join(p + [d[0]], c, d[1..], q)
  {
    hide Join, Moved;
    JoinHead(p, c, d, q);
    MovedOne(p, c, d[0], d[1..] + q);
  }

  lemma JoinMoved<T>(p: seq<T>, c: seq<T>, d: seq<T>, q: seq<T>)
    requires d != [] && Distinct(Join(p, c, d, q))
    ensures multiset(Join(p + [d[0]], c, d[1..], q)) == multiset(Join(p, c, d, q))
    ensures Distinct(Join(p + [d[0]], c, d[1..], q))
  {
    hide Distinct, Join, Moved;
    JoinMovedShape(p, c, d, q);
    MovedElements(Join(p, c, d, q), |p| + |c|, |p| + |c| + 1, |p|);
    DistinctPermutes(Join(p, c, d, q), Join(p + [d[0]], c, d[1..], q));
  }

  lemma MergeTakesFirst<K>(p: seq<Elem<K>>, c: seq<Elem<K>>, d: seq<Elem<K>>, less: (K, K) -> bool)
    requires c != [] && d != [] && !less(d[0].key, c[0].key)
    ensures (p + [c[0]]) + Merge(c[1..], d, less) == p + Merge(c, d, less)
  {
  }

  lemma MergeTakesSecond<K>(p: seq<Elem<K>>, c: seq<Elem<K>>, d: seq<Elem<K>>, less: (K, K) -> bool)
    requires c != [] && d != [] && less(d[0].key, c[0].key)
    ensures (p + [d[0]]) + Merge(c, d[1..], less) == p + Merge(c, d, less)
  {
  }

  lemma MergeEnds<K>(p: seq<Elem<K>>, c: seq<Elem<K>>, d: seq<Elem<K>>, q: seq<Elem<K>>, less: (K, K) -> bool)
    requires c == [] || d == []
    ensures Join(p, c, d, q) == p + Merge(c, d, less) + q
  {
    assert c == [] ==> p + c + d == p + d;
    assert d == [] ==> p + c + d == p + c;
  }

  lemma JoinStepOver<T>(p: seq<T>, c: seq<T>, d: seq<T>, q: seq<T>)
    requires c != [] && q != []
    ensures Join(p + [c[0]], c[1..], d, q) == Join(p, c, d, q)
    ensures |p| + 1 < |Join(p, c, d, q)| && Join(p, c, d, q)[|p|] == c[0]
            && Join(p, c, d, q)[|p| + 1] == (c[1..] + d + q)[0]
  {
  }

  /** Merges two adjacent runs by moving elements of the second into the first. */
  method InplaceMerge<K(!new)>(a0: Elem<K>, a1b0: Elem<K>, b1: Elem<K>, less: (K, K) -> bool,
                               ghost pre: seq<Elem<K>>, ghost a: seq<Elem<K>>, ghost b: seq<Elem<K>>,
                               ghost post: seq<Elem<K>>)
    requires Chain(Join(pre, a, b, post)) && Distinct(Join(pre, a, b, post)) && Ranges(a0, a1b0, b1, pre, a, b, post)
    modifies Members(Join(pre, a, b, post))
    ensures Chain(pre + Merge(a, b, less) + post)
    ensures pre[0].prev == old(pre[0].prev) && post[|post| - 1].next == old(post[|post| - 1].next)
  {
    hide Chain, Distinct, Members, Merge, Join;
    var x, y := a0, a1b0;
    ghost var p, c, d := pre, a, b;
    RangesEmpty(x, y, b1, p, c, d, post);
    while x != y && y != b1
      invariant Chain(Join(p, c, d, post)) && Distinct(Join(p, c, d, post)) && Ranges(x, y, b1, p, c, d, post)
      invariant Members(Join(p, c, d, post)) == Members(Join(pre, a, b, post))
      invariant p[0] == pre[0] && pre[0].prev == old(pre[0].prev) && post[|post| - 1].next == old(post[|post| - 1].next)
      invariant p + Merge(c, d, less) == pre + Merge(a, b, less)
      invariant (x == y <==> c == []) && (y == b1 <==> d == [])
      decreases |c| + |d|
    {
      if !less(y.key, x.key) {
        MergeTakesFirst(p, c, d, less);
        x := StepOver(x, p, c, d, post);
        p, c := p + [c[0]], c[1..];
      } else {
        MergeTakesSecond(p, c, d, less);
        y := MoveFront(x, y, p, c, d, post);
        p, d := p + [d[0]], d[1..];
      }
      RangesEmpty(x, y, b1, p, c, d, post);
    }
    MergeEnds(p, c, d, post, less);
  }

  method StepOver<K>(x: Elem<K>, ghost p: seq<Elem<K>>, ghost c: seq<Elem<K>>, ghost d: seq<Elem<K>>,
                     ghost post: seq<Elem<K>>)
    returns (next: Elem<K>)
    requires Chain(Join(p, c, d, post)) && c != [] && post != [] && x == c[0]
    ensures Join(p + [c[0]], c[1..], d, post) == Join(p, c, d, post) && Chain(Join(p + [c[0]], c[1..], d, post))
    ensures next == (c[1..] + d + post)[0]
  {
    hide Join;
    JoinStepOver(p, c, d, post);
    assert Link(Join(p, c, d, post)[|p|], Join(p, c, d, post)[|p| + 1]);
    next := x.next;
  }

  /** Moves the first element of d, which is y, to the front of c, which is x. */
  method MoveFront<K>(x: Elem<K>, y: Elem<K>, ghost p: seq<Elem<K>>, ghost c: seq<Elem<K>>, ghost d: seq<Elem<K>>,
                      ghost post: seq<Elem<K>>)
    returns (next: Elem<K>)
    requires Chain(Join(p, c, d, post)) && Distinct(Join(p, c, d, post))
    requires p != [] && c != [] && d != [] && post != [] && x == c[0] && y == d[0]
    modifies Members(Join(p, c, d, post))
    ensures Chain(Join(p + [d[0]], c, d[1..], post)) && Distinct(Join(p + [d[0]], c, d[1..], post))
    ensures Members(Join(p + [d[0]], c, d[1..], post)) == Members(Join(p, c, d, post))
    ensures next == (d[1..] + post)[0]
    ensures p[0].prev == old(p[0].prev) && post[|post| - 1].next == old(post[|post| - 1].next)
  {
    hide Join, Distinct, Moved;
    ghost var all := Join(p, c, d, post);
    ghost var i := |p| + |c|;
    JoinAt(p, c, d, post);
    JoinMovedShape(p, c, d, post);
    JoinMoved(p, c, d, post);
    SameMembers(Join(p + [d[0]], c, d[1..], post), all);
    assert Link(all[i], all[i + 1]);
    next := y.next;
    Splice(x, next.prev, next, all, i, i + 1, |p|);
  }

  /** The list during a pass: the part already merged, then the part still to do. */
  lemma PassShape<T>(h: T, done: seq<T>, rest: seq<T>, t: T, n: nat)
    requires n <= |rest|
    ensures var all, i := Join([h], done, rest, [t]), 1 + |done|;
            && |all| == i + |rest| + 1 && all[i + |rest|] == t && all[0] == h
            && all[i + n..i + |rest|] == rest[n..] && all[i + n] == (rest[n..] + [t])[0]
  {
  }

  lemma PassJoin<T>(h: T, done: seq<T>, rest: seq<T>, t: T, n: nat, m: nat)
    requires n + m <= |rest|
    ensures Join([h] + done, rest[..n], rest[n..n + m], rest[n + m..] + [t]) == Join([h], done, rest, [t])
  {
    assert rest == rest[..n] + rest[n..n + m] + rest[n + m..];
  }

  lemma MergedShape<T>(h: T, done: seq<T>, merged: seq<T>, rest: seq<T>, t: T)
    ensures ([h] + done) + merged + (rest + [t]) == Join([h], done + merged, rest, [t])
  {
  }

  lemma MergedElements<K>(h: Elem<K>, done: seq<Elem<K>>, rest: seq<Elem<K>>, t: Elem<K>, n: nat, m: nat, less: (K,
                          K) -> bool)
    requires n + m <= |rest|
    ensures multiset(Join([h], done + Merge(rest[..n], rest[n..n + m], less), rest[n + m..], [t]))
         == multiset(Join([h], done, rest, [t]))
  {
    hide *;
    var merged := Merge(rest[..n], rest[n..n + m], less);
    assert multiset(merged) + multiset(rest[n + m..]) == multiset(rest) by {
      MergeElements(rest[..n], rest[n..n + m], less);
      ThreeParts(rest, n, n + m);
    }
    JoinElements([h], done + merged, rest[n + m..], [t]);
    JoinElements([h], done, rest, [t]);
    AddElements(done, merged);
  }

  lemma AddElements<T>(s: seq<T>, t: seq<T>)
    ensures multiset(s + t) == multiset(s) + multiset(t)
  {
  }

  lemma JoinElements<T>(p: seq<T>, a: seq<T>, b: seq<T>, q: seq<T>)
    ensures multiset(Join(p, a, b, q)) == multiset(p) + multiset(a) + multiset(b) + multiset(q)
  {
  }

  lemma RunRanges<K>(h: Elem<K>, done: seq<Elem<K>>, rest: seq<Elem<K>>, t: Elem<K>, n: nat, m: nat, b1: Elem<K>)
    requires 0 < n && 0 < m && n + m <= |rest| && b1 == (rest[n + m..] + [t])[0]
    ensures Ranges(rest[0], rest[n], b1, [h] + done, rest[..n], rest[n..n + m], rest[n + m..] + [t])
  {
  }

  lemma NothingIsSorted<K>(less: (K, K) -> bool)
    ensures Sorted([], less)
  {
  }

  /** What a pass reports bounds the runs it leaves, and is less than what the pass before it reported. */
  lemma PassLeaves<K(!new)>(s: seq<Elem<K>>, less: (K, K) -> bool)
    requires StrictWeakOrder(less)
    ensures s == [] ==> Pass(s, less) == [] && PassCount(s, less) == 0
    ensures s != [] ==> Breaks(Pass(s, less), less) < PassCount(s, less) == (Breaks(s, less) + 2) / 2
  {
    if s != [] {
      PassBreaks(s, less);
      PassHalves(s, less);
    }
  }

  lemma TailOnlyAtEnd<T>(h: T, done: seq<T>, rest: seq<T>, t: T, n: nat)
    requires Distinct(Join([h], done, rest, [t])) && n <= |rest|
    ensures (rest[n..] + [t])[0] == t <==> n == |rest|
  {
    var all := Join([h], done, rest, [t]);
    assert n < |rest| ==> all[1 + |done| + n] == rest[n];
    assert all[|all| - 1] == t;
  }

  lemma RestIsDone<T>(h: T, done: seq<T>, rest: seq<T>, t: T)
    ensures Join([h], done, rest, [t]) == Join([h], done + rest, [], [t])
  {
  }

  /** Merges the first two runs of rest; returns where the second one ended. */
  method MergeRuns<K(!new)>(h: Elem<K>, t: Elem<K>, a0: Elem<K>, a1b0: Elem<K>, less: (K, K) -> bool,
                            ghost done: seq<Elem<K>>, ghost rest: seq<Elem<K>>, ghost n: nat)
    returns (b1: Elem<K>, ghost m: nat)
    requires Chain(Join([h], done, rest, [t])) && Distinct(Join([h], done, rest, [t]))
    requires rest != [] && n == RunLen(rest, less) < |rest| && a0 == rest[0] && a1b0 == rest[n]
    modifies Members(Join([h], done, rest, [t]))
    ensures m == RunLen(rest[n..], less) && n + m <= |rest| && b1 == (rest[n + m..] + [t])[0]
    ensures var all := Join([h], done + Merge(rest[..n], rest[n..n + m], less), rest[n + m..], [t]);
            Chain(all) && Distinct(all) && Members(all) == Members(Join([h], done, rest, [t]))
    ensures h.prev == old(h.prev) && t.next == old(t.next)
  {
    hide Chain, Distinct, Members, Merge, Join, RunLen, SecondEnd, Ranges;
    ghost var all, i := Join([h], done, rest, [t]), 1 + |done|;
    PassShape(h, done, rest, t, n);
    b1, m := FindEndOfRun(a1b0, t, less, all, i + n, i + |rest|);
    SecondEndIs(rest, n, m, less);
    PassShape(h, done, rest, t, n + m);
    PassJoin(h, done, rest, t, n, m);
    RunRanges(h, done, rest, t, n, m, b1);
    MergedElements(h, done, rest, t, n, m, less);
    MergedShape(h, done, Merge(rest[..n], rest[n..n + m], less), rest[n + m..], t);
    InplaceMerge(a0, a1b0, b1, less, [h] + done, rest[..n], rest[n..n + m], rest[n + m..] + [t]);
    ghost var all' := Join([h], done + Merge(rest[..n], rest[n..n + m], less), rest[n + m..], [t]);
    DistinctPermutes(all, all');
    SameMembers(all', all);
  }

  /** One turn of a pass: finds the next run and, unless it is the last, merges the
      run after it into it. Returns where the next turn starts. */
  method Turn<K(!new)>(h: Elem<K>, t: Elem<K>, a0: Elem<K>, less: (K, K) -> bool, ghost done: seq<Elem<K>>,
                       ghost rest: seq<Elem<K>>)
    returns (next: Elem<K>, ghost done': seq<Elem<K>>, ghost rest': seq<Elem<K>>)
    requires Chain(Join([h], done, rest, [t])) && Distinct(Join([h], done, rest, [t])) && rest != [] && a0 == rest[0]
    modifies Members(Join([h], done, rest, [t]))
    ensures Chain(Join([h], done', rest', [t])) && Distinct(Join([h], done', rest', [t]))
    ensures Members(Join([h], done', rest', [t])) == Members(Join([h], done, rest, [t]))
    ensures next == (rest' + [t])[0] && (next == t <==> rest' == []) && |rest'| < |rest|
    ensures done' + Pass(rest', less) == done + Pass(rest, less) && 1 + PassCount(rest', less) == PassCount(rest, less)
    ensures h.prev == old(h.prev) && t.next == old(t.next)
  {
    hide Chain, Distinct, Members, Pass, PassCount, RunLen, SecondEnd, Join, Merge;
    PassShape(h, done, rest, t, 0);
    assert rest[0..] == rest;
    var a1b0, n := FindEndOfRun(a0, t, less, Join([h], done, rest, [t]), 1 + |done|, 1 + |done| + |rest|);
    PassShape(h, done, rest, t, n);
    TailOnlyAtEnd(h, done, rest, t, n);
    if a1b0 == t {
      PassEnds(rest, less);
      PassOfNothing(less);
      RestIsDone(h, done, rest, t);
      next, done', rest' := t, done + rest, [];
      return;
    }
    var b1, m := MergeRuns(h, t, a0, a1b0, less, done, rest, n);
    SecondEndIs(rest, n, m, less);
    PassStep(rest, less);
    TailOnlyAtEnd(h, done, rest, t, n + m);
    next, done', rest' := b1, done + Merge(rest[..n], rest[n..n + m], less), rest[n + m..];
    assert done' + Pass(rest', less) == done + (Merge(rest[..n], rest[n..n + m], less) + Pass(rest', less));
  }

  lemma JoinInsert<T>(h: T, s: seq<T>, t: T, e: T, k: nat)
    requires k <= |s|
    ensures var all := Join([h], [], s, [t]);
            && |all| == |s| + 2 && all[k + 1] == (s + [t])[k] && all[0] == h && all[|all| - 1] == t
            && Join([h], [], s[..k] + [e] + s[k..], [t]) == all[..k + 1] + [e] + all[k + 1..]
  {
  }

  lemma InsertShape<K>(h: Elem<K>, s: seq<Elem<K>>, t: Elem<K>, e: Elem<K>, k: nat)
    requires Distinct(Join([h], [], s, [t])) && e !in Join([h], [], s, [t]) && k <= |s|
    ensures var all, longer := Join([h], [], s, [t]), Join([h], [], s[..k] + [e] + s[k..], [t]);
            && |all| == |s| + 2 && all[k + 1] == (s + [t])[k] && all[0] == h && all[|all| - 1] == t
            && longer == all[..k + 1] + [e] + all[k + 1..] && Distinct(longer)
            && Inverts(all + [e], Index(all + [e]))
  {
    var all := Join([h], [], s, [t]);
    assert Distinct(all + [e]);
    hide Join, Distinct, Index;
    JoinInsert(h, s, t, e, k);
    IndexInverts(all + [e]);
    InsertElements(all, [e], k + 1);
    DistinctPermutes(all + [e], all[..k + 1] + [e] + all[k + 1..]);
  }

  lemma JoinRemove<T>(h: T, s: seq<T>, t: T, k: nat)
    requires k < |s|
    ensures var all := Join([h], [], s, [t]);
            && |all| == |s| + 2 && all[k + 1] == s[k] && all[k + 2] == (s[k + 1..] + [t])[0] && all[0] == h
              && all[|all| - 1] == t
            && Join([h], [], s[..k] + s[k + 1..], [t]) == all[..k + 1] + all[k + 2..]
  {
  }

  lemma DistinctRest<T>(all: seq<T>, k: nat)
    requires Distinct(all) && k < |all|
    ensures Distinct(all[..k] + all[k + 1..])
  {
  }

  lemma RemoveShape<K>(h: Elem<K>, s: seq<Elem<K>>, t: Elem<K>, k: nat)
    requires Distinct(Join([h], [], s, [t])) && k < |s|
    ensures var all, shorter := Join([h], [], s, [t]), Join([h], [], s[..k] + s[k + 1..], [t]);
            && |all| == |s| + 2 && all[k + 1] == s[k] && all[k + 2] == (s[k + 1..] + [t])[0] && all[0] == h
              && all[|all| - 1] == t
            && shorter == all[..k + 1] + all[k + 2..] && Distinct(shorter)
            && Inverts(all, Index(all))
  {
    hide Join, Distinct, Index;
    JoinRemove(h, s, t, k);
    DistinctRest(Join([h], [], s, [t]), k + 1);
    IndexInverts(Join([h], [], s, [t]));
  }

  class LinkedList<K(!new)> {
    const head: Elem<K>
    const tail: Elem<K>
    ghost var nodes: seq<Elem<K>>

    ghost function All(): seq<Elem<K>>
      reads this
    {
      Join([head], [], nodes, [tail])
    }

    ghost predicate Valid()
      reads this, head, tail, All()
    {
      Chain(All()) && Distinct(All()) && head.prev == null && tail.next == null
    }

    constructor (anyKey: K)
      ensures Valid() && nodes == [] && fresh(head) && fresh(tail)
    {
      head := new Elem(anyKey);
      tail := new Elem(anyKey);
      nodes := [];
      new;
      head.next := tail;
      tail.prev := head;
    }

    /** Puts elem in before `before`, the element at position k or the tail. */
    method Insert(before: Elem<K>, elem: Elem<K>, ghost k: nat)
      requires Valid() && elem !in All() && k <= |nodes| && before == (nodes + [tail])[k]
      modifies this, Members(All()), elem
      ensures Valid() && nodes == old(nodes)[..k] + [elem] + old(nodes)[k..]
    {
      hide Distinct, Index, InvertsFrom, Join;
      ghost var all := All();
      InsertShape(head, nodes, tail, elem, k);
      assert Chain([elem]);
      InvertsParts(all, [elem], Index(all + [elem]));
      Attach(before, elem, elem, all[k], all, [elem], Index(all + [elem]), k + 1);
      nodes := nodes[..k] + [elem] + nodes[k..];
    }

    /** Takes the element at position k out and returns the one that followed it. */
    method Remove(elem: Elem<K>, ghost k: nat) returns (next: Elem<K>)
      requires Valid() && k < |nodes| && nodes[k] == elem
      modifies this, Members(All())
      ensures Valid() && nodes == old(nodes)[..k] + old(nodes)[k + 1..]
      ensures next == (old(nodes)[k + 1..] + [tail])[0]
    {
      hide Distinct, Index, InvertsFrom, Join;
      ghost var all := All();
      RemoveShape(head, nodes, tail, k);
      Detach(elem, elem, all[k], all[k + 2], all, Index(all), k + 1, k + 2);
      nodes := nodes[..k] + nodes[k + 1..];
      next := elem.next;
    }

    method Begin() returns (e: Elem<K>)
      requires Valid()
      ensures Valid() && e == (nodes + [tail])[0]
    {
      assert Link(All()[0], All()[1]);
      e := head.next;
    }

    /** One pass: merges adjacent runs two by two and counts the runs it leaves. */
    method MergePass(less: (K, K) -> bool) returns (count: nat)
      requires Valid()
      modifies this, Members(All())
      ensures Valid() && nodes == Pass(old(nodes), less) && count == PassCount(old(nodes), less)
      ensures Members(All()) == old(Members(All()))
    {
      hide Chain, Distinct, Members, Pass, PassCount, Join;
      ghost var all0 := All();
      ghost var done, rest := [], nodes;
      count := 0;
      var a0 := Begin();
      TailOnlyAtEnd(head, done, rest, tail, 0);
      while a0 != tail
        invariant Chain(Join([head], done, rest, [tail])) && Distinct(Join([head], done, rest, [tail]))
        invariant head.prev == null && tail.next == null && a0 == (rest + [tail])[0] && (a0 == tail <==> rest == [])
        invariant Members(Join([head], done, rest, [tail])) == Members(all0)
        invariant done + Pass(rest, less) == Pass(old(nodes), less)
        invariant count + PassCount(rest, less) == PassCount(old(nodes), less)
        decreases |rest|
      {
        count := count + 1;
        a0, done, rest := Turn(head, tail, a0, less, done, rest);
      }
      PassOfNothing(less);
      RestIsDone(head, [], done, tail);
      assert [] + done == done && done + [] == done;
      nodes := done;
    }

    /** Sorts by passes until a pass leaves a single run. */
    method Sort(less: (K, K) -> bool)
      requires Valid() && StrictWeakOrder(less)
      modifies this, Members(All())
      ensures Valid() && Sorted(nodes, less) && StableRearrangement(old(nodes), nodes, less)
    {
      hide Chain, Distinct, Members, Pass, PassCount, Breaks, Select, Sorted, StrictWeakOrder;
      PassRearranges(nodes, less);
      PassLeaves(nodes, less);
      var count := MergePass(less);
      while count > 1
        invariant Valid() && Members(All()) == old(Members(All()))
        invariant StableRearrangement(old(nodes), nodes, less)
        invariant Breaks(nodes, less) < count || nodes == []
        decreases count
      {
        PassRearranges(nodes, less);
        PassLeaves(nodes, less);
        count := MergePass(less);
      }
      if nodes == [] {
        NothingIsSorted(less);
      } else {
        NoBreakIsSorted(nodes, less);
      }
    }
  }
}
