/** What sorting a list means, and the natural merge sort on sequences: merging
    two runs, one pass over all runs, and how many runs a pass leaves. */
module ListOrder {

  /** An intrusive list element with the datum that its container orders by. */
  class Elem<K> {
    const key: K
    var prev: Elem?<K>
    var next: Elem?<K>

    constructor (key: K)
      ensures this.key == key && prev == null && next == null
    {
      this.key := key;
      prev, next := null, null;
    }
  }

  ghost predicate StrictWeakOrder<K(!new)>(less: (K, K) -> bool) {
    && (forall a :: !less(a, a))
    && (forall a, b, c :: less(a, b) && less(b, c) ==> less(a, c))
    && (forall a, b, c :: !less(a, b) && !less(b, c) ==> !less(a, c))
  }

  /** Nondecreasing: no later element is less than an earlier one. */
  ghost predicate Sorted<K>(s: seq<Elem<K>>, less: (K, K) -> bool) {
    forall i, j :: 0 <= i < j < |s| ==> !less(s[j].key, s[i].key)
  }

  /** The elements of s that are equivalent to x, in order. */
  ghost function Select<K>(x: K, s: seq<Elem<K>>, less: (K, K) -> bool): seq<Elem<K>> {
    if s == [] then []
    else (if !less(s[0].key, x) && !less(x, s[0].key) then [s[0]] else []) + Select(x, s[1..], less)
  }

  /** t holds the elements of s, and equivalent elements keep their order. */
  ghost predicate StableRearrangement<K(!new)>(s: seq<Elem<K>>, t: seq<Elem<K>>, less: (K, K) -> bool) {
    multiset(s) == multiset(t) && forall x :: Select(x, s, less) == Select(x, t, less)
  }

  // ----- Merging -----

  function Merge<K>(a: seq<Elem<K>>, b: seq<Elem<K>>, less: (K, K) -> bool): (r: seq<Elem<K>>)
    ensures |r| == |a| + |b|
    decreases |a| + |b|
  {
    if a == [] then b
    else if b == [] then a
    else if less(b[0].key, a[0].key) then [b[0]] + Merge(a, b[1..], less)
    else [a[0]] + Merge(a[1..], b, less)
  }

  lemma {:induction false} SelectConcat<K>(x: K, s: seq<Elem<K>>, t: seq<Elem<K>>, less: (K, K) -> bool)
    ensures Select(x, s + t, less) == Select(x, s, less) + Select(x, t, less)
  {
    if s == [] {
      assert s + t == t;
    } else {
      assert (s + t)[1..] == s[1..] + t;
      SelectConcat(x, s[1..], t, less);
    }
  }

  lemma {:induction false} SelectNone<K>(x: K, s: seq<Elem<K>>, less: (K, K) -> bool)
    requires forall i :: 0 <= i < |s| ==> less(s[i].key, x) || less(x, s[i].key)
    ensures Select(x, s, less) == []
  {
    if s != [] {
      SelectNone(x, s[1..], less);
    }
  }

  lemma MergeUnfold<K>(a: seq<Elem<K>>, b: seq<Elem<K>>, less: (K, K) -> bool)
    ensures a == [] ==> Merge(a, b, less) == b
    ensures b == [] ==> Merge(a, b, less) == a
    ensures a != [] && b != [] ==>
              Merge(a, b, less) == if less(b[0].key, a[0].key) then [b[0]] + Merge(a, b[1..], less)
                else [a[0]] + Merge(a[1..], b, less)
  {
  }

  lemma CutHead<T>(s: seq<T>)
    requires s != []
    ensures s == [s[0]] + s[1..] && multiset(s) == multiset{s[0]} + multiset(s[1..])
  {
    assert s == [s[0]] + s[1..];
  }

  lemma {:induction false} MergeElements<K>(a: seq<Elem<K>>, b: seq<Elem<K>>, less: (K, K) -> bool)
    ensures multiset(Merge(a, b, less)) == multiset(a) + multiset(b)
    decreases |a| + |b|
  {
    hide *;
    MergeUnfold(a, b, less);
    if a != [] && b != [] {
      CutHead(a);
      CutHead(b);
      if less(b[0].key, a[0].key) {
        MergeElements(a, b[1..], less);
      } else {
        MergeElements(a[1..], b, less);
      }
    }
  }

  /** An element less than the whole run a passes it without meeting an equivalent one. */
  lemma SelectPasses<K(!new)>(x: K, a: seq<Elem<K>>, e: Elem<K>, less: (K, K) -> bool)
    requires StrictWeakOrder(less) && Sorted(a, less) && a != [] && less(e.key, a[0].key)
    requires !less(e.key, x) && !less(x, e.key)
    ensures Select(x, a, less) == []
  {
    forall i | 0 <= i < |a|
      ensures less(x, a[i].key)
    {
      assert !less(a[i].key, a[0].key);
    }
    SelectNone(x, a, less);
  }

  lemma SelectHead<K>(x: K, e: Elem<K>, s: seq<Elem<K>>, less: (K, K) -> bool)
    ensures Select(x, [e] + s, less) == Select(x, [e], less) + Select(x, s, less)
    ensures Select(x, [e], less) == if !less(e.key, x) && !less(x, e.key) then [e] else []
  {
    SelectConcat(x, [e], s, less);
    assert [e][1..] == [];
  }

  lemma SortedTail<K>(a: seq<Elem<K>>, less: (K, K) -> bool)
    requires Sorted(a, less) && a != []
    ensures Sorted(a[1..], less)
  {
  }

  lemma SelectCut<K>(x: K, s: seq<Elem<K>>, less: (K, K) -> bool)
    requires s != []
    ensures Select(x, s, less) == Select(x, [s[0]], less) + Select(x, s[1..], less)
  {
    hide Select;
    CutHead(s);
    SelectHead(x, s[0], s[1..], less);
  }

  lemma SelectOfNothing<K>(x: K, less: (K, K) -> bool)
    ensures Select(x, [], less) == []
  {
  }

  /** Merging keeps equivalent elements in order: those of a, then those of b. */
  lemma {:induction false} MergeStable<K(!new)>(x: K, a: seq<Elem<K>>, b: seq<Elem<K>>, less: (K, K) -> bool)
    requires StrictWeakOrder(less) && Sorted(a, less)
    ensures Select(x, Merge(a, b, less), less) == Select(x, a, less) + Select(x, b, less)
    decreases |a| + |b|
  {
    hide *;
    MergeUnfold(a, b, less);
    SelectOfNothing(x, less);
    if a != [] && b != [] {
      SelectCut(x, a, less);
      SelectCut(x, b, less);
      if less(b[0].key, a[0].key) {
        MergeStable(x, a, b[1..], less);
        SelectHead(x, b[0], Merge(a, b[1..], less), less);
        if !less(b[0].key, x) && !less(x, b[0].key) {
          SelectPasses(x, a, b[0], less);
        }
      } else {
        SortedTail(a, less);
        MergeStable(x, a[1..], b, less);
        SelectHead(x, a[0], Merge(a[1..], b, less), less);
      }
    }
  }

  lemma InMerge<K>(a: seq<Elem<K>>, b: seq<Elem<K>>, less: (K, K) -> bool, e: Elem<K>)
    requires e in Merge(a, b, less)
    ensures e in a || e in b
  {
    MergeElements(a, b, less);
    assert e in multiset(Merge(a, b, less));
  }

  lemma {:induction false} MergeSorted<K(!new)>(a: seq<Elem<K>>, b: seq<Elem<K>>, less: (K, K) -> bool)
    requires StrictWeakOrder(less) && Sorted(a, less) && Sorted(b, less)
    ensures Sorted(Merge(a, b, less), less)
    decreases |a| + |b|
  {
    if a != [] && b != [] {
      var first, rest := b[0], Merge(a, b[1..], less);
      if less(b[0].key, a[0].key) {
        MergeSorted(a, b[1..], less);
      } else {
        MergeSorted(a[1..], b, less);
        first, rest := a[0], Merge(a[1..], b, less);
      }
      forall i | 0 <= i < |rest|
        ensures !less(rest[i].key, first.key)
      {
        InMerge(if first == a[0] then a[1..] else a, if first == a[0] then b else b[1..], less, rest[i]);
      }
    }
  }

  // ----- Runs -----

  /** The length of the nondecreasing run at the front. */
  function RunLen<K>(s: seq<Elem<K>>, less: (K, K) -> bool): (n: nat)
    requires s != []
    ensures 1 <= n <= |s|
  {
    if |s| == 1 || less(s[1].key, s[0].key) then 1 else 1 + RunLen(s[1..], less)
  }

  /** Where the second run ends. */
  function SecondEnd<K>(s: seq<Elem<K>>, less: (K, K) -> bool): (j: nat)
    requires s != [] && RunLen(s, less) < |s|
    ensures RunLen(s, less) < j <= |s|
  {
    RunLen(s, less) + RunLen(s[RunLen(s, less)..], less)
  }

  /** One pass of the sort: adjacent runs are merged two by two. */
  function Pass<K>(s: seq<Elem<K>>, less: (K, K) -> bool): (r: seq<Elem<K>>)
    decreases |s|
  {
    if s == [] then []
    else
      var i := RunLen(s, less);
      if i == |s| then s
      else
        var j := SecondEnd(s, less);
        Merge(s[..i], s[i..j], less) + Pass(s[j..], less)
  }

  /** How many runs that pass reports as its output. */
  function PassCount<K>(s: seq<Elem<K>>, less: (K, K) -> bool): nat
    decreases |s|
  {
    if s == [] then 0
    else
      var i := RunLen(s, less);
      if i == |s| then 1 else 1 + PassCount(s[SecondEnd(s, less)..], less)
  }

  /** The number of places where the order breaks: one less than the number of natural runs. */
  function Breaks<K>(s: seq<Elem<K>>, less: (K, K) -> bool): nat {
    if |s| <= 1 then 0
    else (if less(s[1].key, s[0].key) then 1 else 0) + Breaks(s[1..], less)
  }

  lemma PassStep<K>(rest: seq<Elem<K>>, less: (K, K) -> bool)
    requires rest != [] && RunLen(rest, less) < |rest|
    ensures var n, j := RunLen(rest, less), SecondEnd(rest, less);
            && Merge(rest[..n], rest[n..j], less) + Pass(rest[j..], less) == Pass(rest, less)
            && 1 + PassCount(rest[j..], less) == PassCount(rest, less)
  {
    hide Merge, RunLen, SecondEnd;
  }

  lemma PassEnds<K>(rest: seq<Elem<K>>, less: (K, K) -> bool)
    requires rest != [] && RunLen(rest, less) == |rest|
    ensures Pass(rest, less) == rest && PassCount(rest, less) == 1
  {
  }

  lemma PassOfNothing<K>(less: (K, K) -> bool)
    ensures Pass([], less) == [] && PassCount([], less) == 0
  {
  }

  lemma {:induction false} RunIsSorted<K(!new)>(s: seq<Elem<K>>, less: (K, K) -> bool)
    requires StrictWeakOrder(less) && s != []
    ensures Sorted(s[..RunLen(s, less)], less)
  {
    var n := RunLen(s, less);
    if n > 1 {
      RunIsSorted(s[1..], less);
      assert s[..n] == [s[0]] + s[1..][..n - 1];
      forall j | 1 <= j < n
        ensures !less(s[j].key, s[0].key)
      {
        assert j > 1 ==> !less(s[1..][..n - 1][j - 1].key, s[1..][..n - 1][0].key);
      }
    }
  }

  lemma {:induction false} NoBreakIsSorted<K(!new)>(s: seq<Elem<K>>, less: (K, K) -> bool)
    requires StrictWeakOrder(less) && Breaks(s, less) == 0
    ensures Sorted(s, less)
  {
    if |s| > 1 {
      NoBreakIsSorted(s[1..], less);
      forall j | 1 <= j < |s|
        ensures !less(s[j].key, s[0].key)
      {
        assert j > 1 ==> !less(s[1..][j - 1].key, s[1..][0].key);
      }
    }
  }

  lemma {:induction false} SortedHasNoBreak<K>(s: seq<Elem<K>>, less: (K, K) -> bool)
    requires Sorted(s, less)
    ensures Breaks(s, less) == 0
  {
    if |s| > 1 {
      SortedHasNoBreak(s[1..], less);
    }
  }

  lemma {:induction false} BreaksConcat<K>(s: seq<Elem<K>>, t: seq<Elem<K>>, less: (K, K) -> bool)
    ensures Breaks(s + t, less) <= Breaks(s, less) + Breaks(t, less) + 1
    ensures t == [] ==> Breaks(s + t, less) == Breaks(s, less)
  {
    if s == [] {
      assert s + t == t;
    } else if t == [] {
      assert s + t == s;
    } else {
      assert (s + t)[1..] == s[1..] + t;
      BreaksConcat(s[1..], t, less);
    }
  }

  /** Behind the first run the order breaks exactly once. */
  lemma {:induction false} BreaksAfterRun<K>(s: seq<Elem<K>>, less: (K, K) -> bool)
    requires s != []
    ensures var i := RunLen(s, less); Breaks(s, less) == if i == |s| then 0 else 1 + Breaks(s[i..], less)
  {
    var i := RunLen(s, less);
    if i > 1 {
      BreaksAfterRun(s[1..], less);
      assert s[1..][i - 1..] == s[i..];
    }
  }

  /** Behind the first two runs, the order breaks twice unless they are the last. */
  lemma BreaksAfterTwoRuns<K>(s: seq<Elem<K>>, less: (K, K) -> bool)
    requires s != [] && RunLen(s, less) < |s|
    ensures var j := SecondEnd(s, less); Breaks(s, less) == if j == |s| then 1 else 2 + Breaks(s[j..], less)
  {
    hide RunLen, Breaks;
    var rest := s[RunLen(s, less)..];
    BreaksAfterRun(s, less);
    BreaksAfterRun(rest, less);
    assert rest[RunLen(rest, less)..] == s[SecondEnd(s, less)..];
  }

  /** A pass over r natural runs reports (r + 1) / 2 runs. */
  lemma {:induction false} PassHalves<K>(s: seq<Elem<K>>, less: (K, K) -> bool)
    requires s != []
    ensures PassCount(s, less) == (Breaks(s, less) + 2) / 2
    decreases |s|
  {
    hide *;
    if RunLen(s, less) == |s| {
      PassEnds(s, less);
      BreaksAfterRun(s, less);
    } else {
      var j := SecondEnd(s, less);
      PassStep(s, less);
      BreaksAfterTwoRuns(s, less);
      if j < |s| {
        PassHalves(s[j..], less);
      } else {
        assert s[j..] == [];
        PassOfNothing(less);
      }
    }
  }

  lemma SecondEndIs<K>(rest: seq<Elem<K>>, n: nat, m: nat, less: (K, K) -> bool)
    requires rest != [] && n == RunLen(rest, less) < |rest| && m == RunLen(rest[n..], less)
    ensures SecondEnd(rest, less) == n + m <= |rest|
  {
    hide RunLen;
  }

  lemma SecondRunIsSorted<K(!new)>(s: seq<Elem<K>>, less: (K, K) -> bool)
    requires StrictWeakOrder(less) && s != [] && RunLen(s, less) < |s|
    ensures Sorted(s[RunLen(s, less)..SecondEnd(s, less)], less)
  {
    hide *;
    var i := RunLen(s, less);
    var j := i + RunLen(s[i..], less);
    SecondEndIs(s, i, j - i, less);
    RunIsSorted(s[i..], less);
    SliceOfTail(s, i, j);
  }

  lemma TwoCuts<T>(s: seq<T>, i: nat, j: nat)
    requires i <= j <= |s|
    ensures s[..i] + s[i..j] == s[..j] && s[..j] + s[j..] == s
  {
  }

  lemma SliceOfTail<T>(s: seq<T>, i: nat, j: nat)
    requires i <= j <= |s|
    ensures s[i..][..j - i] == s[i..j]
  {
  }

  /** The runs a pass leaves are at most those it reports. */
  lemma {:induction false} PassBreaks<K(!new)>(s: seq<Elem<K>>, less: (K, K) -> bool)
    requires StrictWeakOrder(less) && s != []
    ensures Breaks(Pass(s, less), less) < PassCount(s, less)
    decreases |s|
  {
    hide *;
    var i := RunLen(s, less);
    RunIsSorted(s, less);
    if i == |s| {
      PassEnds(s, less);
      assert s[..i] == s;
      SortedHasNoBreak(s, less);
    } else {
      var j := SecondEnd(s, less);
      SecondRunIsSorted(s, less);
      PassStep(s, less);
      MergeSorted(s[..i], s[i..j], less);
      SortedHasNoBreak(Merge(s[..i], s[i..j], less), less);
      BreaksConcat(Merge(s[..i], s[i..j], less), Pass(s[j..], less), less);
      if s[j..] != [] {
        PassBreaks(s[j..], less);
      } else {
        assert s[j..] == [];
        PassOfNothing(less);
      }
    }
  }

  /** Unless s is one run, a pass merges its first two runs and goes on behind them. */
  lemma PassUnfold<K>(s: seq<Elem<K>>, less: (K, K) -> bool) returns (i: nat, j: nat)
    ensures i <= j <= |s| && (s != [] ==> i > 0)
    ensures i == |s| ==> Pass(s, less) == s
    ensures i < |s| ==> i == RunLen(s, less) && Pass(s, less) == Merge(s[..i], s[i..j], less) + Pass(s[j..], less)
  {
    hide Merge, PassCount;
    if s == [] || RunLen(s, less) == |s| {
      return |s|, |s|;
    }
    i := RunLen(s, less);
    j := SecondEnd(s, less);
  }

  lemma ThreeParts<T>(s: seq<T>, i: nat, j: nat)
    requires i <= j <= |s|
    ensures multiset(s) == multiset(s[..i]) + multiset(s[i..j]) + multiset(s[j..])
  {
    assert s == s[..i] + s[i..j] + s[j..];
  }

  lemma {:induction false} PassElements<K>(s: seq<Elem<K>>, less: (K, K) -> bool)
    ensures multiset(Pass(s, less)) == multiset(s)
    decreases |s|
  {
    hide *;
    var i, j := PassUnfold(s, less);
    if i < |s| {
      PassElements(s[j..], less);
      MergeElements(s[..i], s[i..j], less);
      ThreeParts(s, i, j);
    }
  }

  lemma SelectThreeParts<K>(x: K, s: seq<Elem<K>>, i: nat, j: nat, less: (K, K) -> bool)
    requires i <= j <= |s|
    ensures Select(x, s, less) == Select(x, s[..i], less) + Select(x, s[i..j], less) + Select(x, s[j..], less)
  {
    hide *;
    TwoCuts(s, i, j);
    SelectConcat(x, s[..i], s[i..j], less);
    SelectConcat(x, s[..j], s[j..], less);
  }

  lemma {:induction false} PassStable<K(!new)>(x: K, s: seq<Elem<K>>, less: (K, K) -> bool)
    requires StrictWeakOrder(less)
    ensures Select(x, Pass(s, less), less) == Select(x, s, less)
    decreases |s|
  {
    hide *;
    var i, j := PassUnfold(s, less);
    if i < |s| {
      PassStable(x, s[j..], less);
      RunIsSorted(s, less);
      MergeStable(x, s[..i], s[i..j], less);
      SelectConcat(x, Merge(s[..i], s[i..j], less), Pass(s[j..], less), less);
      SelectThreeParts(x, s, i, j, less);
    }
  }

  /** Each pass is a stable rearrangement. */
  lemma PassRearranges<K(!new)>(s: seq<Elem<K>>, less: (K, K) -> bool)
    requires StrictWeakOrder(less)
    ensures StableRearrangement(s, Pass(s, less), less)
  {
    hide Pass, Select;
    PassElements(s, less);
    forall x {
      PassStable(x, s, less);
    }
  }
}
