/** The insertion sort behind Go's stable sort of short slices, with the comparator as a parameter. */
module Sorting {

  ghost predicate StrictWeak<T(!new)>(less: (T, T) -> bool) {
    && (forall a, b :: less(a, b) ==> !less(b, a))
    && (forall a, b, c :: less(a, b) ==> less(a, c) || less(c, b))
  }

  ghost predicate Sorted<T>(less: (T, T) -> bool, s: seq<T>) {
    forall i, j :: 0 <= i < j < |s| ==> !less(s[j], s[i])
  }

  /** x goes after every element that is not greater. */
  function Insert<T>(less: (T, T) -> bool, s: seq<T>, x: T): seq<T> {
    if s == [] || !less(x, s[|s| - 1]) then s + [x]
    else Insert(less, s[..|s| - 1], x) + [s[|s| - 1]]
  }

  function SortedCopy<T>(less: (T, T) -> bool, s: seq<T>): seq<T> {
    if s == [] then [] else Insert(less, SortedCopy(less, s[..|s| - 1]), s[|s| - 1])
  }

  lemma {:induction false} InsertKeeps<T>(less: (T, T) -> bool, s: seq<T>, x: T)
    ensures multiset(Insert(less, s, x)) == multiset(s) + multiset{x}
    ensures |Insert(less, s, x)| == |s| + 1
  {
    if s != [] && less(x, s[|s| - 1]) {
      InsertKeeps(less, s[..|s| - 1], x);
      assert s == s[..|s| - 1] + [s[|s| - 1]];
    }
  }

  lemma {:induction false} SortKeeps<T>(less: (T, T) -> bool, s: seq<T>)
    ensures multiset(SortedCopy(less, s)) == multiset(s)
    ensures |SortedCopy(less, s)| == |s|
  {
    if s != [] {
      var init, x := s[..|s| - 1], s[|s| - 1];
      SortKeeps(less, init);
      InsertKeeps(less, SortedCopy(less, init), x);
      assert s == init + [x];
    }
  }

  lemma {:induction false} InsertSorts<T(!new)>(less: (T, T) -> bool, s: seq<T>, x: T)
    requires StrictWeak(less) && Sorted(less, s)
    ensures Sorted(less, Insert(less, s, x))
    ensures forall y :: y in Insert(less, s, x) ==> y == x || y in s
  {
    if s == [] {
    } else if less(x, s[|s| - 1]) {
      var init, last := s[..|s| - 1], s[|s| - 1];
      InsertSorts(less, init, x);
      forall y | y in init ensures !less(last, y) {
        var i :| 0 <= i < |init| && init[i] == y;
        assert s[i] == y;
      }
    } else {
      forall i | 0 <= i < |s| ensures !less(x, s[i]) {
        assert i < |s| - 1 ==> !less(s[|s| - 1], s[i]);
      }
    }
  }

  lemma {:induction false} SortSorts<T(!new)>(less: (T, T) -> bool, s: seq<T>)
    requires StrictWeak(less)
    ensures Sorted(less, SortedCopy(less, s))
  {
    if s != [] {
      SortSorts(less, s[..|s| - 1]);
      InsertSorts(less, SortedCopy(less, s[..|s| - 1]), s[|s| - 1]);
    }
  }

  /** The first element after a stable sort is the leftmost of the least. */
  ghost predicate LeftmostLeast<T>(less: (T, T) -> bool, s: seq<T>, k: int) {
    && 0 <= k < |s|
    && (forall j :: 0 <= j < k ==> less(s[k], s[j]))
    && (forall j :: k < j < |s| ==> !less(s[j], s[k]))
  }

  /** r holds the elements of s in order, equal ones in their order in s: at[i] is where r[i] stood. Every
      stable sort, whatever its algorithm, gives such an r. */
  ghost predicate StableSortOf<T>(less: (T, T) -> bool, s: seq<T>, r: seq<T>, at: seq<int>) {
    && |r| == |s| == |at|
    && (forall i :: 0 <= i < |at| ==> 0 <= at[i] < |s| && r[i] == s[at[i]])
    && (forall k :: 0 <= k < |s| ==> k in at)
    && (forall i, j :: 0 <= i < j < |r| ==> !less(r[j], r[i]) && (!less(r[i], r[j]) ==> at[i] < at[j]))
  }

  lemma AnyStableSortFront<T>(less: (T, T) -> bool, s: seq<T>, r: seq<T>, at: seq<int>)
    requires StableSortOf(less, s, r, at) && s != []
    ensures LeftmostLeast(less, s, at[0]) && r[0] == s[at[0]]
  {
    forall j | 0 <= j < |s| && j != at[0]
      ensures if j < at[0] then less(s[at[0]], s[j]) else !less(s[j], s[at[0]])
    {
      assert j in at;
      var i :| 0 <= i < |at| && at[i] == j;
      assert !less(r[i], r[0]);
    }
  }

  /** Where Insert puts x. */
  lemma {:induction false} InsertSplits<T(!new)>(less: (T, T) -> bool, s: seq<T>, x: T) returns (p: nat)
    requires StrictWeak(less) && Sorted(less, s)
    ensures p <= |s| && Insert(less, s, x) == s[..p] + [x] + s[p..]
    ensures forall i :: 0 <= i < p ==> !less(x, s[i])
    ensures forall i :: p <= i < |s| ==> less(x, s[i])
  {
    if s == [] || !less(x, s[|s| - 1]) {
      p := |s|;
      forall i | 0 <= i < |s| ensures !less(x, s[i]) {
        assert i < |s| - 1 ==> !less(s[|s| - 1], s[i]);
      }
    } else {
      var init := s[..|s| - 1];
      p := InsertSplits(less, init, x);
      assert init[p..] + [s[|s| - 1]] == s[p..];
      assert init[..p] == s[..p];
    }
  }

  lemma InsertedPositions(at: seq<int>, n: nat, p: nat)
    requires |at| == n && p <= n && forall k :: 0 <= k < n ==> k in at
    ensures forall k :: 0 <= k < n + 1 ==> k in at[..p] + [n] + at[p..]
  {
    var at' := at[..p] + [n] + at[p..];
    forall k | 0 <= k < n + 1 ensures k in at' {
      if k == n {
        assert at'[p] == k;
      } else {
        assert k in at;
        var i :| 0 <= i < |at| && at[i] == k;
        assert at'[if i < p then i else i + 1] == k;
      }
    }
  }

  lemma InsertedOrder<T(!new)>(less: (T, T) -> bool, s: seq<T>, r: seq<T>, at: seq<int>, x: T, p: nat, i: int, j: int)
    requires StrictWeak(less) && StableSortOf(less, s, r, at) && p <= |r|
    requires forall i :: 0 <= i < p ==> !less(x, r[i])
    requires forall i :: p <= i < |r| ==> less(x, r[i])
    requires 0 <= i < j < |r| + 1
    ensures var r', at' := r[..p] + [x] + r[p..], at[..p] + [|s|] + at[p..];
            !less(r'[j], r'[i]) && (!less(r'[i], r'[j]) ==> at'[i] < at'[j])
  {
    var r', at' := r[..p] + [x] + r[p..], at[..p] + [|s|] + at[p..];
    var i0, j0 := if i > p then i - 1 else i, if j > p then j - 1 else j;
    assert i != p ==> r'[i] == r[i0] && at'[i] == at[i0];
    assert j != p ==> r'[j] == r[j0] && at'[j] == at[j0];
  }

  lemma StableInsert<T(!new)>(less: (T, T) -> bool, s: seq<T>, r: seq<T>, at: seq<int>, x: T, p: nat)
    requires StrictWeak(less) && StableSortOf(less, s, r, at) && p <= |r|
    requires forall i :: 0 <= i < p ==> !less(x, r[i])
    requires forall i :: p <= i < |r| ==> less(x, r[i])
    ensures StableSortOf(less, s + [x], r[..p] + [x] + r[p..], at[..p] + [|s|] + at[p..])
  {
    var r', at' := r[..p] + [x] + r[p..], at[..p] + [|s|] + at[p..];
    InsertedPositions(at, |s|, p);
    forall i | 0 <= i < |at'| ensures 0 <= at'[i] < |s| + 1 && r'[i] == (s + [x])[at'[i]] {
      if i != p {
        var i0 := if i > p then i - 1 else i;
        assert at'[i] == at[i0] && r'[i] == r[i0];
      }
    }
    forall i, j | 0 <= i < j < |r'|
      ensures !less(r'[j], r'[i]) && (!less(r'[i], r'[j]) ==> at'[i] < at'[j])
    {
      InsertedOrder(less, s, r, at, x, p, i, j);
    }
  }

  /** Insertion sort is stable and sorts. */
  lemma {:induction false} SortIsStable<T(!new)>(less: (T, T) -> bool, s: seq<T>) returns (at: seq<int>)
    requires StrictWeak(less)
    ensures StableSortOf(less, s, SortedCopy(less, s), at)
  {
    if s == [] {
      at := [];
    } else {
      var init, x := s[..|s| - 1], s[|s| - 1];
      var at0 := SortIsStable(less, init);
      SortSorts(less, init);
      var p := InsertSplits(less, SortedCopy(less, init), x);
      StableInsert(less, init, SortedCopy(less, init), at0, x, p);
      assert s == init + [x];
      at := at0[..p] + [|init|] + at0[p..];
    }
  }

  method Swap<T>(a: array<T>, i: nat)
    requires 0 < i < a.Length
    modifies a
    ensures a[..] == old(a[..])[i - 1 := old(a[i])][i := old(a[i - 1])]
  {
    a[i - 1], a[i] := a[i], a[i - 1];
  }

  lemma SinkStep<T>(less: (T, T) -> bool, p: seq<T>, x: T, j: nat, rest: seq<T>)
    requires 0 < j <= |p|
    ensures (p[..j] + [x] + p[j..] + rest)[j - 1 := x][j := p[j - 1]] == p[..j - 1] + [x] + p[j - 1..] + rest
    ensures less(x, p[j - 1]) ==> Insert(less, p[..j], x) + p[j..] == Insert(less, p[..j - 1], x) + p[j - 1..]
    ensures !less(x, p[j - 1]) ==> Insert(less, p[..j], x) == p[..j] + [x]
  {
    assert p[..j][..j - 1] == p[..j - 1];
    assert p[j - 1..] == [p[j - 1]] + p[j..];
  }

  /** Sinks a[i] into the sorted a[..i]. */
  method SinkLast<T>(a: array<T>, less: (T, T) -> bool, i: nat)
    requires i < a.Length
    modifies a
    ensures a[..] == Insert(less, old(a[..i]), old(a[i])) + old(a[i + 1..])
  {
    var x := a[i];
    ghost var p, rest := a[..i], a[i + 1..];
    var j := i;
    assert p[..j] == p && p[j..] == [];
    assert a[..] == p + [x] + rest;
    while j > 0 && less(a[j], a[j - 1])
      invariant 0 <= j <= i && a[j] == x
      invariant a[..] == p[..j] + [x] + p[j..] + rest
      invariant Insert(less, p, x) == Insert(less, p[..j], x) + p[j..]
    {
      assert a[..][j] == x && a[..][j - 1] == p[j - 1];
      SinkStep(less, p, x, j, rest);
      Swap(a, j);
      j := j - 1;
    }
    if j > 0 {
      assert a[..][j - 1] == p[j - 1];
      SinkStep(less, p, x, j, rest);
    }
  }

  lemma SortStep<T>(less: (T, T) -> bool, s: seq<T>, i: nat, cur: seq<T>)
    requires i < |s| && cur == SortedCopy(less, s[..i]) + s[i..]
    ensures |cur| == |s|
    ensures cur[..i] == SortedCopy(less, s[..i]) && cur[i] == s[i] && cur[i + 1..] == s[i + 1..]
    ensures SortedCopy(less, s[..i + 1]) == Insert(less, SortedCopy(less, s[..i]), s[i])
  {
    SortKeeps(less, s[..i]);
    assert s[..i + 1][..i] == s[..i];
  }

  method InsertionSort<T>(a: array<T>, less: (T, T) -> bool)
    modifies a
    ensures a[..] == SortedCopy(less, old(a[..]))
  {
    ghost var s := a[..];
    for i := 0 to a.Length
      invariant a[..] == SortedCopy(less, s[..i]) + s[i..]
    {
      SortStep(less, s, i, a[..]);
      assert a[..i] == a[..][..i] && a[i + 1..] == a[..][i + 1..];
      SinkLast(a, less, i);
    }
    assert s[..a.Length] == s;
  }

  // ---------------------------------------------------------------------
  // Counting
  // ---------------------------------------------------------------------

  function Count<T>(s: seq<T>, p: T -> bool): nat {
    if s == [] then 0 else Count(s[..|s| - 1], p) + (if p(s[|s| - 1]) then 1 else 0)
  }

  lemma {:induction false} InsertCount<T>(less: (T, T) -> bool, s: seq<T>, x: T, p: T -> bool)
    ensures Count(Insert(less, s, x), p) == Count(s, p) + (if p(x) then 1 else 0)
  {
    if s != [] && less(x, s[|s| - 1]) {
      InsertCount(less, s[..|s| - 1], x, p);
      assert Insert(less, s, x)[..|Insert(less, s, x)| - 1] == Insert(less, s[..|s| - 1], x);
    } else {
      assert (s + [x])[..|s|] == s;
    }
  }

  lemma {:induction false} SortCount<T>(less: (T, T) -> bool, s: seq<T>, p: T -> bool)
    ensures Count(SortedCopy(less, s), p) == Count(s, p)
  {
    if s != [] {
      SortCount(less, s[..|s| - 1], p);
      InsertCount(less, SortedCopy(less, s[..|s| - 1]), s[|s| - 1], p);
    }
  }

  lemma {:induction false} CountAtLeast<T>(s: seq<T>, p: T -> bool, lo: nat, hi: nat)
    requires lo <= hi <= |s| && forall i :: lo <= i < hi ==> p(s[i])
    ensures Count(s, p) >= hi - lo
    decreases |s|
  {
    if hi > lo {
      if hi == |s| {
        CountAtLeast(s[..|s| - 1], p, lo, hi - 1);
      } else {
        CountAtLeast(s[..|s| - 1], p, lo, hi);
      }
    }
  }
}
