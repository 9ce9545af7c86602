/** Time, options and ordered views of integer-keyed tables, shared by every machine. */
module Basics {

  datatype Option<+T> = None | Some(value: T)

  /** Instants and durations are integers in nanoseconds, as in Go's time package. */
  const SECOND: int := 1_000_000_000

  type Id = string

  /** time.Time.Unix: the second an instant falls in (rounded down, also before 1970). */
  function Unix(now: int): int {
    now / SECOND
  }

  function CeilSeconds(d: int): int {
    (d + SECOND - 1) / SECOND
  }

  function Max(a: int, b: int): int {
    if a < b then b else a
  }

  function Min(a: int, b: int): int {
    if a < b then a else b
  }

  // ---------------------------------------------------------------------
  // Keys of a table, in ascending order
  // ---------------------------------------------------------------------

  /** An element of a non-empty set. */
  lemma SomeMember<T>(s: set<T>) returns (x: T)
    requires s != {}
    ensures x in s
  {
    x :| x in s;
  }

  lemma {:induction false} MaxExists(s: set<int>)
    requires s != {}
    ensures exists m :: m in s && forall x :: x in s ==> x <= m
    decreases |s|
  {
    var a := SomeMember(s);
    var rest := s - {a};
    if rest == {} {
      assert s == {a};
      assert a in s && forall x :: x in s ==> x <= a;
    } else {
      MaxExists(rest);
      var b :| b in rest && forall x :: x in rest ==> x <= b;
      var m := if a < b then b else a;
      assert forall x :: x in s ==> x == a || x in rest;
      assert m in s && forall x :: x in s ==> x <= m;
    }
  }

  function MaxOf(s: set<int>): (m: int)
    requires s != {}
    ensures m in s && forall x :: x in s ==> x <= m
  {
    MaxExists(s);
    var m :| m in s && forall x :: x in s ==> x <= m;
    m
  }

  function MaxKey(s: set<int>): Option<int> {
    if s == {} then None else Some(MaxOf(s))
  }

  /** ORDER BY t: the keys from smallest to largest. */
  function Ascending(s: set<int>): (q: seq<int>)
    decreases |s|
  {
    if s == {} then [] else
      var m := MaxOf(s);
      Ascending(s - {m}) + [m]
  }

  lemma {:induction false} AscendingMembers(s: set<int>)
    ensures |Ascending(s)| == |s|
    ensures forall i :: 0 <= i < |s| ==> Ascending(s)[i] in s
    ensures forall x :: x in s ==> x in Ascending(s)
    decreases |s|
  {
    if s != {} {
      var r := s - {MaxOf(s)};
      AscendingMembers(r);
      forall x | x in s ensures x in Ascending(s) {
        assert x in r || x == MaxOf(s);
      }
    }
  }

  lemma {:induction false} AscendingIsSorted(s: set<int>)
    ensures |Ascending(s)| == |s|
    ensures forall i, j :: 0 <= i < j < |s| ==> Ascending(s)[i] < Ascending(s)[j]
    decreases |s|
  {
    if s != {} {
      AscendingMembers(s - {MaxOf(s)});
      AscendingIsSorted(s - {MaxOf(s)});
    }
  }

  /** The rows of a table, ordered by key. */
  function Rows<T>(table: map<int, T>): (q: seq<T>) {
    var keys := Ascending(table.Keys);
    AscendingMembers(table.Keys);
    seq(|keys|, i requires 0 <= i < |keys| => table[keys[i]])
  }

  function LastK<T>(k: nat, s: seq<T>): seq<T> {
    if |s| <= k then s else s[|s| - k..]
  }

  /** ROW_NUMBER() OVER (ORDER BY t DESC): 1 for the newest key. */
  function Rank(s: set<int>, t: int): nat {
    |set u | u in s && u >= t|
  }

  function TopRanked(k: nat, s: set<int>): set<int> {
    set t | t in s && Rank(s, t) <= k
  }

  lemma RankWithoutMax(s: set<int>, t: int)
    requires t in s
    ensures t == MaxOf(s) ==> Rank(s, t) == 1
    ensures t != MaxOf(s) ==> Rank(s, t) == Rank(s - {MaxOf(s)}, t) + 1
  {
    var m := MaxOf(s);
    if t == m {
      assert (set u | u in s && u >= t) == {m};
    } else {
      assert (set u | u in s && u >= t) == (set u | u in s - {m} && u >= t) + {m};
    }
  }

  lemma AscendingAdd(s: set<int>, m: int)
    requires forall x :: x in s ==> x < m
    ensures Ascending(s + {m}) == Ascending(s) + [m]
  {
    assert MaxOf(s + {m}) == m;
    assert s + {m} - {m} == s;
  }

  lemma TopRankedStep(k: nat, s: set<int>)
    requires s != {} && k > 0
    ensures Ascending(TopRanked(k, s)) == Ascending(TopRanked(k - 1, s - {MaxOf(s)})) + [MaxOf(s)]
  {
    var m := MaxOf(s);
    forall t | t in s
      ensures t in TopRanked(k, s) <==> t == m || t in TopRanked(k - 1, s - {m})
    {
      RankWithoutMax(s, t);
    }
    assert TopRanked(k, s) == TopRanked(k - 1, s - {m}) + {m};
    AscendingAdd(TopRanked(k - 1, s - {m}), m);
  }

  lemma LastKAdd<T>(k: nat, s: seq<T>, x: T)
    requires k > 0
    ensures LastK(k, s + [x]) == LastK(k - 1, s) + [x]
  {
  }

  lemma TopRankedEmpty(k: nat, s: set<int>)
    requires s == {} || k == 0
    ensures TopRanked(k, s) == {}
  {
    forall t | t in s ensures Rank(s, t) > 0 { RankWithoutMax(s, t); }
  }

  lemma {:induction false} TopRankedIsLastK(k: nat, s: set<int>)
    ensures Ascending(TopRanked(k, s)) == LastK(k, Ascending(s))
    decreases |s|
  {
    if s == {} || k == 0 {
      TopRankedEmpty(k, s);
    } else {
      TopRankedIsLastK(k - 1, s - {MaxOf(s)});
      TopRankedStep(k, s);
      LastKAdd(k, Ascending(s - {MaxOf(s)}), MaxOf(s));
    }
  }

  lemma OneMoreFits(lo: int, m: int, hi: int, gap: int)
    requires gap >= 1 && m <= hi
    ensures (m - gap - lo) / gap + 1 <= (hi - lo) / gap
  {
    DivStep(m - gap - lo, gap);
    DivMonotone(m - lo, hi - lo, gap);
  }

  /** A set of instants at least `gap` apart inside [lo, hi] has few members. */
  lemma {:induction false} SpacedSetIsSmall(s: set<int>, lo: int, hi: int, gap: int)
    requires gap >= 1 && lo <= hi
    requires forall x :: x in s ==> lo <= x <= hi
    requires forall x, y :: x in s && y in s && x < y ==> y - x >= gap
    ensures |s| <= (hi - lo) / gap + 1
    decreases |s|
  {
    if s != {} {
      var m := MaxOf(s);
      var r := s - {m};
      if r == {} {
        assert s == {m};
        DivMonotone(0, hi - lo, gap);
      } else {
        assert forall x :: x in r ==> m - x >= gap;
        var x := SomeMember(r);
        SpacedSetIsSmall(r, lo, m - gap, gap);
        OneMoreFits(lo, m, hi, gap);
      }
    }
  }

  lemma DivStep(a: int, d: int)
    requires d >= 1
    ensures (a + d) / d == a / d + 1
  {
    DivUnique(a + d, d, a / d + 1);
  }

  lemma DivUnique(a: int, d: int, q: int)
    requires d >= 1 && q * d <= a < q * d + d
    ensures a / d == q
  {
    var k := a / d;
    if k < q {
      MulMonotone(k + 1, q, d);
      assert false;
    } else if q < k {
      MulMonotone(q + 1, k, d);
      assert false;
    }
  }

  lemma MulMonotone(a: int, b: int, d: int)
    requires a <= b && d >= 0
    ensures a * d <= b * d
  {
  }

  lemma DivMonotone(a: int, b: int, d: int)
    requires a <= b && d >= 1
    ensures a / d <= b / d
  {
    var p, q := a / d, b / d;
    if q < p {
      MulMonotone(q + 1, p, d);
      assert false;
    }
  }

  lemma RealMulSign(d: real, q: real)
    requires q > 0.0
    ensures d < 0.0 ==> d * q < 0.0
    ensures d > 0.0 ==> d * q > 0.0
  {
  }
}
