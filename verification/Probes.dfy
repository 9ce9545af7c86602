/** Choosing a probe target and summarising its round trips. A failed dial is None, a successful one its
    latency in milliseconds. */
module Probes {
  import opened Basics
  import opened Sorting

  datatype Cand = Cand(host: string, ms: real, ok: bool)

  predicate Better(a: Cand, b: Cand) {
    if a.ok != b.ok then a.ok
    else a.ok && a.ms < b.ms
  }

  lemma BetterIsStrictWeak()
    ensures StrictWeak(Better)
  {
  }

  // ---------------------------------------------------------------------
  // pickHost
  // ---------------------------------------------------------------------

  function CandOf(host: string, ping: Option<real>): Cand {
    if ping.Some? then Cand(host, ping.value, true) else Cand(host, 0.0, false)
  }

  function Cands(hosts: seq<string>, pings: seq<Option<real>>): seq<Cand>
    requires |hosts| == |pings|
  {
    seq(|hosts|, i requires 0 <= i < |hosts| => CandOf(hosts[i], pings[i]))
  }

  /** The k-th host answered, faster than every earlier host that answered and no slower than any later one. */
  predicate Fastest(pings: seq<Option<real>>, k: int) {
    && 0 <= k < |pings| && pings[k].Some?
    && (forall j :: 0 <= j < k && pings[j].Some? ==> pings[k].value < pings[j].value)
    && (forall j :: k < j < |pings| && pings[j].Some? ==> pings[k].value <= pings[j].value)
  }

  /** With at least two candidates: the leftmost fastest of those that answered, else the first. */
  ghost predicate BestHost(hosts: seq<string>, pings: seq<Option<real>>, host: string)
    requires |hosts| == |pings| > 0
  {
    if exists j :: 0 <= j < |pings| && pings[j].Some?
    then exists k :: Fastest(pings, k) && host == hosts[k]
    else host == hosts[0]
  }

  lemma LeftmostLeastIsBest(hosts: seq<string>, pings: seq<Option<real>>, k: int)
    requires |hosts| == |pings| > 0 && LeftmostLeast(Better, Cands(hosts, pings), k)
    ensures BestHost(hosts, pings, if pings[k].Some? then hosts[k] else hosts[0])
  {
    var c := Cands(hosts, pings);
    forall j | 0 <= j < |c| && pings[j].Some? && j != k
      ensures pings[k].Some? && (if j < k then pings[k].value < pings[j].value else pings[k].value <= pings[j].value)
    {
      assert j < k ==> Better(c[k], c[j]);
      assert j > k ==> !Better(c[j], c[k]);
    }
    if c[k].ok {
      assert Fastest(pings, k);
    }
  }

  /** Whatever algorithm sorts the candidates, so long as it is stable, the head is the best host. */
  lemma AnyStableSortPicksBest(hosts: seq<string>, pings: seq<Option<real>>, r: seq<Cand>, at: seq<int>)
    requires |hosts| == |pings| > 0 && StableSortOf(Better, Cands(hosts, pings), r, at)
    ensures BestHost(hosts, pings, if r[0].ok then r[0].host else hosts[0])
  {
    AnyStableSortFront(Better, Cands(hosts, pings), r, at);
    LeftmostLeastIsBest(hosts, pings, at[0]);
  }

  method PickHost(hosts: seq<string>, pings: seq<Option<real>>) returns (host: string)
    requires |pings| == |hosts|
    ensures |hosts| == 0 ==> host == ""
    ensures |hosts| == 1 ==> host == hosts[0]
    ensures |hosts| > 1 ==> BestHost(hosts, pings, host)
  {
    if |hosts| == 0 {
      return "";
    }
    if |hosts| == 1 {
      return hosts[0];
    }
    var results := new Cand[|hosts|](_ => Cand("", 0.0, false));
    for i := 0 to |hosts|
      invariant forall j :: 0 <= j < i ==> results[j] == CandOf(hosts[j], pings[j])
    {
      results[i] := CandOf(hosts[i], pings[i]);
    }
    assert results[..] == Cands(hosts, pings);
    InsertionSort(results, Better);
    BetterIsStrictWeak();
    ghost var at := SortIsStable(Better, Cands(hosts, pings));
    AnyStableSortPicksBest(hosts, pings, results[..], at);
    assert results[0] == results[..][0];
    host := if results[0].ok then results[0].host else hosts[0];
  }

  // ---------------------------------------------------------------------
  // median
  // ---------------------------------------------------------------------

  predicate Smaller(a: real, b: real) {
    a < b
  }

  function Middle(s: seq<real>): real
    requires s != []
  {
    if |s| % 2 == 1 then s[|s| / 2] else (s[|s| / 2 - 1] + s[|s| / 2]) / 2.0
  }

  function Median(samples: seq<real>): real {
    SortKeeps(Smaller, samples);
    if samples == [] then 0.0 else Middle(SortedCopy(Smaller, samples))
  }

  function AtMost(m: real): real -> bool {
    x => x <= m
  }

  function AtLeast(m: real): real -> bool {
    x => x >= m
  }

  lemma SortedReals(samples: seq<real>)
    ensures Sorted(Smaller, SortedCopy(Smaller, samples)) && |SortedCopy(Smaller, samples)| == |samples|
  {
    SmallerIsStrictWeak();
    SortSorts(Smaller, samples);
    SortKeeps(Smaller, samples);
  }

  lemma SmallerIsStrictWeak()
    ensures StrictWeak(Smaller)
  {
  }

  lemma MiddleIsBetween(s: seq<real>)
    requires s != [] && Sorted(Smaller, s)
    ensures s[(|s| - 1) / 2] <= Middle(s) <= s[|s| / 2]
  {
    assert |s| % 2 == 0 ==> !Smaller(s[|s| / 2], s[|s| / 2 - 1]);
  }

  /** At least half the samples lie on each side of it. */
  lemma MedianSplits(samples: seq<real>)
    requires samples != []
    ensures 2 * Count(samples, AtMost(Median(samples))) >= |samples|
    ensures 2 * Count(samples, AtLeast(Median(samples))) >= |samples|
  {
    var m, s := Median(samples), SortedCopy(Smaller, samples);
    SortedReals(samples);
    MiddleIsBetween(s);
    SortCount(Smaller, samples, AtMost(m));
    SortCount(Smaller, samples, AtLeast(m));
    SidesAreFull(s, m);
  }

  /** lo and hi are the k-th and the following value in ascending order: at least k samples are at most lo and more
      than the other n - k at least lo; at least n - k are at least hi and more than k at most hi. */
  ghost predicate Neighbours(samples: seq<real>, k: nat, lo: real, hi: real) {
    && lo in samples && hi in samples
    && Count(samples, AtMost(lo)) >= k && Count(samples, AtLeast(lo)) > |samples| - k
    && Count(samples, AtLeast(hi)) >= |samples| - k && Count(samples, AtMost(hi)) > k
  }

  lemma Ranked(s: seq<real>, k: nat)
    requires Sorted(Smaller, s) && k < |s|
    ensures Count(s, AtMost(s[k])) >= k + 1 && Count(s, AtLeast(s[k])) >= |s| - k
  {
    forall i | 0 <= i < k + 1 ensures AtMost(s[k])(s[i]) {
      assert i < k ==> !Smaller(s[k], s[i]);
    }
    forall i | k <= i < |s| ensures AtLeast(s[k])(s[i]) {
      assert k < i ==> !Smaller(s[i], s[k]);
    }
    CountAtLeast(s, AtMost(s[k]), 0, k + 1);
    CountAtLeast(s, AtLeast(s[k]), k, |s|);
  }

  lemma RankedSample(samples: seq<real>, k: nat)
    requires k < |samples|
    ensures |SortedCopy(Smaller, samples)| == |samples|
    ensures var x := SortedCopy(Smaller, samples)[k];
            && x in samples
            && Count(samples, AtMost(x)) >= k + 1 && Count(samples, AtLeast(x)) >= |samples| - k
  {
    var s := SortedCopy(Smaller, samples);
    SortedReals(samples);
    Ranked(s, k);
    SortKeeps(Smaller, samples);
    assert s[k] in multiset(s);
    assert s[k] in multiset(samples);
    SortCount(Smaller, samples, AtMost(s[k]));
    SortCount(Smaller, samples, AtLeast(s[k]));
  }

  lemma OddMedian(samples: seq<real>, m: real)
    requires |samples| % 2 == 1 && m == Median(samples)
    ensures m in samples
    ensures 2 * Count(samples, AtMost(m)) > |samples| && 2 * Count(samples, AtLeast(m)) > |samples|
  {
    RankedSample(samples, |samples| / 2);
  }

  lemma EvenMedian(samples: seq<real>) returns (lo: real, hi: real)
    requires samples != [] && |samples| % 2 == 0
    ensures Neighbours(samples, |samples| / 2, lo, hi)
    ensures Median(samples) + Median(samples) == lo + hi
  {
    var k := |samples| / 2;
    RankedSample(samples, k - 1);
    RankedSample(samples, k);
    lo, hi := SortedCopy(Smaller, samples)[k - 1], SortedCopy(Smaller, samples)[k];
  }

  /** For an odd count the median is the sample in the middle: more than half the samples are at most it, and more
      than half at least it. For an even count it is half the sum of the two samples in the middle. */
  lemma MedianIsMiddle(samples: seq<real>)
    requires samples != []
    ensures var m := Median(samples);
            if |samples| % 2 == 1 then
              m in samples && 2 * Count(samples, AtMost(m)) > |samples| && 2 * Count(samples, AtLeast(m)) > |samples|
            else
              exists lo, hi :: Neighbours(samples, |samples| / 2, lo, hi) && m + m == lo + hi
  {
    if |samples| % 2 == 1 {
      OddMedian(samples, Median(samples));
    } else {
      var lo, hi := EvenMedian(samples);
    }
  }

  lemma SidesAreFull(s: seq<real>, m: real)
    requires s != [] && Sorted(Smaller, s) && s[(|s| - 1) / 2] <= m <= s[|s| / 2]
    ensures 2 * Count(s, AtMost(m)) >= |s| && 2 * Count(s, AtLeast(m)) >= |s|
  {
    var lower, upper := (|s| - 1) / 2, |s| / 2;
    forall i | 0 <= i < lower + 1 ensures AtMost(m)(s[i]) {
      assert i < lower ==> !Smaller(s[lower], s[i]);
    }
    forall i | upper <= i < |s| ensures AtLeast(m)(s[i]) {
      assert upper < i ==> !Smaller(s[i], s[upper]);
    }
    CountAtLeast(s, AtMost(m), 0, lower + 1);
    CountAtLeast(s, AtLeast(m), upper, |s|);
  }

  /** Sorts a private copy: the caller's samples stay as they are. */
  method ComputeMedian(samples: array<real>) returns (m: real)
    ensures m == Median(samples[..])
    ensures samples[..] == old(samples[..])
  {
    var n := samples.Length;
    if n == 0 {
      return 0.0;
    }
    var s := new real[n](_ => 0.0);
    for i := 0 to n
      invariant s[..i] == samples[..i]
      invariant samples[..] == old(samples[..])
    {
      s[i] := samples[i];
    }
    assert s[..] == samples[..];
    InsertionSort(s, Smaller);
    SortKeeps(Smaller, samples[..]);
    assert forall i :: 0 <= i < n ==> s[i] == SortedCopy(Smaller, samples[..])[i];
    m := if n % 2 == 1 then s[n / 2] else (s[n / 2 - 1] + s[n / 2]) / 2.0;
  }

  lemma MedianIsNotBelow(samples: seq<real>, lo: real)
    requires samples != [] && forall i :: 0 <= i < |samples| ==> lo <= samples[i]
    ensures lo <= Median(samples)
  {
    var s := SortedCopy(Smaller, samples);
    SortedReals(samples);
    MiddleIsBetween(s);
    SortKeeps(Smaller, samples);
    var x := s[(|s| - 1) / 2];
    assert x in multiset(s);
    assert x in multiset(samples);
    assert x in samples;
  }

  // ---------------------------------------------------------------------
  // ProbeISP
  // ---------------------------------------------------------------------

  function Rounds(count: int): (n: nat)
    ensures n >= 1
  {
    if count < 1 then 4 else count
  }

  function Answers(dials: seq<Option<real>>): (r: seq<real>)
    ensures |r| <= |dials|
  {
    if dials == [] then []
    else
      var last := dials[|dials| - 1];
      Answers(dials[..|dials| - 1]) + (if last.Some? then [last.value] else [])
  }

  lemma {:induction false} AnswersAreNotNegative(dials: seq<Option<real>>)
    requires forall i :: 0 <= i < |dials| && dials[i].Some? ==> dials[i].value >= 0.0
    ensures forall i :: 0 <= i < |Answers(dials)| ==> Answers(dials)[i] >= 0.0
  {
    if dials != [] {
      AnswersAreNotNegative(dials[..|dials| - 1]);
    }
  }

  /** The dials that gave this result. */
  function Times(dials: seq<Option<real>>, d: Option<real>): nat {
    if dials == [] then 0
    else Times(dials[..|dials| - 1], d) + (if dials[|dials| - 1] == d then 1 else 0)
  }

  /** Every answer is kept, as often as it came, and the rest failed. */
  lemma {:induction false} AnswersAreKept(dials: seq<Option<real>>)
    ensures forall ms: real :: multiset(Answers(dials))[ms] == Times(dials, Some(ms))
    ensures |Answers(dials)| + Times(dials, None) == |dials|
  {
    if dials != [] {
      var last := dials[|dials| - 1];
      AnswersAreKept(dials[..|dials| - 1]);
    }
  }

  function LossPct(n: nat, ok: nat): real
    requires n >= 1
  {
    (n - ok) as real / n as real * 100.0
  }

  lemma LossRange(n: nat, ok: nat)
    requires n >= 1 && ok <= n
    ensures 0.0 <= LossPct(n, ok) <= 100.0
    ensures LossPct(n, ok) == 100.0 <==> ok == 0
    ensures LossPct(n, ok) * n as real == 100.0 * (n - ok) as real
  {
    var r := (n - ok) as real / n as real;
    assert r * n as real == (n - ok) as real;
    assert (1.0 - r) * n as real == ok as real;
    RealMulSign(r, n as real);
    RealMulSign(1.0 - r, n as real);
  }

  /** The loss is the share of the dials that failed, in percent. */
  predicate IsShare(loss: real, failed: nat, n: nat) {
    loss * n as real == 100.0 * failed as real
  }

  lemma LossIsShare(n: nat, ok: nat, failed: nat)
    requires n >= 1 && ok + failed == n
    ensures IsShare(LossPct(n, ok), failed, n)
  {
    LossRange(n, ok);
  }

  /** One round for one carrier: `dials` is what each dial of the chosen host returns. The loss is the share of
      dials that failed, and a negative latency is reported exactly when all of them did. */
  method ProbeISP(host: string, count: int, dials: seq<Option<real>>) returns (latencyMs: real, lossPct: real)
    requires |dials| == if count < 1 then 4 else count
    requires forall i :: 0 <= i < |dials| && dials[i].Some? ==> dials[i].value >= 0.0
    ensures host == "" ==> latencyMs == -1.0 && lossPct == 100.0
    ensures host != "" ==> IsShare(lossPct, Times(dials, None), |dials|)
    ensures host != "" && Times(dials, None) < |dials| ==> latencyMs == Median(Answers(dials))
    ensures 0.0 <= lossPct <= 100.0
    ensures latencyMs < 0.0 <==> lossPct == 100.0
  {
    if host == "" {
      return -1.0, 100.0;
    }
    var n := Rounds(count);
    var ok := 0;
    var samples: seq<real> := [];
    for i := 0 to n
      invariant samples == Answers(dials[..i]) && ok == |samples| <= i
    {
      assert dials[..i + 1][..i] == dials[..i];
      if dials[i].Some? {
        ok := ok + 1;
        samples := samples + [dials[i].value];
      }
    }
    assert dials[..n] == dials;
    AnswersAreKept(dials);
    LossRange(n, ok);
    LossIsShare(n, ok, Times(dials, None));
    lossPct := LossPct(n, ok);
    if ok == 0 {
      return -1.0, lossPct;
    }
    latencyMs := MedianOf(samples);
    AnswersAreNotNegative(dials);
    MedianIsNotBelow(samples, 0.0);
  }

  /** median on the slice collected so far. */
  method MedianOf(samples: seq<real>) returns (m: real)
    ensures m == Median(samples)
  {
    var a := new real[|samples|](i requires 0 <= i < |samples| => samples[i]);
    assert a[..] == samples;
    m := ComputeMedian(a);
  }
}
