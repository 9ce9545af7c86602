/** The agent's disk list: largest first, one entry per device, the first one mirrored as the primary disk. */
module Disks {
  import opened Basics
  import opened Sorting

  datatype Disk = Disk(mount: string, device: string, fsType: string, total: nat, used: nat, usedPct: real)

  /** Go's < on strings. */
  predicate StringLess(a: string, b: string)
    decreases |a|
  {
    b != [] && (a == [] || a[0] < b[0] || (a[0] == b[0] && StringLess(a[1..], b[1..])))
  }

  predicate Before(a: Disk, b: Disk) {
    if a.total != b.total then a.total > b.total else StringLess(a.mount, b.mount)
  }

  /** The strings first differ where a has the smaller character, or a ends there. */
  ghost predicate Precedes(a: string, b: string) {
    exists k :: 0 <= k <= |a| && k < |b| && a[..k] == b[..k] && (k == |a| || a[k] < b[k])
  }

  lemma {:induction false} LessPrecedes(a: string, b: string)
    requires StringLess(a, b)
    ensures Precedes(a, b)
    decreases |a|
  {
    if a != [] && a[0] == b[0] {
      LessPrecedes(a[1..], b[1..]);
      var k :| 0 <= k <= |a[1..]| && k < |b[1..]| && a[1..][..k] == b[1..][..k]
               && (k == |a[1..]| || a[1..][k] < b[1..][k]);
      assert a[..k + 1] == [a[0]] + a[1..][..k] && b[..k + 1] == [b[0]] + b[1..][..k];
    } else {
      assert a[..0] == b[..0];
    }
  }

  lemma {:induction false} PrecedesAt(a: string, b: string, k: nat)
    requires k <= |a| && k < |b| && a[..k] == b[..k] && (k == |a| || a[k] < b[k])
    ensures StringLess(a, b)
    decreases k
  {
    if k > 0 {
      assert a[..k][0] == a[0] && b[..k][0] == b[0];
      assert a[1..][..k - 1] == a[..k][1..] && b[1..][..k - 1] == b[..k][1..];
      PrecedesAt(a[1..], b[1..], k - 1);
    }
  }

  lemma StringLessIff(a: string, b: string)
    ensures StringLess(a, b) <==> Precedes(a, b)
  {
    if StringLess(a, b) {
      LessPrecedes(a, b);
    }
    if Precedes(a, b) {
      var k :| 0 <= k <= |a| && k < |b| && a[..k] == b[..k] && (k == |a| || a[k] < b[k]);
      PrecedesAt(a, b, k);
    }
  }

  lemma {:induction false} StringLessAsymmetric(a: string, b: string)
    ensures !(StringLess(a, b) && StringLess(b, a))
    decreases |a|
  {
    if a != [] && b != [] && a[0] == b[0] {
      StringLessAsymmetric(a[1..], b[1..]);
    }
  }

  lemma {:induction false} StringLessSplits(a: string, b: string, c: string)
    requires StringLess(a, b)
    ensures StringLess(a, c) || StringLess(c, b)
    decreases |a|
  {
    if a != [] && c != [] && a[0] == c[0] && a[0] == b[0] {
      StringLessSplits(a[1..], b[1..], c[1..]);
    }
  }

  lemma BeforeIsStrictWeak()
    ensures StrictWeak(Before)
  {
    forall a, b | Before(a, b) ensures !Before(b, a) {
      StringLessAsymmetric(a.mount, b.mount);
    }
    forall a, b, c | Before(a, b) ensures Before(a, c) || Before(c, b) {
      if a.total == b.total {
        StringLessSplits(a.mount, b.mount, c.mount);
      }
    }
  }

  // ---------------------------------------------------------------------
  // One entry per device
  // ---------------------------------------------------------------------

  predicate HasDevice(s: seq<Disk>, device: string) {
    exists i :: 0 <= i < |s| && s[i].device == device
  }

  predicate Kept(before: seq<Disk>, d: Disk) {
    d.device == "" || !HasDevice(before, d.device)
  }

  /** The first entry of every device, and every entry without one. */
  function Deduped(s: seq<Disk>): seq<Disk> {
    if s == [] then []
    else
      var init, d := s[..|s| - 1], s[|s| - 1];
      if Kept(init, d) then Deduped(init) + [d] else Deduped(init)
  }

  /** Order is kept: the result is a subsequence of the input, at increasing positions. */
  lemma {:induction false} DedupedIsSubsequence(s: seq<Disk>) returns (at: seq<int>)
    ensures |at| == |Deduped(s)|
    ensures forall i :: 0 <= i < |at| ==> 0 <= at[i] < |s| && Deduped(s)[i] == s[at[i]]
    ensures forall i, j :: 0 <= i < j < |at| ==> at[i] < at[j]
    ensures forall i :: 0 <= i < |at| ==> Kept(s[..at[i]], s[at[i]])
  {
    if s == [] {
      at := [];
    } else {
      var init := s[..|s| - 1];
      var at0 := DedupedIsSubsequence(init);
      forall i | 0 <= i < |at0| ensures init[..at0[i]] == s[..at0[i]] {
      }
      at := if Kept(init, s[|s| - 1]) then at0 + [|s| - 1] else at0;
    }
  }

  lemma {:induction false} DedupedKeepsFirsts(s: seq<Disk>, k: nat)
    requires k < |s| && Kept(s[..k], s[k])
    ensures s[k] in Deduped(s)
  {
    var init := s[..|s| - 1];
    if k < |s| - 1 {
      assert init[..k] == s[..k];
      DedupedKeepsFirsts(init, k);
    }
  }

  lemma {:induction false} DedupedKeepsUnnamed(s: seq<Disk>, d: Disk)
    requires d.device == ""
    ensures multiset(Deduped(s))[d] == multiset(s)[d]
  {
    if s != [] {
      DedupedKeepsUnnamed(s[..|s| - 1], d);
      assert s == s[..|s| - 1] + [s[|s| - 1]];
    }
  }

  lemma {:induction false} FirstOfDevice(s: seq<Disk>, device: string) returns (k: nat)
    requires HasDevice(s, device)
    ensures k < |s| && s[k].device == device && !HasDevice(s[..k], device)
  {
    var init := s[..|s| - 1];
    if HasDevice(init, device) {
      k := FirstOfDevice(init, device);
      assert init[..k] == s[..k];
    } else {
      k := |s| - 1;
      assert forall i :: 0 <= i < |init| ==> init[i] == s[i];
    }
  }

  lemma {:induction false} HeadStays(s: seq<Disk>)
    requires s != []
    ensures Deduped(s) != [] && Deduped(s)[0] == s[0]
  {
    if |s| > 1 {
      HeadStays(s[..|s| - 1]);
    }
  }

  lemma SameMembers(a: seq<Disk>, b: seq<Disk>)
    requires multiset(a) == multiset(b)
    ensures forall d :: d in a <==> d in b
  {
    forall d ensures d in a <==> d in b {
      assert d in a <==> d in multiset(a);
      assert d in b <==> d in multiset(b);
    }
  }

  lemma DedupedOrder(sorted: seq<Disk>)
    requires Sorted(Before, sorted)
    ensures Sorted(Before, Deduped(sorted))
    ensures forall d :: d in Deduped(sorted) ==> d in sorted
  {
    var at := DedupedIsSubsequence(sorted);
  }

  lemma DedupedOncePerDevice(s: seq<Disk>)
    ensures forall i, j :: 0 <= i < j < |Deduped(s)| && Deduped(s)[i].device != "" ==>
              Deduped(s)[i].device != Deduped(s)[j].device
  {
    var out := Deduped(s);
    var at := DedupedIsSubsequence(s);
    forall i, j | 0 <= i < j < |out| && out[i].device != "" ensures out[i].device != out[j].device {
      assert s[..at[j]][at[i]] == out[i];
      assert Kept(s[..at[j]], out[j]);
    }
  }

  lemma LargestOfDevice(sorted: seq<Disk>, i: nat) returns (d: Disk)
    requires Sorted(Before, sorted) && i < |sorted| && sorted[i].device != ""
    ensures d in Deduped(sorted) && d.device == sorted[i].device && !Before(sorted[i], d)
  {
    var p := sorted[i];
    var k := FirstOfDevice(sorted, p.device);
    assert forall j :: 0 <= j < k ==> sorted[..k][j].device != p.device;
    assert Kept(sorted[..k], sorted[k]);
    DedupedKeepsFirsts(sorted, k);
    BeforeIsStrictWeak();
    d := sorted[k];
  }

  /** d is no smaller than p, and of equally large ones has no later mount point. */
  ghost predicate AtLeastAsLarge(d: Disk, p: Disk) {
    d.total > p.total || (d.total == p.total && !Precedes(p.mount, d.mount))
  }

  lemma NotBeforeIsLarge(d: Disk, p: Disk)
    ensures !Before(p, d) <==> AtLeastAsLarge(d, p)
  {
    StringLessIff(p.mount, d.mount);
  }

  ghost predicate LargestFirst(list: seq<Disk>) {
    forall i, j :: 0 <= i < j < |list| ==> list[i].total >= list[j].total && AtLeastAsLarge(list[i], list[j])
  }

  ghost predicate OncePerDevice(list: seq<Disk>) {
    forall i, j :: 0 <= i < j < |list| && list[i].device != "" ==> list[i].device != list[j].device
  }

  /** The partition's device is listed, by a partition at least as large. */
  ghost predicate Represented(p: Disk, list: seq<Disk>) {
    && (exists d :: d in list && d.device == p.device)
    && (forall d :: d in list && d.device == p.device ==> d.total >= p.total && AtLeastAsLarge(d, p))
  }

  /** The disk list of these partitions: largest first, equal ones by mount point; only partitions; every named
      device exactly once, by the largest of its partitions; every partition without a device. */
  ghost predicate IsDiskList(parts: seq<Disk>, list: seq<Disk>) {
    && LargestFirst(list)
    && OncePerDevice(list)
    && (forall d :: d in list ==> d in parts)
    && (forall p :: p in parts && p.device != "" ==> Represented(p, list))
    && (forall d: Disk :: d.device == "" ==> multiset(list)[d] == multiset(parts)[d])
  }

  /** Its head is the largest partition of all. */
  ghost predicate IsPrimary(parts: seq<Disk>, primary: Option<Disk>) {
    if parts == [] then primary == None
    else primary.Some? && primary.value in parts
         && forall p :: p in parts ==> primary.value.total >= p.total && AtLeastAsLarge(primary.value, p)
  }

  lemma OnlyOfItsDevice(list: seq<Disk>, d: Disk, d': Disk)
    requires OncePerDevice(list) && d in list && d' in list && d.device == d'.device != ""
    ensures d == d'
  {
  }

  lemma DedupedByLargest(sorted: seq<Disk>, p: Disk)
    requires Sorted(Before, sorted) && p in sorted && p.device != ""
    ensures Represented(p, Deduped(sorted))
  {
    DedupedOncePerDevice(sorted);
    var i :| 0 <= i < |sorted| && sorted[i] == p;
    var largest := LargestOfDevice(sorted, i);
    NotBeforeIsLarge(largest, p);
    forall d | d in Deduped(sorted) && d.device == p.device ensures d == largest {
      OnlyOfItsDevice(Deduped(sorted), d, largest);
    }
  }

  lemma DedupedLargestFirst(sorted: seq<Disk>)
    requires Sorted(Before, sorted)
    ensures LargestFirst(Deduped(sorted))
  {
    var list := Deduped(sorted);
    DedupedOrder(sorted);
    forall i, j | 0 <= i < j < |list| ensures AtLeastAsLarge(list[i], list[j]) {
      NotBeforeIsLarge(list[i], list[j]);
    }
  }

  lemma HeadIsPrimary(parts: seq<Disk>, sorted: seq<Disk>)
    requires multiset(sorted) == multiset(parts) && Sorted(Before, sorted)
    ensures IsPrimary(parts, if Deduped(sorted) == [] then None else Some(Deduped(sorted)[0]))
  {
    SameMembers(sorted, parts);
    if parts == [] {
      assert sorted == [];
    } else {
      assert parts[0] in sorted;
      PrimaryIsLargest(sorted);
      HeadStays(sorted);
      var head := Deduped(sorted)[0];
      forall p | p in parts ensures AtLeastAsLarge(head, p) {
        NotBeforeIsLarge(head, p);
      }
    }
  }

  /** Whatever order the (unstable) library sort leaves equal entries in, what is left after it is the disk list,
      and its head the primary disk. */
  lemma DiskListSpec(parts: seq<Disk>, sorted: seq<Disk>)
    requires multiset(sorted) == multiset(parts) && Sorted(Before, sorted)
    ensures IsDiskList(parts, Deduped(sorted))
    ensures IsPrimary(parts, if Deduped(sorted) == [] then None else Some(Deduped(sorted)[0]))
  {
    SameMembers(sorted, parts);
    DedupedOrder(sorted);
    DedupedLargestFirst(sorted);
    DedupedOncePerDevice(sorted);
    forall p | p in parts && p.device != "" ensures Represented(p, Deduped(sorted)) {
      DedupedByLargest(sorted, p);
    }
    forall d: Disk | d.device == "" ensures multiset(Deduped(sorted))[d] == multiset(parts)[d] {
      DedupedKeepsUnnamed(sorted, d);
    }
    HeadIsPrimary(parts, sorted);
  }

  lemma PrimaryIsLargest(sorted: seq<Disk>)
    requires Sorted(Before, sorted) && sorted != []
    ensures Deduped(sorted) != [] && forall p :: p in sorted ==> !Before(p, Deduped(sorted)[0])
  {
    HeadStays(sorted);
    BeforeIsStrictWeak();
  }

  /** The same array serves as input and, from its front, as output. */
  method DedupeInPlace(a: array<Disk>) returns (n: nat)
    modifies a
    ensures n <= a.Length && a[..n] == Deduped(old(a[..]))
  {
    ghost var s := a[..];
    var seen: set<string> := {};
    n := 0;
    for i := 0 to a.Length
      invariant n <= i
      invariant a[..n] == Deduped(s[..i])
      invariant a[i..] == s[i..]
      invariant forall v :: v in seen <==> v != "" && HasDevice(s[..i], v)
    {
      var d := a[i];
      assert d == a[i..][0] == s[i];
      assert s[..i + 1][..i] == s[..i] && s[..i + 1] == s[..i] + [d];
      HasDevicePlus(s[..i], d);
      assert a[i + 1..] == a[i..][1..] && s[i + 1..] == s[i..][1..];
      if d.device == "" || d.device !in seen {
        seen := if d.device == "" then seen else seen + {d.device};
        a[n] := d;
        assert a[..n + 1] == Deduped(s[..i]) + [d];
        n := n + 1;
      }
    }
    assert s[..a.Length] == s;
  }

  /** The tail of disks(): sorts, dedupes, picks the primary. */
  method ArrangeDisks(a: array<Disk>) returns (n: nat, primary: Option<Disk>)
    modifies a
    ensures n <= a.Length && a[..n] == Deduped(SortedCopy(Before, old(a[..])))
    ensures primary == if n == 0 then None else Some(a[0])
    ensures IsDiskList(old(a[..]), a[..n]) && IsPrimary(old(a[..]), primary)
  {
    SortKeeps(Before, a[..]);
    BeforeIsStrictWeak();
    SortSorts(Before, a[..]);
    DiskListSpec(a[..], SortedCopy(Before, a[..]));
    InsertionSort(a, Before);
    n := DedupeInPlace(a);
    primary := if n > 0 then Some(a[0]) else None;
  }

  lemma HasDevicePlus(s: seq<Disk>, d: Disk)
    ensures forall v :: HasDevice(s + [d], v) <==> HasDevice(s, v) || v == d.device
  {
    var t := s + [d];
    assert t[|s|] == d;
    forall v | HasDevice(s, v) ensures HasDevice(t, v) {
      var i :| 0 <= i < |s| && s[i].device == v;
      assert t[i].device == v;
    }
  }
}
