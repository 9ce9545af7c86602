/** The in-memory history: one slice per node, kept at no more than `cap` points by shifting in place. */
module History {
  import opened Basics
  import opened Samples

  // ---------------------------------------------------------------------
  // What one push does, and what all pushes amount to
  // ---------------------------------------------------------------------

  function Pushed<T>(cap: nat, h: seq<T>, x: T): seq<T>
    requires cap >= 1
  {
    if |h| >= cap then h[|h| - cap + 1..] + [x] else h + [x]
  }

  function PushAll<T>(cap: nat, h: seq<T>, xs: seq<T>): seq<T>
    requires cap >= 1
  {
    if xs == [] then h else Pushed(cap, PushAll(cap, h, xs[..|xs| - 1]), xs[|xs| - 1])
  }

  lemma PushedIsLast<T>(cap: nat, h: seq<T>, x: T)
    requires cap >= 1
    ensures Pushed(cap, h, x) == LastK(cap, h + [x])
  {
  }

  lemma PushedOntoLast<T>(cap: nat, s: seq<T>, x: T)
    requires cap >= 1
    ensures Pushed(cap, LastK(cap, s), x) == LastK(cap, s + [x])
  {
    if |s| >= cap {
      assert LastK(cap, s)[1..] == s[|s| - cap + 1..];
    }
  }

  /** However the pushes are spread, the ring holds the last `cap` points ever pushed; a ring that
      starts over capacity (a smaller cap was configured) is cut to size by its first push. */
  lemma {:induction false} RingHoldsTheLast<T>(cap: nat, h: seq<T>, xs: seq<T>)
    requires cap >= 1
    ensures PushAll(cap, h, xs) == if xs == [] then h else LastK(cap, h + xs)
  {
    if xs != [] {
      var init, last := xs[..|xs| - 1], xs[|xs| - 1];
      RingHoldsTheLast(cap, h, init);
      assert h + xs == (h + init) + [last];
      if init == [] {
        assert h + init == h;
        PushedIsLast(cap, h, last);
      } else {
        PushedOntoLast(cap, h + init, last);
      }
    }
  }

  /** Rehydration: the rows SQL ranks newest first, read back in time order, are the ring that pushing
      every stored row would have left. */
  function TopRows(cap: nat, table: map<int, Sample>): map<int, Sample> {
    map t | t in TopRanked(cap, table.Keys) :: table[t]
  }

  lemma HydrationIsReplay(cap: nat, table: map<int, Sample>)
    requires cap >= 1
    ensures Rows(TopRows(cap, table)) == PushAll(cap, [], Rows(table))
  {
    var all, top := Ascending(table.Keys), Ascending(TopRanked(cap, table.Keys));
    TopRankedIsLastK(cap, table.Keys);
    AscendingMembers(table.Keys);
    assert TopRows(cap, table).Keys == TopRanked(cap, table.Keys);
    assert Rows(TopRows(cap, table)) == LastK(cap, Rows(table));
    RingHoldsTheLast(cap, [], Rows(table));
    assert [] + Rows(table) == Rows(table);
  }

  // ---------------------------------------------------------------------
  // The slice itself: an offset and a length into a shared backing array
  // ---------------------------------------------------------------------

  class Ring {
    var buf: array<Sample>
    var off: nat
    var len: nat

    ghost predicate Valid()
      reads this
    {
      off + len <= buf.Length
    }

    ghost function Contents(): seq<Sample>
      reads this, buf
      requires Valid()
    {
      buf[off..off + len]
    }

    constructor ()
      ensures Valid() && fresh(buf) && Contents() == []
    {
      buf := new Sample[0];
      off, len := 0, 0;
    }

    /** append: in place while the backing array has room, else in a larger copy. */
    method Append(sm: Sample)
      requires Valid()
      modifies this, buf
      ensures Valid() && (buf == old(buf) || fresh(buf))
      ensures Contents() == old(Contents()) + [sm]
    {
      if off + len < buf.Length {
        buf[off + len] := sm;
        assert buf[off..off + len + 1] == old(Contents()) + [sm];
      } else {
        var bigger := new Sample[2 * len + 1](_ => sm);
        for i := 0 to len
          modifies bigger
          invariant forall j :: 0 <= j < i ==> bigger[j] == buf[off + j]
          invariant bigger[len] == sm
        {
          bigger[i] := buf[off + i];
        }
        assert bigger[..len + 1] == old(Contents()) + [sm];
        buf, off := bigger, 0;
      }
      len := len + 1;
    }

    /** copy(h, h[1:]); h[len(h)-1] = sm */
    method ShiftIn(sm: Sample)
      requires Valid() && len >= 1
      modifies buf
      ensures Contents() == old(Contents())[1..] + [sm]
    {
      ghost var was := buf[..];
      var last := off + len - 1;
      for i := off to last
        invariant forall j :: off <= j < i ==> buf[j] == was[j + 1]
        invariant forall j :: i <= j <= last ==> buf[j] == was[j]
      {
        buf[i] := buf[i + 1];
      }
      buf[last] := sm;
      forall j | 0 <= j < len ensures Contents()[j] == (was[off + 1..off + len] + [sm])[j] {
        assert Contents()[j] == buf[off + j];
        assert j < len - 1 ==> buf[off + j] == was[off + j + 1];
      }
    }

    /** pushHistory: a full slice is re-sliced to its last `cap` points and shifted left in place. */
    method Push(cap: nat, sm: Sample)
      requires Valid() && cap >= 1
      modifies this, buf
      ensures Valid() && (buf == old(buf) || fresh(buf))
      ensures Contents() == Pushed(cap, old(Contents()), sm)
    {
      if len >= cap {
        if len > cap {
          off, len := off + (len - cap), cap;
        }
        assert Contents()[1..] == old(Contents())[old(len) - cap + 1..];
        ShiftIn(sm);
      } else {
        Append(sm);
      }
    }

    /** The copy ListStatus hands out. */
    method Snapshot() returns (a: array<Sample>)
      requires Valid()
      ensures fresh(a) && a[..] == Contents()
    {
      if len == 0 {
        a := new Sample[0];
      } else {
        var first := buf[off];
        a := new Sample[len](_ => first);
        for i := 0 to len
          modifies a
          invariant forall j :: 0 <= j < i ==> a[j] == buf[off + j]
        {
          a[i] := buf[off + i];
        }
      }
    }

    /** Points already handed out never change, however many pushes shift the slice underneath them. */
    method SnapshotThenPush(cap: nat, xs: seq<Sample>) returns (a: array<Sample>)
      requires Valid() && cap >= 1
      modifies this, buf
      ensures Valid()
      ensures a[..] == old(Contents())
      ensures Contents() == if xs == [] then old(Contents()) else LastK(cap, old(Contents()) + xs)
    {
      a := Snapshot();
      for i := 0 to |xs|
        invariant Valid() && (buf == old(buf) || fresh(buf)) && buf != a
        invariant a[..] == old(Contents())
        invariant Contents() == PushAll(cap, old(Contents()), xs[..i])
      {
        Push(cap, xs[i]);
        assert xs[..i + 1][..i] == xs[..i];
      }
      assert xs[..|xs|] == xs;
      RingHoldsTheLast(cap, old(Contents()), xs);
    }
  }

  /** The points a multi-node sequence holds for one node, in order. */
  function RowsFor(q: seq<(Id, Sample)>, id: Id): seq<Sample> {
    if q == [] then []
    else
      var (node, sm) := q[|q| - 1];
      if node == id then RowsFor(q[..|q| - 1], id) + [sm] else RowsFor(q[..|q| - 1], id)
  }

  lemma RowsForPlus(q: seq<(Id, Sample)>, r: (Id, Sample), id: Id)
    ensures RowsFor(q + [r], id) == if r.0 == id then RowsFor(q, id) + [r.1] else RowsFor(q, id)
  {
    assert (q + [r])[..|q|] == q;
  }

  function PointsIn(points: map<Id, seq<Sample>>, id: Id): seq<Sample> {
    if id in points then points[id] else []
  }

  /** Store.history: each node's slice, no two sharing a backing array. */
  class HistoryTable {
    var rings: map<Id, Ring>
    ghost var points: map<Id, seq<Sample>>   // what the slices hold
    ghost var Repr: set<object>

    ghost predicate Valid()
      reads this, Repr
    {
      && this in Repr
      && (forall id :: id in rings ==> rings[id] in Repr && rings[id].buf in Repr)
      && Separate()
      && forall id :: SlicePoints(id) == PointsIn(points, id)
    }

    ghost predicate Separate()
      reads `rings, rings.Values
    {
      && (forall id :: id in rings ==> rings[id].Valid())
      && (forall a, b :: a in rings && b in rings && a != b ==>
            rings[a] != rings[b] && rings[a].buf != rings[b].buf)
    }

    ghost function Slices(): set<object>
      reads `rings, rings.Values
    {
      (set id | id in rings :: rings[id] as object) + (set id | id in rings :: rings[id].buf as object)
    }

    /** A node's points; none for a node without an entry, as for a nil slice. */
    ghost function SlicePoints(id: Id): seq<Sample>
      requires Separate()
      reads `rings, rings.Values, Slices()
    {
      if id in rings then rings[id].Contents() else []
    }

    constructor ()
      ensures Valid() && fresh(Repr) && points == map[]
    {
      rings, points := map[], map[];
      Repr := {this};
    }

    method Find(id: Id) returns (r: Ring)
      requires Separate()
      modifies `rings
      ensures Separate() && fresh(Slices() - old(Slices()))
      ensures id in rings && rings[id] == r
      ensures forall k :: SlicePoints(k) == old(SlicePoints(k))
    {
      if id !in rings {
        r := new Ring();
        rings := rings[id := r];
      }
      r := rings[id];
    }

    method PushSlice(cap: nat, id: Id, sm: Sample)
      requires Separate() && cap >= 1
      modifies `rings, Slices()
      ensures Separate() && fresh(Slices() - old(Slices()))
      ensures forall k ::
                SlicePoints(k) == if k == id then Pushed(cap, old(SlicePoints(id)), sm) else old(SlicePoints(k))
    {
      var r := Find(id);
      r.Push(cap, sm);
    }

    method AppendSlice(id: Id, sm: Sample)
      requires Separate()
      modifies `rings, Slices()
      ensures Separate() && fresh(Slices() - old(Slices()))
      ensures forall k :: SlicePoints(k) == if k == id then old(SlicePoints(id)) + [sm] else old(SlicePoints(k))
    {
      var r := Find(id);
      r.Append(sm);
    }

    /** Notes what the slices hold now. */
    ghost method Record(h: map<Id, seq<Sample>>)
      requires Separate() && forall k :: SlicePoints(k) == PointsIn(h, k)
      modifies `points, `Repr
      ensures Valid() && points == h && Repr == old(Repr) + {this} + Slices()
    {
      points := h;
      Repr := Repr + {this} + Slices();
    }

    method Push(cap: nat, id: Id, sm: Sample)
      requires Valid() && cap >= 1
      modifies Repr
      ensures Valid() && fresh(Repr - old(Repr))
      ensures points == old(points)[id := Pushed(cap, PointsIn(old(points), id), sm)]
    {
      assert Slices() <= Repr;
      PushSlice(cap, id, sm);
      Record(points[id := Pushed(cap, PointsIn(points, id), sm)]);
    }

    method Append(id: Id, sm: Sample)
      requires Valid()
      modifies Repr
      ensures Valid() && fresh(Repr - old(Repr))
      ensures points == old(points)[id := PointsIn(old(points), id) + [sm]]
    {
      assert Slices() <= Repr;
      AppendSlice(id, sm);
      Record(points[id := PointsIn(points, id) + [sm]]);
    }

    method RemoveSlice(id: Id)
      requires Separate()
      modifies `rings
      ensures Separate() && Slices() <= old(Slices())
      ensures forall k :: SlicePoints(k) == if k == id then [] else old(SlicePoints(k))
    {
      rings := rings - {id};
    }

    method Remove(id: Id)
      requires Valid()
      modifies this
      ensures Valid() && Repr == old(Repr)
      ensures points == old(points) - {id}
    {
      assert Slices() <= Repr;
      RemoveSlice(id);
      Record(points - {id});
    }

    method Snapshot(id: Id) returns (a: array<Sample>)
      requires Valid()
      ensures fresh(a) && a[..] == PointsIn(points, id)
    {
      assert SlicePoints(id) == PointsIn(points, id);
      if id in rings {
        a := rings[id].Snapshot();
      } else {
        a := new Sample[0];
      }
    }
  }
}
