/** Time slices: an interval of the day given by a start and an end clock
    value. `TimeSlice` is not part of this model; its predicates are taken as
    follows: `isBefore` holds when this slice ends no later than the other
    starts, `isOverlap` when the two intervals intersect in more than a
    boundary point, and `compareTo` orders slices by start time. */
module Slices {
  import opened Clock

  datatype Slice = Slice(start: Time, end: Time)

  /** `a.isBefore(b)`: `a` ends no later than `b` starts. */
  predicate IsBefore(a: Slice, b: Slice) {
    CompareTime(a.end, b.start) <= 0
  }

  /** `a.isOverlap(b)`: each starts strictly before the other ends. */
  predicate IsOverlap(a: Slice, b: Slice) {
    CompareTime(a.start, b.end) < 0 && CompareTime(b.start, a.end) < 0
  }

  /** A slice that starts strictly before it ends. */
  predicate Proper(s: Slice) {
    CompareTime(s.start, s.end) < 0
  }

  lemma OverlapSymmetric(a: Slice, b: Slice)
    ensures IsOverlap(a, b) <==> IsOverlap(b, a)
  {
  }

  /** Precedence and overlap exclude each other. */
  lemma BeforeExcludesOverlap(a: Slice, b: Slice)
    ensures IsBefore(a, b) ==> !IsOverlap(a, b) && !IsOverlap(b, a)
  {
  }

  /** Ids sorted by the start time of their slice in `fs`. */
  ghost predicate SortedByStart(ids: seq<nat>, fs: map<nat, Slice>) {
    forall i, j :: 0 <= i < j < |ids| && ids[i] in fs && ids[j] in fs ==>
      CompareTime(fs[ids[i]].start, fs[ids[j]].start) <= 0
  }

  /** Inserts `x` into `ids`, which is sorted by start time. */
  function InsertByStart(x: nat, ids: seq<nat>, fs: map<nat, Slice>): (r: seq<nat>)
    requires x in fs && forall y :: y in ids ==> y in fs
    requires SortedByStart(ids, fs)
    ensures forall y :: y in r ==> y in fs
    ensures multiset(r) == multiset(ids) + multiset{x}
    ensures SortedByStart(r, fs)
    decreases |ids|
  {
    if |ids| == 0 then [x]
    else if CompareTime(fs[x].start, fs[ids[0]].start) <= 0 then [x] + ids
    else
      var rest := InsertByStart(x, ids[1..], fs);
      assert ids == [ids[0]] + ids[1..];
      HeadBeforeInserted(x, ids, rest, fs);
      [ids[0]] + rest
  }

  lemma HeadBeforeInserted(x: nat, ids: seq<nat>, rest: seq<nat>, fs: map<nat, Slice>)
    requires |ids| > 0 && x in fs && forall y :: y in ids ==> y in fs
    requires forall y :: y in rest ==> y in fs
    requires SortedByStart(ids, fs) && SortedByStart(rest, fs)
    requires CompareTime(fs[x].start, fs[ids[0]].start) > 0
    requires multiset(rest) == multiset(ids[1..]) + multiset{x}
    ensures SortedByStart([ids[0]] + rest, fs)
  {
    forall k | 0 <= k < |rest|
      ensures CompareTime(fs[ids[0]].start, fs[rest[k]].start) <= 0
    {
      assert rest[k] in multiset(rest);
      if rest[k] != x {
        assert rest[k] in multiset(ids[1..]);
        var m :| 0 <= m < |ids[1..]| && ids[1..][m] == rest[k];
        assert ids[m + 1] == rest[k];
      }
    }
    var r := [ids[0]] + rest;
    forall i, j | 0 <= i < j < |r|
      ensures CompareTime(fs[r[i]].start, fs[r[j]].start) <= 0
    {
      if i == 0 {
        assert r[j] == rest[j - 1];
      } else {
        assert r[i] == rest[i - 1] && r[j] == rest[j - 1];
      }
    }
  }

  /** `Collections.sort` on the fixed slices, keyed by task id: the ids
      reordered by ascending start time. */
  function SortByStart(ids: seq<nat>, fs: map<nat, Slice>): (r: seq<nat>)
    requires forall y :: y in ids ==> y in fs
    ensures forall y :: y in r ==> y in fs
    ensures multiset(r) == multiset(ids)
    ensures SortedByStart(r, fs)
  {
    if |ids| == 0 then []
    else
      assert ids == ids[..|ids| - 1] + [ids[|ids| - 1]];
      InsertByStart(ids[|ids| - 1], SortByStart(ids[..|ids| - 1], fs), fs)
  }

  /** For slices sorted by start time, none of them empty, checking adjacent
      pairs finds every overlap: if no adjacent pair overlaps, no pair does. */
  lemma AdjacentCheckComplete(ids: seq<nat>, fs: map<nat, Slice>, i: nat, j: nat)
    requires forall x :: x in ids ==> x in fs
    requires SortedByStart(ids, fs)
    requires forall x :: x in ids ==> Proper(fs[x])
    requires forall k :: 0 <= k < |ids| - 1 ==> !IsOverlap(fs[ids[k]], fs[ids[k + 1]])
    requires i < j < |ids|
    ensures !IsOverlap(fs[ids[i]], fs[ids[j]])
  {
    var a, b, c := fs[ids[i]], fs[ids[i + 1]], fs[ids[j]];
    assert Proper(b);
    assert !IsOverlap(a, b);
    assert CompareTime(a.start, b.start) <= 0;
    CompareTransitive(a.start, b.start, b.end);
    // a does not start after b ends, so b must start no earlier than a ends
    assert CompareTime(a.end, b.start) <= 0;
    assert CompareTime(b.start, c.start) <= 0;
    CompareTransitive(a.end, b.start, c.start);
  }
}
