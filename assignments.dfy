/** Task assignments and the solution lists built from them
    (app/src/main/java/com/algorithm/CSP_Solver.java:413-421).
    `TaskAssignment` is not part of this model; it is taken to be a pair of a
    task id and a copy of the chosen slice, whose `equals` compares both and
    whose `compareTo` orders by task id. */
module Assignments {
  import opened Slices
  import opened Seqs

  datatype Assignment = Assignment(taskId: nat, slice: Slice)

  /** `order` lists every task id 0..n-1 exactly once. */
  predicate IsPermutation(order: seq<nat>, n: nat) {
    && |order| == n
    && (forall k :: 0 <= k < n ==> order[k] < n)
    && (forall i, j :: 0 <= i < j < n ==> order[i] != order[j])
    && (forall t :: 0 <= t < n ==> t in order)
  }

  ghost predicate SortedById(s: seq<Assignment>) {
    forall i, j :: 0 <= i < j < |s| ==> s[i].taskId <= s[j].taskId
  }

  function InsertById(x: Assignment, s: seq<Assignment>): (r: seq<Assignment>)
    requires SortedById(s)
    ensures multiset(r) == multiset(s) + multiset{x}
    ensures SortedById(r)
  {
    if |s| == 0 || x.taskId <= s[0].taskId then [x] + s
    else
      var rest := InsertById(x, s[1..]);
      assert s == [s[0]] + s[1..];
      HeadBeforeInsertedId(x, s, rest);
      [s[0]] + rest
  }

  lemma HeadBeforeInsertedId(x: Assignment, s: seq<Assignment>, rest: seq<Assignment>)
    requires |s| > 0 && SortedById(s) && SortedById(rest)
    requires s[0].taskId < x.taskId
    requires multiset(rest) == multiset(s[1..]) + multiset{x}
    ensures SortedById([s[0]] + rest)
  {
    forall k | 0 <= k < |rest| ensures s[0].taskId <= rest[k].taskId {
      assert rest[k] in multiset(rest);
      if rest[k] != x {
        assert rest[k] in multiset(s[1..]);
        var m :| 0 <= m < |s[1..]| && s[1..][m] == rest[k];
        assert s[m + 1] == rest[k];
      }
    }
    var r := [s[0]] + rest;
    forall i, j | 0 <= i < j < |r| ensures r[i].taskId <= r[j].taskId {
      if i == 0 {
        assert r[j] == rest[j - 1];
      } else {
        assert r[i] == rest[i - 1] && r[j] == rest[j - 1];
      }
    }
  }

  /** `Collections.sort` on a solution: the assignments reordered by
      ascending task id. */
  function SortById(s: seq<Assignment>): (r: seq<Assignment>)
    ensures multiset(r) == multiset(s)
    ensures SortedById(r)
  {
    if |s| == 0 then []
    else
      assert s == s[..|s| - 1] + [s[|s| - 1]];
      InsertById(s[|s| - 1], SortById(s[..|s| - 1]))
  }

  lemma {:induction false} StrictIdsSpread(s: seq<Assignment>, i: nat, j: nat)
    requires forall k :: 0 <= k < |s| - 1 ==> s[k].taskId < s[k + 1].taskId
    requires i <= j < |s|
    ensures s[j].taskId - s[i].taskId >= j - i
    decreases j - i
  {
    if i < j {
      StrictIdsSpread(s, i, j - 1);
    }
  }

  /** The sorted copy of a complete assignment made along a traversal order
      holds, at position k, task k and the slice bound to it. */
  lemma CanonicalIsById(asg: seq<Assignment>, order: seq<nat>, bound: map<nat, Slice>, n: nat)
    requires IsPermutation(order, n) && |asg| == n
    requires forall k :: 0 <= k < n ==> order[k] in bound && asg[k] == Assignment(order[k], bound[order[k]])
    ensures |SortById(asg)| == n
    ensures forall k :: 0 <= k < n ==> k in bound && SortById(asg)[k] == Assignment(k, bound[k])
  {
    var s := SortById(asg);
    assert |s| == |multiset(s)| == |multiset(asg)| == n;
    forall e | e in s
      ensures e.taskId < n && e.taskId in bound && e.slice == bound[e.taskId]
    {
      assert e in multiset(asg);
      var m :| 0 <= m < n && asg[m] == e;
    }
    forall i, j | 0 <= i < j < n ensures asg[i] != asg[j] {
      assert asg[i].taskId == order[i] && asg[j].taskId == order[j];
    }
    assert Distinct(asg);
    DistinctCountsOne(asg);
    forall k | 0 <= k < n - 1 ensures s[k].taskId < s[k + 1].taskId {
      assert s[k] in s && s[k + 1] in s;
      if s[k].taskId == s[k + 1].taskId {
        RepeatCountsTwo(s, k, k + 1);
        assert false;
      }
    }
    forall k | 0 <= k < n ensures s[k].taskId == k {
      StrictIdsSpread(s, 0, k);
      StrictIdsSpread(s, k, n - 1);
      assert s[n - 1] in s;
    }
    forall k | 0 <= k < n ensures k in bound && s[k] == Assignment(k, bound[k]) {
      assert s[k] in s;
    }
  }
}
