/** Task domains and the availability flags on them.

    Every task t owns a block of consecutive slots in one flat table: slot i
    of task t sits at index `bounds[t] + i`, and `slices` holds the slot
    bounds, which never change during a granularity pass. The availability
    flags live beside the table (as a `seq<bool>` here, an `array<bool>` in
    the solver). The functions below give, as values, the flag state each
    solver operation of app/src/main/java/com/algorithm/CSP_Solver.java
    leaves behind; the solver's methods are proved to produce exactly these,
    and the lemmas here state what the operations promise. */
module Domains {
  import opened Slices
  import opened Graph

  datatype Layout = Layout(bounds: seq<nat>, slices: seq<Slice>)

  ghost predicate LayoutOk(L: Layout) {
    && |L.bounds| >= 1
    && L.bounds[0] == 0
    && L.bounds[|L.bounds| - 1] == |L.slices|
    && forall a, b :: 0 <= a <= b < |L.bounds| ==> L.bounds[a] <= L.bounds[b]
  }

  /** The number of tasks the layout has domains for. */
  function Count(L: Layout): nat
    requires |L.bounds| >= 1
  {
    |L.bounds| - 1
  }

  /** The size of task t's domain. */
  function Size(L: Layout, t: nat): nat
    requires LayoutOk(L) && t < Count(L)
  {
    L.bounds[t + 1] - L.bounds[t]
  }

  /** Slot i of task t. */
  function SlotOf(L: Layout, t: nat, i: nat): Slice
    requires LayoutOk(L) && t < Count(L) && i < Size(L, t)
  {
    L.slices[L.bounds[t] + i]
  }

  /** Flat index k lies in task t's block. */
  predicate InBlock(L: Layout, t: nat, k: int)
    requires LayoutOk(L) && t < Count(L)
  {
    L.bounds[t] <= k < L.bounds[t + 1]
  }

  /** A flag table that matches the layout. */
  ghost predicate Fits(L: Layout, av: seq<bool>) {
    LayoutOk(L) && |av| == |L.slices|
  }

  /** The availability flag of slot i of task t. */
  function Avail(av: seq<bool>, L: Layout, t: nat, i: nat): bool
    requires Fits(L, av) && t < Count(L) && i < Size(L, t)
  {
    av[L.bounds[t] + i]
  }

  function OwnerFrom(L: Layout, k: nat, t: nat): (r: nat)
    requires LayoutOk(L) && k < |L.slices| && t < Count(L) && L.bounds[t] <= k
    ensures t <= r < Count(L) && InBlock(L, r, k)
    decreases Count(L) - t
  {
    if k < L.bounds[t + 1] then t else OwnerFrom(L, k, t + 1)
  }

  /** The task whose block holds flat index k: there is exactly one. */
  function Owner(L: Layout, k: nat): (r: nat)
    requires LayoutOk(L) && k < |L.slices|
    ensures r < Count(L) && InBlock(L, r, k)
    ensures forall t :: 0 <= t < Count(L) && InBlock(L, t, k) ==> t == r
  {
    var r := OwnerFrom(L, k, 0);
    forall t | 0 <= t < Count(L) && InBlock(L, t, k) ensures t == r {
      if t != r {
        BlocksDisjoint(L, t, r, k);
      }
    }
    r
  }

  /** The indices of task t's domain whose flag went from true to false. */
  function Cleared(L: Layout, before: seq<bool>, after: seq<bool>, t: nat): set<nat>
    requires Fits(L, before) && Fits(L, after) && t < Count(L)
  {
    set i: nat | i < Size(L, t) && Avail(before, L, t, i) && !Avail(after, L, t, i)
  }

  /** `changes` records, for every task, exactly the indices whose flag
      went from true to false; a task without an entry lost none. */
  ghost predicate RecordsExactly(L: Layout, before: seq<bool>, after: seq<bool>, changes: map<nat, set<nat>>)
    requires Fits(L, before) && Fits(L, after)
  {
    && (forall t :: t in changes ==> t < Count(L) && changes[t] == Cleared(L, before, after, t))
    && (forall t :: 0 <= t < Count(L) && t !in changes ==> Cleared(L, before, after, t) == {})
  }

  /** The number of available slots. */
  function CountTrue(av: seq<bool>): nat {
    if |av| == 0 then 0 else CountTrue(av[..|av| - 1]) + (if av[|av| - 1] then 1 else 0)
  }

  /** Clearing flags never increases the number of available slots, and
      clearing one that was set decreases it. */
  lemma {:induction false} CountTrueShrinks(before: seq<bool>, after: seq<bool>)
    requires |after| == |before|
    requires forall k :: 0 <= k < |after| && after[k] ==> before[k]
    ensures CountTrue(after) <= CountTrue(before)
    ensures (exists k :: 0 <= k < |after| && before[k] && !after[k]) ==> CountTrue(after) < CountTrue(before)
  {
    if |before| > 0 {
      var m := |before| - 1;
      CountTrueShrinks(before[..m], after[..m]);
      if exists k :: 0 <= k < |after| && before[k] && !after[k] {
        var k :| 0 <= k < |after| && before[k] && !after[k];
        if k < m {
          assert before[..m][k] && !after[..m][k];
        }
      }
    }
  }

  /** What two clearing passes clear is what either pass clears. */
  lemma ClearedCompose(L: Layout, before: seq<bool>, mid: seq<bool>, after: seq<bool>, t: nat)
    requires Fits(L, before) && Fits(L, mid) && Fits(L, after) && t < Count(L)
    requires forall k :: 0 <= k < |before| && mid[k] ==> before[k]
    requires forall k :: 0 <= k < |before| && after[k] ==> mid[k]
    ensures Cleared(L, before, after, t) == Cleared(L, before, mid, t) + Cleared(L, mid, after, t)
  {
  }

  /** A pass that only touches task u's block clears nothing of another task. */
  lemma ClearedOutside(L: Layout, before: seq<bool>, after: seq<bool>, u: nat, t: nat)
    requires Fits(L, before) && Fits(L, after) && u < Count(L) && t < Count(L) && t != u
    requires forall k :: 0 <= k < |before| && !InBlock(L, u, k) ==> after[k] == before[k]
    ensures Cleared(L, before, after, t) == {}
  {
    forall i | 0 <= i < Size(L, t) ensures Avail(after, L, t, i) == Avail(before, L, t, i) {
      BlocksDisjoint(L, t, u, L.bounds[t] + i);
    }
  }

  /** A pass that only clears flags of u's block, and clears none, changes nothing. */
  lemma NothingClearedSame(L: Layout, before: seq<bool>, after: seq<bool>, u: nat)
    requires Fits(L, before) && Fits(L, after) && u < Count(L)
    requires forall k :: 0 <= k < |before| && after[k] ==> before[k]
    requires forall k :: 0 <= k < |before| && !InBlock(L, u, k) ==> after[k] == before[k]
    requires Cleared(L, before, after, u) == {}
    ensures after == before
  {
    forall k | 0 <= k < |before| ensures after[k] == before[k] {
      if InBlock(L, u, k) {
        var i: nat := k - L.bounds[u];
        assert Avail(before, L, u, i) == before[k] && Avail(after, L, u, i) == after[k];
        assert i !in Cleared(L, before, after, u);
      }
    }
  }

  // ---------------------------------------------------------------------
  // A loop over one task's domain that clears some of its slots

  /** The flags after the first m rounds of a loop over u's domain that
      clears every available slot whose index is in `bad`. */
  ghost function ClearedPrefix(L: Layout, av: seq<bool>, u: nat, bad: set<nat>, m: nat): (r: seq<bool>)
    requires Fits(L, av) && u < Count(L)
    ensures |r| == |av| && Fits(L, r)
  {
    seq(|av|, k requires 0 <= k < |av| =>
          av[k] && !(InBlock(L, u, k) && k - L.bounds[u] < m && ((k - L.bounds[u]) as nat) in bad))
  }

  /** Such a loop only clears, only inside u's block, and clears exactly
      the available slots of u below m whose index is in `bad`. */
  lemma ClearedPrefixAvail(L: Layout, av: seq<bool>, u: nat, bad: set<nat>, m: nat)
    requires Fits(L, av) && u < Count(L)
    ensures var r := ClearedPrefix(L, av, u, bad, m);
      && (forall k :: 0 <= k < |r| && r[k] ==> av[k])
      && (forall k :: 0 <= k < |r| && !InBlock(L, u, k) ==> r[k] == av[k])
      && (forall t, i :: 0 <= t < Count(L) && 0 <= i < Size(L, t) ==>
            Avail(r, L, t, i) == (Avail(av, L, t, i) && !(t == u && i < m && i in bad)))
  {
    var r := ClearedPrefix(L, av, u, bad, m);
    forall t, i | 0 <= t < Count(L) && 0 <= i < Size(L, t)
      ensures Avail(r, L, t, i) == (Avail(av, L, t, i) && !(t == u && i < m && i in bad))
    {
      if t != u {
        BlocksDisjoint(L, t, u, L.bounds[t] + i);
      }
    }
  }

  /** The slots such a loop has cleared in its first m rounds. */
  ghost function DroppedPrefix(L: Layout, av: seq<bool>, u: nat, bad: set<nat>, m: nat): set<nat>
    requires Fits(L, av) && u < Count(L) && m <= Size(L, u)
  {
    set j: nat | j < m && Avail(av, L, u, j) && j in bad
  }

  /** Before the first round nothing is cleared; after the last, what the
      loop cleared is what it reports. */
  lemma ClearedPrefixEnds(L: Layout, av: seq<bool>, u: nat, bad: set<nat>)
    requires Fits(L, av) && u < Count(L)
    ensures ClearedPrefix(L, av, u, bad, 0) == av
    ensures DroppedPrefix(L, av, u, bad, 0) == {}
    ensures Cleared(L, av, ClearedPrefix(L, av, u, bad, Size(L, u)), u) == DroppedPrefix(L, av, u, bad, Size(L, u))
  {
    var r0 := ClearedPrefix(L, av, u, bad, 0);
    assert forall k :: 0 <= k < |av| ==> r0[k] == av[k];
  }

  /** Round m clears slot m when it is available and in `bad`, and
      nothing else. */
  lemma ClearedPrefixStep(L: Layout, av: seq<bool>, u: nat, bad: set<nat>, m: nat)
    requires Fits(L, av) && u < Count(L) && m < Size(L, u)
    ensures ClearedPrefix(L, av, u, bad, m)[L.bounds[u] + m] == Avail(av, L, u, m)
    ensures ClearedPrefix(L, av, u, bad, m + 1) ==
      if Avail(av, L, u, m) && m in bad
      then ClearedPrefix(L, av, u, bad, m)[L.bounds[u] + m := false]
      else ClearedPrefix(L, av, u, bad, m)
    ensures DroppedPrefix(L, av, u, bad, m + 1) ==
      if Avail(av, L, u, m) && m in bad
      then DroppedPrefix(L, av, u, bad, m) + {m}
      else DroppedPrefix(L, av, u, bad, m)
  {
    var pos := L.bounds[u] + m;
    assert InBlock(L, u, pos);
    var c, c1 := ClearedPrefix(L, av, u, bad, m), ClearedPrefix(L, av, u, bad, m + 1);
    forall k | 0 <= k < |av| && k != pos ensures c1[k] == c[k] {
      if InBlock(L, u, k) {
        var i := k - L.bounds[u];
        assert Avail(c, L, u, i) == c[k] && Avail(c1, L, u, i) == c1[k];
      }
    }
    assert Avail(c, L, u, m) == c[pos] && Avail(c1, L, u, m) == c1[pos];
  }

  /** The state of such a loop after its first m rounds: the flags `cur`
      and the report `dropped`. */
  ghost predicate ClearState(L: Layout, av: seq<bool>, u: nat, bad: set<nat>, m: nat,
                             cur: seq<bool>, dropped: set<nat>)
    requires Fits(L, av) && u < Count(L) && m <= Size(L, u)
  {
    cur == ClearedPrefix(L, av, u, bad, m) && dropped == DroppedPrefix(L, av, u, bad, m)
  }

  /** One whole round m of such a loop: whether it cleared slot m decides
      the flags and the report after m + 1 rounds. */
  lemma ClearRound(L: Layout, av: seq<bool>, u: nat, bad: set<nat>, m: nat,
                   cur: seq<bool>, dropped: set<nat>, cleared: bool, next: seq<bool>, nextDropped: set<nat>)
    requires Fits(L, av) && u < Count(L) && m < Size(L, u)
    requires ClearState(L, av, u, bad, m, cur, dropped)
    requires cleared == (cur[L.bounds[u] + m] && m in bad)
    requires next == if cleared then cur[L.bounds[u] + m := false] else cur
    requires nextDropped == if cleared then dropped + {m} else dropped
    ensures ClearState(L, av, u, bad, m + 1, next, nextDropped)
  {
    ClearedPrefixStep(L, av, u, bad, m);
  }

  // ---------------------------------------------------------------------
  // Arc-consistency revision (markInconsistentValues)

  ghost predicate Compatible(g: ConstraintGraph, L: Layout, av: seq<bool>) {
    Shaped(g) && Fits(L, av) && Count(L) == g.n
  }

  /** Some available slot of v supports slice `su` of u. */
  ghost predicate HasSupport(g: ConstraintGraph, L: Layout, av: seq<bool>, u: nat, v: nat, su: Slice)
    requires Compatible(g, L, av) && u < g.n && v < g.n
  {
    exists j :: 0 <= j < Size(L, v) && Avail(av, L, v, j) && Supports(g, u, v, su, SlotOf(L, v, j))
  }

  /** Arc (u, v) is consistent: every available slot of u has a support in v. */
  ghost predicate ArcConsistent(g: ConstraintGraph, L: Layout, av: seq<bool>, u: nat, v: nat)
    requires Compatible(g, L, av) && u < g.n && v < g.n
  {
    forall i :: 0 <= i < Size(L, u) && Avail(av, L, u, i) ==> HasSupport(g, L, av, u, v, SlotOf(L, u, i))
  }

  /** Two tasks' blocks are disjoint. */
  lemma BlocksDisjoint(L: Layout, t1: nat, t2: nat, k: int)
    requires LayoutOk(L) && t1 < Count(L) && t2 < Count(L) && t1 != t2
    ensures !(InBlock(L, t1, k) && InBlock(L, t2, k))
  {
    if t1 < t2 {
      assert L.bounds[t1 + 1] <= L.bounds[t2];
    } else {
      assert L.bounds[t2 + 1] <= L.bounds[t1];
    }
  }

  /** The flags after revising arc (u, v): a slot of u is cleared when no
      available slot of v supports it. */
  ghost function Revise(g: ConstraintGraph, L: Layout, av: seq<bool>, u: nat, v: nat): (r: seq<bool>)
    requires Compatible(g, L, av) && u < g.n && v < g.n && u != v
    ensures |r| == |av| && Compatible(g, L, r)
    ensures forall k :: 0 <= k < |r| && r[k] ==> av[k]
    ensures forall k :: 0 <= k < |r| && !InBlock(L, u, k) ==> r[k] == av[k]
    ensures forall i :: 0 <= i < Size(L, u) ==>
      (Avail(r, L, u, i) <==> Avail(av, L, u, i) && HasSupport(g, L, av, u, v, SlotOf(L, u, i)))
    ensures ArcConsistent(g, L, r, u, v)
  {
    var r := seq(|av|, k requires 0 <= k < |av| =>
                  av[k] && !(InBlock(L, u, k) && !HasSupport(g, L, av, u, v, L.slices[k])));
    forall k | 0 <= k < |r| && InBlock(L, v, k) ensures r[k] == av[k] {
      BlocksDisjoint(L, u, v, k);
    }
    SupportUnchanged(g, L, av, r, u, v);
    r
  }

  /** The slots of u that no available slot of v supports. */
  ghost function UnsupportedSlots(g: ConstraintGraph, L: Layout, av: seq<bool>, u: nat, v: nat): set<nat>
    requires Compatible(g, L, av) && u < g.n && v < g.n
  {
    set j: nat | j < Size(L, u) && !HasSupport(g, L, av, u, v, SlotOf(L, u, j))
  }

  /** While the revision of (u, v) runs, v's flags are those it started
      with, so slot i of u is unsupported exactly when no slot of v that is
      available now supports it. */
  lemma UnsupportedNow(g: ConstraintGraph, L: Layout, before: seq<bool>, u: nat, v: nat, m: nat,
                       cur: seq<bool>, dropped: set<nat>, i: nat)
    requires Compatible(g, L, before) && u < g.n && v < g.n && u != v && m <= Size(L, u) && i < Size(L, u)
    requires ClearState(L, before, u, UnsupportedSlots(g, L, before, u, v), m, cur, dropped)
    ensures i in UnsupportedSlots(g, L, before, u, v) <==> !HasSupport(g, L, cur, u, v, SlotOf(L, u, i))
  {
    ClearedPrefixAvail(L, before, u, UnsupportedSlots(g, L, before, u, v), m);
    BlockOutside(L, u, v);
    SupportUnchanged(g, L, before, cur, u, v);
  }

  /** Revising (u, v) is the slot-by-slot pass over u that clears the
      unsupported slots. */
  lemma ReviseClearsUnsupported(g: ConstraintGraph, L: Layout, av: seq<bool>, u: nat, v: nat)
    requires Compatible(g, L, av) && u < g.n && v < g.n && u != v
    ensures Revise(g, L, av, u, v) == ClearedPrefix(L, av, u, UnsupportedSlots(g, L, av, u, v), Size(L, u))
  {
    var r := Revise(g, L, av, u, v);
    var c := ClearedPrefix(L, av, u, UnsupportedSlots(g, L, av, u, v), Size(L, u));
    forall k | 0 <= k < |av| ensures r[k] == c[k] {
      if InBlock(L, u, k) {
        var i := k - L.bounds[u];
        assert Avail(r, L, u, i) == r[k] && Avail(c, L, u, i) == c[k];
      }
    }
  }

  /** Slots of v's block lie outside u's block. */
  lemma BlockOutside(L: Layout, u: nat, v: nat)
    requires LayoutOk(L) && u < Count(L) && v < Count(L) && u != v
    ensures forall k :: InBlock(L, v, k) ==> !InBlock(L, u, k)
  {
    forall k | InBlock(L, v, k) ensures !InBlock(L, u, k) {
      BlocksDisjoint(L, u, v, k);
    }
  }

  /** Support in v depends only on v's flags. */
  lemma SupportUnchanged(g: ConstraintGraph, L: Layout, av: seq<bool>, av2: seq<bool>, u: nat, v: nat)
    requires Compatible(g, L, av) && Compatible(g, L, av2) && u < g.n && v < g.n
    requires forall k :: 0 <= k < |av| && InBlock(L, v, k) ==> av2[k] == av[k]
    ensures forall su :: HasSupport(g, L, av2, u, v, su) <==> HasSupport(g, L, av, u, v, su)
  {
    forall j | 0 <= j < Size(L, v) ensures Avail(av2, L, v, j) == Avail(av, L, v, j) {
      assert InBlock(L, v, L.bounds[v] + j);
    }
  }

  /** Clearing flags of u and leaving v alone keeps arc (u, v) consistent. */
  lemma ArcConsistentShrinks(g: ConstraintGraph, L: Layout, av: seq<bool>, av2: seq<bool>, u: nat, v: nat)
    requires Compatible(g, L, av) && Compatible(g, L, av2) && u < g.n && v < g.n
    requires forall k :: 0 <= k < |av| && av2[k] ==> av[k]
    requires forall k :: 0 <= k < |av| && InBlock(L, v, k) ==> av2[k] == av[k]
    requires ArcConsistent(g, L, av, u, v)
    ensures ArcConsistent(g, L, av2, u, v)
  {
    SupportUnchanged(g, L, av, av2, u, v);
  }

  /** A change record for the passes between `before` and `av`: every entry
      is a non-empty part of what was cleared for its task, and every task
      that had something cleared has an entry. */
  ghost predicate RecordsSome(L: Layout, before: seq<bool>, av: seq<bool>, changes: map<nat, set<nat>>)
    requires Fits(L, before) && Fits(L, av)
  {
    && (forall t :: t in changes ==>
          t < Count(L) && changes[t] != {} && changes[t] <= Cleared(L, before, av, t))
    && (forall t :: 0 <= t < Count(L) && Cleared(L, before, av, t) != {} ==> t in changes)
  }

  /** After a revision of u that cleared `ds`, putting `ds` under u (when it
      is not empty) keeps the change record. */
  lemma RecordRevision(L: Layout, before: seq<bool>, mid: seq<bool>, after: seq<bool>,
                       changes: map<nat, set<nat>>, u: nat, ds: set<nat>)
    requires Fits(L, before) && Fits(L, mid) && Fits(L, after) && u < Count(L)
    requires forall k :: 0 <= k < |before| && mid[k] ==> before[k]
    requires forall k :: 0 <= k < |before| && after[k] ==> mid[k]
    requires forall k :: 0 <= k < |before| && !InBlock(L, u, k) ==> after[k] == mid[k]
    requires ds == Cleared(L, mid, after, u)
    requires RecordsSome(L, before, mid, changes)
    ensures forall k :: 0 <= k < |before| && after[k] ==> before[k]
    ensures RecordsSome(L, before, after, if ds != {} then changes[u := ds] else changes)
    ensures forall t :: 0 <= t < Count(L) && t != u ==> Cleared(L, before, after, t) == Cleared(L, before, mid, t)
    ensures Cleared(L, before, mid, u) == {} ==> Cleared(L, before, after, u) == ds
  {
    OneTaskPass(L, before, mid, after, u);
  }

  /** A pass that only clears flags of u's block leaves what was cleared
      for every other task as it was, and adds to u what it cleared. */
  lemma OneTaskPass(L: Layout, before: seq<bool>, mid: seq<bool>, after: seq<bool>, u: nat)
    requires Fits(L, before) && Fits(L, mid) && Fits(L, after) && u < Count(L)
    requires forall k :: 0 <= k < |before| && mid[k] ==> before[k]
    requires forall k :: 0 <= k < |before| && after[k] ==> mid[k]
    requires forall k :: 0 <= k < |before| && !InBlock(L, u, k) ==> after[k] == mid[k]
    ensures forall k :: 0 <= k < |before| && after[k] ==> before[k]
    ensures forall t :: 0 <= t < Count(L) && t != u ==> Cleared(L, before, after, t) == Cleared(L, before, mid, t)
    ensures Cleared(L, before, after, u) == Cleared(L, before, mid, u) + Cleared(L, mid, after, u)
  {
    ClearedCompose(L, before, mid, after, u);
    forall t | 0 <= t < Count(L) && t != u
      ensures Cleared(L, before, after, t) == Cleared(L, before, mid, t)
    {
      ClearedCompose(L, before, mid, after, t);
      ClearedOutside(L, mid, after, u, t);
    }
  }

  /** A revision of u that cleared `ds` makes progress: the number of
      available slots drops when `ds` is not empty, and nothing changes
      when it is. */
  lemma RevisionProgress(L: Layout, mid: seq<bool>, after: seq<bool>, u: nat, ds: set<nat>)
    requires Fits(L, mid) && Fits(L, after) && u < Count(L)
    requires forall k :: 0 <= k < |mid| && after[k] ==> mid[k]
    requires forall k :: 0 <= k < |mid| && !InBlock(L, u, k) ==> after[k] == mid[k]
    requires ds == Cleared(L, mid, after, u)
    ensures CountTrue(after) <= CountTrue(mid)
    ensures ds != {} ==> CountTrue(after) < CountTrue(mid)
    ensures ds == {} ==> after == mid
  {
    CountTrueShrinks(mid, after);
    if ds != {} {
      var i :| i in ds;
      assert mid[L.bounds[u] + i] && !after[L.bounds[u] + i];
    } else {
      NothingClearedSame(L, mid, after, u);
    }
  }

  /** The arcs (w, u) for every neighbour w of u, in adjacency-list order. */
  function NeighbourArcs(g: ConstraintGraph, u: nat): (r: seq<Arc>)
    requires Shaped(g) && u < g.n
    ensures |r| == |g.adj[u]|
    ensures forall a :: a in r <==> a.v == u && a.u in g.adj[u]
  {
    var r := seq(|g.adj[u]|, x requires 0 <= x < |g.adj[u]| => Arc(g.adj[u][x], u));
    assert forall x :: 0 <= x < |g.adj[u]| ==> r[x] == Arc(g.adj[u][x], u);
    r
  }

  /** One round of the arc-consistency loop keeps its invariant. The round
      revises the head arc (u, v) of `q0`; if that cleared something, the
      arcs (w, u) for every neighbour w are queued and marked seen. Every
      arc seen and no longer queued is then consistent. */
  lemma ConsistencyRound(g: ConstraintGraph, L: Layout, mid: seq<bool>, after: seq<bool>,
                          seen0: set<Arc>, q0: seq<Arc>, seen: set<Arc>, queue: seq<Arc>,
                          inconsistent: bool)
    requires GraphOk(g) && Compatible(g, L, mid) && |q0| > 0
    requires forall a :: a in seen0 ==> ArcOk(g, a)
    requires forall a :: a in q0 ==> a in seen0
    requires forall a :: a in seen0 && a !in q0 && ArcOk(g, a) ==> ArcConsistent(g, L, mid, a.u, a.v)
    requires ArcOk(g, q0[0]) && after == Revise(g, L, mid, q0[0].u, q0[0].v)
    requires inconsistent ==>
      seen == seen0 + (set a | a in NeighbourArcs(g, q0[0].u)) && queue == (q0 + NeighbourArcs(g, q0[0].u))[1..]
    requires !inconsistent ==> after == mid && seen == seen0 && queue == q0[1..]
    ensures Compatible(g, L, after)
    ensures forall a :: a in seen ==> ArcOk(g, a)
    ensures forall a :: a in queue ==> a in seen
    ensures forall a :: a in seen && a !in queue && ArcOk(g, a) ==> ArcConsistent(g, L, after, a.u, a.v)
  {
    var e := q0[0];
    var u := e.u;
    var na := NeighbourArcs(g, u);
    forall k | 1 <= k < |q0| ensures q0[k] in queue {
      if inconsistent {
        assert queue[k - 1] == q0[k];
      } else {
        assert queue[k - 1] == q0[k];
      }
    }
    if inconsistent {
      forall a | a in na ensures a in queue {
        var x :| 0 <= x < |na| && na[x] == a;
        assert queue[|q0| - 1 + x] == a;
      }
    }
    forall a | a in seen && a !in queue && ArcOk(g, a) ensures ArcConsistent(g, L, after, a.u, a.v) {
      if a != e && !(inconsistent && a in na) {
        assert a in seen0 && a !in q0;
        ArcConsistentShrinks(g, L, mid, after, a.u, a.v);
      }
    }
    forall a | a in queue ensures a in seen {
      var k :| 0 <= k < |queue| && queue[k] == a;
      if inconsistent {
        if k + 1 < |q0| {
          assert a == q0[k + 1];
        } else {
          assert a == na[k + 1 - |q0|];
        }
      } else {
        assert a == q0[k + 1];
      }
    }
  }

  /** `sub` is a sub-table of `av`: every slot available in `sub` is
      available in `av`. */
  ghost predicate SubTable(sub: seq<bool>, av: seq<bool>) {
    |sub| == |av| && forall k :: 0 <= k < |sub| && sub[k] ==> av[k]
  }

  /** Every arc between neighbours is consistent in `sub`. */
  ghost predicate AllArcsConsistent(g: ConstraintGraph, L: Layout, sub: seq<bool>) {
    Compatible(g, L, sub) && forall u, v :: ArcOk(g, Arc(u, v)) ==> ArcConsistent(g, L, sub, u, v)
  }

  /** A revision removes no slot of a sub-table that is consistent on the
      revised arc: such a slot has a support in the sub-table, hence in the
      table being revised. */
  lemma ReviseKeepsConsistentSub(g: ConstraintGraph, L: Layout, av: seq<bool>, sub: seq<bool>, u: nat, v: nat)
    requires Compatible(g, L, av) && Compatible(g, L, sub) && u < g.n && v < g.n && u != v
    requires SubTable(sub, av) && ArcConsistent(g, L, sub, u, v)
    ensures SubTable(sub, Revise(g, L, av, u, v))
  {
    var r := Revise(g, L, av, u, v);
    forall k | 0 <= k < |sub| && sub[k] ensures r[k] {
      if InBlock(L, u, k) {
        var i: nat := k - L.bounds[u];
        assert Avail(sub, L, u, i);
        var j :| 0 <= j < Size(L, v) && Avail(sub, L, v, j) && Supports(g, u, v, SlotOf(L, u, i), SlotOf(L, v, j));
        assert Avail(av, L, v, j);
        assert Avail(r, L, u, i);
      }
    }
  }

  /** Revising an arc between neighbours keeps every sub-table of the
      starting flags that is consistent on all such arcs. */
  lemma ReviseKeepsConsistentSubs(g: ConstraintGraph, L: Layout, before: seq<bool>, mid: seq<bool>, u: nat, v: nat)
    requires Compatible(g, L, mid) && ArcOk(g, Arc(u, v))
    requires forall sub :: SubTable(sub, before) && AllArcsConsistent(g, L, sub) ==> SubTable(sub, mid)
    ensures forall sub :: SubTable(sub, before) && AllArcsConsistent(g, L, sub) ==> SubTable(sub, Revise(g, L, mid, u, v))
  {
    forall sub | SubTable(sub, before) && AllArcsConsistent(g, L, sub)
      ensures SubTable(sub, Revise(g, L, mid, u, v))
    {
      ReviseKeepsConsistentSub(g, L, mid, sub, u, v);
    }
  }

  // ---------------------------------------------------------------------
  // Forward checking (markInconsistentValues2, directedConstraintCheck,
  // directedCheckAndMarkOverlap)

  /** The flags after checking u against the slice `sv` bound to v: a slot
      of u is cleared when it fails the precedence test against `sv`. */
  function ReviseAgainst(g: ConstraintGraph, L: Layout, av: seq<bool>, u: nat, v: nat, sv: Slice): (r: seq<bool>)
    requires Compatible(g, L, av) && u < g.n && v < g.n
    ensures |r| == |av| && Compatible(g, L, r)
  {
    seq(|av|, k requires 0 <= k < |av| => av[k] && !(InBlock(L, u, k) && !Supports(g, u, v, L.slices[k], sv)))
  }

  /** Checking u against `sv` only clears, only in u's domain, and keeps
      exactly the available slots of u that pass the precedence test. */
  lemma ReviseAgainstEffect(g: ConstraintGraph, L: Layout, av: seq<bool>, u: nat, v: nat, sv: Slice)
    requires Compatible(g, L, av) && u < g.n && v < g.n
    ensures var r := ReviseAgainst(g, L, av, u, v, sv);
      && (forall k :: 0 <= k < |r| && r[k] ==> av[k])
      && (forall k :: 0 <= k < |r| && !InBlock(L, u, k) ==> r[k] == av[k])
      && (forall i :: 0 <= i < Size(L, u) ==>
            (Avail(r, L, u, i) <==> Avail(av, L, u, i) && Supports(g, u, v, SlotOf(L, u, i), sv)))
  {
  }

  /** The slots of u that fail the precedence test against `sv`. */
  function FailingSlots(g: ConstraintGraph, L: Layout, u: nat, v: nat, sv: Slice): set<nat>
    requires Shaped(g) && LayoutOk(L) && Count(L) == g.n && u < g.n && v < g.n
  {
    set j: nat | j < Size(L, u) && !Supports(g, u, v, SlotOf(L, u, j), sv)
  }

  /** Slot i of u fails against `sv` exactly when the precedence test
      rejects it. */
  lemma FailingSlot(g: ConstraintGraph, L: Layout, u: nat, v: nat, sv: Slice, i: nat)
    requires Shaped(g) && LayoutOk(L) && Count(L) == g.n && u < g.n && v < g.n && i < Size(L, u)
    ensures i in FailingSlots(g, L, u, v, sv) <==> !Supports(g, u, v, SlotOf(L, u, i), sv)
  {
  }

  /** Checking u against `sv` is the slot-by-slot pass over u that clears
      the failing slots. */
  lemma ReviseAgainstClearsFailing(g: ConstraintGraph, L: Layout, av: seq<bool>, u: nat, v: nat, sv: Slice)
    requires Compatible(g, L, av) && u < g.n && v < g.n
    ensures ReviseAgainst(g, L, av, u, v, sv) == ClearedPrefix(L, av, u, FailingSlots(g, L, u, v, sv), Size(L, u))
  {
    var r := ReviseAgainst(g, L, av, u, v, sv);
    var c := ClearedPrefix(L, av, u, FailingSlots(g, L, u, v, sv), Size(L, u));
    forall k | 0 <= k < |av| ensures r[k] == c[k] {
      if InBlock(L, u, k) {
        var i := k - L.bounds[u];
        assert Avail(r, L, u, i) == r[k] && Avail(c, L, u, i) == c[k];
      }
    }
  }

  /** The arcs of `q` come from different tasks. */
  predicate DistinctSources(q: seq<Arc>) {
    forall i, j :: 0 <= i < j < |q| ==> q[i].u != q[j].u
  }

  /** What holds after the first i arcs of `q` have been checked: flags
      were only cleared; the record covers what was cleared; a task that is
      the source of none of those arcs lost nothing; and, when the arcs
      come from different tasks, every entry is exactly what its task
      lost. */
  ghost predicate DirectedProgress(g: ConstraintGraph, L: Layout, before: seq<bool>, av: seq<bool>,
                                   q: seq<Arc>, i: nat, changes: map<nat, set<nat>>)
    requires Compatible(g, L, before) && Compatible(g, L, av) && i <= |q|
  {
    && (forall k :: 0 <= k < |before| && av[k] ==> before[k])
    && RecordsSome(L, before, av, changes)
    && (forall t :: 0 <= t < g.n && (forall j :: 0 <= j < i ==> q[j].u != t) ==> Cleared(L, before, av, t) == {})
    && (DistinctSources(q) ==> forall t :: t in changes ==> t < g.n && changes[t] == Cleared(L, before, av, t))
  }

  /** Checking arc i, which cleared `ds` of its source, and recording `ds`
      when it is not empty, keeps the progress facts. */
  lemma DirectedRound(g: ConstraintGraph, L: Layout, before: seq<bool>, mid: seq<bool>, after: seq<bool>,
                      q: seq<Arc>, i: nat, changes: map<nat, set<nat>>, ds: set<nat>)
    requires Compatible(g, L, before) && Compatible(g, L, mid) && Compatible(g, L, after)
    requires i < |q| && q[i].u < g.n
    requires DirectedProgress(g, L, before, mid, q, i, changes)
    requires forall k :: 0 <= k < |mid| && after[k] ==> mid[k]
    requires forall k :: 0 <= k < |mid| && !InBlock(L, q[i].u, k) ==> after[k] == mid[k]
    requires ds == Cleared(L, mid, after, q[i].u)
    ensures DirectedProgress(g, L, before, after, q, i + 1, if ds != {} then changes[q[i].u := ds] else changes)
  {
    var u := q[i].u;
    RecordRevision(L, before, mid, after, changes, u, ds);
    RevisionProgress(L, mid, after, u, ds);
    if DistinctSources(q) {
      assert forall j :: 0 <= j < i ==> q[j].u != u;
    }
  }

  /** The flags after revising, in order, every arc of `q` against the
      slice bound to its target. */
  ghost function DirectedChecked(g: ConstraintGraph, L: Layout, av: seq<bool>, bound: map<nat, Slice>, q: seq<Arc>): (r: seq<bool>)
    requires Compatible(g, L, av)
    requires forall a :: a in q ==> a.u < g.n && a.v < g.n && a.v in bound
    ensures Compatible(g, L, r)
    decreases |q|
  {
    if |q| == 0 then av
    else
      var last := q[|q| - 1];
      assert last in q;
      ReviseAgainst(g, L, DirectedChecked(g, L, av, bound, q[..|q| - 1]), last.u, last.v, bound[last.v])
  }

  /** The flags after the precedence pass for a task `id` bound to `s`:
      every slot of a task in `sources` that fails the test against `s` is
      cleared. */
  ghost function PrecedencePruned(g: ConstraintGraph, L: Layout, av: seq<bool>, sources: set<nat>, id: nat, s: Slice): (r: seq<bool>)
    requires Compatible(g, L, av) && id < g.n
    ensures |r| == |av| && Compatible(g, L, r)
    ensures forall k :: 0 <= k < |r| && r[k] ==> av[k]
    ensures forall t, i :: 0 <= t < g.n && 0 <= i < Size(L, t) ==>
      Avail(r, L, t, i) == (Avail(av, L, t, i) && (t in sources ==> Supports(g, t, id, SlotOf(L, t, i), s)))
  {
    var r := seq(|av|, k requires 0 <= k < |av| =>
                  av[k] && !(Owner(L, k) in sources && !Supports(g, Owner(L, k), id, L.slices[k], s)));
    forall t, i | 0 <= t < g.n && 0 <= i < Size(L, t)
      ensures Avail(r, L, t, i) == (Avail(av, L, t, i) && (t in sources ==> Supports(g, t, id, SlotOf(L, t, i), s)))
    {
      assert InBlock(L, t, L.bounds[t] + i);
    }
    r
  }

  /** Revising, one after another, arcs (w, id) for every source w in `q`
      against the slice bound to id leaves the flags the precedence pass
      describes for the set of those sources. */
  lemma {:induction false} DirectedCheckedIsPruned(g: ConstraintGraph, L: Layout, av: seq<bool>, bound: map<nat, Slice>, q: seq<Arc>, id: nat)
    requires Compatible(g, L, av) && id < g.n && id in bound
    requires forall a :: a in q ==> a.u < g.n && a.v == id
    ensures DirectedChecked(g, L, av, bound, q) == PrecedencePruned(g, L, av, set a | a in q :: a.u, id, bound[id])
    decreases |q|
  {
    var sources := set a | a in q :: a.u;
    var r := DirectedChecked(g, L, av, bound, q);
    var p := PrecedencePruned(g, L, av, sources, id, bound[id]);
    if |q| == 0 {
      assert sources == {};
      forall k | 0 <= k < |av| ensures r[k] == p[k] {
        var t := Owner(L, k);
        assert Avail(p, L, t, k - L.bounds[t]) == Avail(av, L, t, k - L.bounds[t]);
      }
    } else {
      var init := q[..|q| - 1];
      var last := q[|q| - 1];
      assert last in q;
      forall a | a in init ensures a in q { }
      DirectedCheckedIsPruned(g, L, av, bound, init, id);
      var initSources := set a | a in init :: a.u;
      assert sources == initSources + {last.u} by {
        assert q == init + [last];
      }
      PrecedencePrunedStep(g, L, av, initSources, id, bound[id], last.u);
    }
  }

  /** Revising one more source w against `s` extends the precedence pass
      to w. */
  lemma PrecedencePrunedStep(g: ConstraintGraph, L: Layout, av: seq<bool>, sources: set<nat>, id: nat, s: Slice, w: nat)
    requires Compatible(g, L, av) && id < g.n && w < g.n
    ensures ReviseAgainst(g, L, PrecedencePruned(g, L, av, sources, id, s), w, id, s) ==
            PrecedencePruned(g, L, av, sources + {w}, id, s)
  {
    var mid := PrecedencePruned(g, L, av, sources, id, s);
    var r := ReviseAgainst(g, L, mid, w, id, s);
    var p := PrecedencePruned(g, L, av, sources + {w}, id, s);
    forall k | 0 <= k < |av| ensures r[k] == p[k] {
      var t := Owner(L, k);
      var i := k - L.bounds[t];
      assert Avail(r, L, t, i) == r[k] && Avail(p, L, t, i) == p[k] && Avail(mid, L, t, i) == mid[k];
      if t != w {
        BlocksDisjoint(L, t, w, k);
      }
    }
  }

  /** The slots of t that overlap `s`. */
  function OverlapSlots(L: Layout, s: Slice, t: nat): set<nat>
    requires LayoutOk(L) && t < Count(L)
  {
    set j: nat | j < Size(L, t) && IsOverlap(s, SlotOf(L, t, j))
  }

  /** The flags after clearing every slot of a task in `tasks` that
      overlaps `s`. */
  ghost function Pruned(L: Layout, av: seq<bool>, tasks: set<nat>, s: Slice): (r: seq<bool>)
    requires Fits(L, av)
    ensures |r| == |av| && Fits(L, r)
    ensures forall k :: 0 <= k < |r| && r[k] ==> av[k]
    ensures forall t, i :: 0 <= t < Count(L) && 0 <= i < Size(L, t) ==>
      Avail(r, L, t, i) == (Avail(av, L, t, i) && !(t in tasks && IsOverlap(s, SlotOf(L, t, i))))
  {
    var r := seq(|av|, k requires 0 <= k < |av| =>
                  av[k] && !(Owner(L, k) in tasks && IsOverlap(s, L.slices[k])));
    forall t, i | 0 <= t < Count(L) && 0 <= i < Size(L, t)
      ensures Avail(r, L, t, i) == (Avail(av, L, t, i) && !(t in tasks && IsOverlap(s, SlotOf(L, t, i))))
    {
      assert InBlock(L, t, L.bounds[t] + i);
    }
    r
  }

  lemma PrunedNone(L: Layout, av: seq<bool>, s: Slice)
    requires Fits(L, av)
    ensures Pruned(L, av, {}, s) == av
  {
    FlagsEqual(L, Pruned(L, av, {}, s), av);
  }

  /** Pruning one more task t is the slot-by-slot pass over t that clears
      the slots overlapping `s`. */
  lemma PrunedAdd(L: Layout, av: seq<bool>, tasks: set<nat>, t: nat, s: Slice)
    requires Fits(L, av) && t < Count(L) && t !in tasks
    ensures Pruned(L, av, tasks + {t}, s) ==
            ClearedPrefix(L, Pruned(L, av, tasks, s), t, OverlapSlots(L, s, t), Size(L, t))
  {
    FlagsEqual(L, Pruned(L, av, tasks + {t}, s),
               ClearedPrefix(L, Pruned(L, av, tasks, s), t, OverlapSlots(L, s, t), Size(L, t)));
  }

  /** The tasks other than id not yet visited. */
  function UnvisitedOthers(L: Layout, visited: seq<bool>, id: nat): set<nat>
    requires |L.bounds| >= 1 && |visited| == Count(L)
  {
    set t: nat | t < Count(L) && t != id && !visited[t]
  }

  /** The flags after the overlap pass for a task `id` bound to `s`: every
      available slot of an unvisited task other than id that overlaps `s` is
      cleared. */
  ghost function OverlapPruned(L: Layout, av: seq<bool>, visited: seq<bool>, id: nat, s: Slice): (r: seq<bool>)
    requires Fits(L, av) && |visited| == Count(L)
    ensures |r| == |av| && Fits(L, r)
    ensures forall k :: 0 <= k < |r| && r[k] ==> av[k]
    ensures forall t, i :: 0 <= t < Count(L) && 0 <= i < Size(L, t) ==>
      Avail(r, L, t, i) == (Avail(av, L, t, i) && !(t != id && !visited[t] && IsOverlap(s, SlotOf(L, t, i))))
  {
    Pruned(L, av, UnvisitedOthers(L, visited, id), s)
  }

  /** What holds after the overlap pass has looked at tasks 0..i-1: the
      flags are pruned for the unvisited ones other than id, and the record
      holds, for each of those, exactly what it lost. */
  ghost predicate OverlapProgress(L: Layout, before: seq<bool>, av: seq<bool>, visited: seq<bool>,
                                  id: nat, s: Slice, i: nat, changes: map<nat, set<nat>>)
    requires Fits(L, before) && Fits(L, av) && |visited| == Count(L) && i <= Count(L)
  {
    && av == Pruned(L, before, (set t: nat | t < i && t != id && !visited[t]), s)
    && (forall t: nat :: t in changes <==> t < i && t != id && !visited[t])
    && (forall t :: t in changes ==> t < Count(L) && changes[t] == Cleared(L, before, av, t))
  }

  /** Task i is skipped when it is id or visited. */
  lemma OverlapSkip(L: Layout, before: seq<bool>, av: seq<bool>, visited: seq<bool>,
                    id: nat, s: Slice, i: nat, changes: map<nat, set<nat>>)
    requires Fits(L, before) && Fits(L, av) && |visited| == Count(L) && i < Count(L)
    requires i == id || visited[i]
    requires OverlapProgress(L, before, av, visited, id, s, i, changes)
    ensures OverlapProgress(L, before, av, visited, id, s, i + 1, changes)
  {
    assert (set t: nat | t < i + 1 && t != id && !visited[t]) == (set t: nat | t < i && t != id && !visited[t]);
  }

  /** Task i is pruned slot by slot, and what it lost is recorded. */
  lemma OverlapRound(L: Layout, before: seq<bool>, mid: seq<bool>, after: seq<bool>, visited: seq<bool>,
                     id: nat, s: Slice, i: nat, changes: map<nat, set<nat>>, ds: set<nat>)
    requires Fits(L, before) && Fits(L, mid) && |visited| == Count(L) && i < Count(L)
    requires i != id && !visited[i]
    requires OverlapProgress(L, before, mid, visited, id, s, i, changes)
    requires after == ClearedPrefix(L, mid, i, OverlapSlots(L, s, i), Size(L, i))
    requires ds == Cleared(L, mid, after, i)
    ensures OverlapProgress(L, before, after, visited, id, s, i + 1, changes[i := ds])
  {
    var done := set t: nat | t < i && t != id && !visited[t];
    PrunedAdd(L, before, done, i, s);
    assert (set t: nat | t < i + 1 && t != id && !visited[t]) == done + {i};
    OneTaskPass(L, before, mid, after, i);
    assert forall j :: 0 <= j < Size(L, i) ==> Avail(mid, L, i, j) == Avail(before, L, i, j);
    assert Cleared(L, before, mid, i) == {};
  }

  /** The tasks the precedence pass looks at after binding id: its
      unvisited neighbours. */
  function UnvisitedNeighbours(g: ConstraintGraph, visited: seq<bool>, id: nat): set<nat>
    requires Shaped(g) && id < g.n
  {
    set w | w in g.adj[id] && w < |visited| && !visited[w]
  }

  /** Checking the arcs from every unvisited neighbour of id towards id
      is the precedence pass over those neighbours. */
  lemma RelatedArcsPruned(g: ConstraintGraph, L: Layout, av: seq<bool>, bound: map<nat, Slice>,
                          q: seq<Arc>, visited: seq<bool>, id: nat)
    requires Compatible(g, L, av) && |visited| == g.n && id < g.n && id in bound
    requires forall a :: a in q <==> a.v == id && a.u in g.adj[id] && a.u < g.n && !visited[a.u]
    ensures DirectedChecked(g, L, av, bound, q) == PrecedencePruned(g, L, av, UnvisitedNeighbours(g, visited, id), id, bound[id])
  {
    DirectedCheckedIsPruned(g, L, av, bound, q, id);
    forall w | w in UnvisitedNeighbours(g, visited, id) ensures w in set a | a in q :: a.u {
      assert Arc(w, id) in q;
    }
  }

  /** The flags forward checking leaves after binding `id` to `s`. */
  ghost function ForwardChecked(g: ConstraintGraph, L: Layout, av: seq<bool>, visited: seq<bool>, id: nat, s: Slice): (r: seq<bool>)
    requires Compatible(g, L, av) && |visited| == g.n && id < g.n
    ensures Compatible(g, L, r)
  {
    OverlapPruned(L, PrecedencePruned(g, L, av, UnvisitedNeighbours(g, visited, id), id, s), visited, id, s)
  }

  /** Forward checking only clears flags, and only of unvisited tasks other
      than id; every slot it keeps satisfies both passes. */
  lemma ForwardCheckedEffect(g: ConstraintGraph, L: Layout, av: seq<bool>, visited: seq<bool>, id: nat, s: Slice, t: nat, i: nat)
    requires Compatible(g, L, av) && GraphOk(g) && |visited| == g.n && id < g.n
    requires t < g.n && i < Size(L, t)
    ensures Avail(ForwardChecked(g, L, av, visited, id, s), L, t, i) ==> Avail(av, L, t, i)
    ensures (t == id || visited[t]) ==>
      Avail(ForwardChecked(g, L, av, visited, id, s), L, t, i) == Avail(av, L, t, i)
    ensures t != id && !visited[t] && Avail(ForwardChecked(g, L, av, visited, id, s), L, t, i) ==>
      !IsOverlap(s, SlotOf(L, t, i)) && (t in g.adj[id] ==> Supports(g, t, id, SlotOf(L, t, i), s))
  {
    assert forall k :: 0 <= k < |g.adj[id]| ==> g.adj[id][k] != id;
    assert id !in g.adj[id];
  }

  /** The record `updateRelatedDomainMark` returns: the union of the
      precedence pass's exact record and the overlap pass's record holds,
      for every unvisited task other than id, exactly what it lost in the
      two passes; no other task lost anything. */
  lemma ForwardRecord(g: ConstraintGraph, L: Layout, before: seq<bool>, mid: seq<bool>, after: seq<bool>,
                      visited: seq<bool>, id: nat, s: Slice,
                      m1: map<nat, set<nat>>, m2: map<nat, set<nat>>, r: map<nat, set<nat>>)
    requires GraphOk(g) && Compatible(g, L, before) && |visited| == g.n && id < g.n
    requires mid == PrecedencePruned(g, L, before, UnvisitedNeighbours(g, visited, id), id, s)
    requires after == OverlapPruned(L, mid, visited, id, s)
    requires RecordsSome(L, before, mid, m1)
    requires forall t :: t in m1 ==> t < g.n && m1[t] == Cleared(L, before, mid, t)
    requires forall t: nat :: t in m2 <==> t < g.n && t != id && !visited[t]
    requires forall t :: t in m2 ==> t < g.n && m2[t] == Cleared(L, mid, after, t)
    requires forall t: nat :: t in r <==> t < g.n && (t in m1 || t in m2)
    requires forall t :: t in r ==> r[t] == (if t in m1 then m1[t] else {}) + (if t in m2 then m2[t] else {})
    ensures after == ForwardChecked(g, L, before, visited, id, s)
    ensures forall t: nat :: t in r <==> t < g.n && t != id && !visited[t]
    ensures forall t :: t in r ==> t < g.n && r[t] == Cleared(L, before, after, t)
    ensures forall t :: 0 <= t < g.n && t !in r ==> Cleared(L, before, after, t) == {}
  {
    forall t: nat | t < g.n
      ensures t in r <==> t != id && !visited[t]
      ensures t in r ==> r[t] == Cleared(L, before, after, t)
      ensures t !in r ==> Cleared(L, before, after, t) == {}
    {
      ForwardEntry(g, L, before, mid, after, visited, id, s, m1, m2, r, t);
    }
  }

  /** `ForwardRecord` for one task t. */
  lemma ForwardEntry(g: ConstraintGraph, L: Layout, before: seq<bool>, mid: seq<bool>, after: seq<bool>,
                     visited: seq<bool>, id: nat, s: Slice,
                     m1: map<nat, set<nat>>, m2: map<nat, set<nat>>, r: map<nat, set<nat>>, t: nat)
    requires GraphOk(g) && Compatible(g, L, before) && |visited| == g.n && id < g.n && t < g.n
    requires mid == PrecedencePruned(g, L, before, UnvisitedNeighbours(g, visited, id), id, s)
    requires after == OverlapPruned(L, mid, visited, id, s)
    requires RecordsSome(L, before, mid, m1)
    requires t in m1 ==> m1[t] == Cleared(L, before, mid, t)
    requires t in m2 <==> t != id && !visited[t]
    requires t in m2 ==> m2[t] == Cleared(L, mid, after, t)
    requires t in r <==> t in m1 || t in m2
    requires t in r ==> r[t] == (if t in m1 then m1[t] else {}) + (if t in m2 then m2[t] else {})
    ensures t in r <==> t != id && !visited[t]
    ensures t in r ==> r[t] == Cleared(L, before, after, t)
    ensures t !in r ==> Cleared(L, before, after, t) == {}
  {
    ForwardTaskLoss(g, L, before, mid, after, visited, id, s, t);
  }

  /** What one task loses to forward checking is what it loses to the
      precedence pass plus what it then loses to the overlap pass; only an
      unvisited neighbour of id loses anything to the first, and neither id
      nor a visited task loses anything to the second. */
  lemma ForwardTaskLoss(g: ConstraintGraph, L: Layout, before: seq<bool>, mid: seq<bool>, after: seq<bool>,
                        visited: seq<bool>, id: nat, s: Slice, t: nat)
    requires GraphOk(g) && Compatible(g, L, before) && |visited| == g.n && id < g.n && t < g.n
    requires mid == PrecedencePruned(g, L, before, UnvisitedNeighbours(g, visited, id), id, s)
    requires after == OverlapPruned(L, mid, visited, id, s)
    ensures Cleared(L, before, after, t) == Cleared(L, before, mid, t) + Cleared(L, mid, after, t)
    ensures Cleared(L, before, mid, t) != {} ==> t != id && !visited[t]
    ensures (t == id || visited[t]) ==> Cleared(L, mid, after, t) == {}
  {
    ClearedCompose(L, before, mid, after, t);
    if t !in UnvisitedNeighbours(g, visited, id) {
      assert forall j :: 0 <= j < Size(L, t) ==> Avail(mid, L, t, j) == Avail(before, L, t, j);
    } else {
      assert t in g.adj[id];
    }
    if t == id || visited[t] {
      assert forall j :: 0 <= j < Size(L, t) ==> Avail(after, L, t, j) == Avail(mid, L, t, j);
    }
  }

  // ---------------------------------------------------------------------
  // Undo (repealDomainMarkUpdate)

  /** The flags after setting back to available every index recorded in
      `changes` (task id -> slot indices). */
  ghost function Repealed(L: Layout, av: seq<bool>, changes: map<nat, set<nat>>): (r: seq<bool>)
    requires Fits(L, av)
    ensures |r| == |av| && Fits(L, r)
    ensures forall t, i :: 0 <= t < Count(L) && 0 <= i < Size(L, t) ==>
      Avail(r, L, t, i) == (Avail(av, L, t, i) || (t in changes && i in changes[t]))
  {
    var r := seq(|av|, k requires 0 <= k < |av| =>
                  av[k] || (Owner(L, k) in changes && k - L.bounds[Owner(L, k)] in changes[Owner(L, k)]));
    forall t, i | 0 <= t < Count(L) && 0 <= i < Size(L, t)
      ensures Avail(r, L, t, i) == (Avail(av, L, t, i) || (t in changes && i in changes[t]))
    {
      assert InBlock(L, t, L.bounds[t] + i);
    }
    r
  }

  /** Undo after do is the identity: if `changes` records, for every task,
      exactly the indices whose flag went from true to false between
      `before` and `after` (and a task with no entry had none), setting
      those indices back gives `before`. */
  lemma RepealRestores(L: Layout, before: seq<bool>, after: seq<bool>, changes: map<nat, set<nat>>)
    requires Fits(L, before) && Fits(L, after)
    requires forall k :: 0 <= k < |after| && after[k] ==> before[k]
    requires forall t :: 0 <= t < Count(L) && t in changes ==> changes[t] == Cleared(L, before, after, t)
    requires forall t :: 0 <= t < Count(L) && t !in changes ==> Cleared(L, before, after, t) == {}
    ensures Repealed(L, after, changes) == before
  {
    var r := Repealed(L, after, changes);
    forall k | 0 <= k < |before| ensures r[k] == before[k] {
      var t := Owner(L, k);
      var i: nat := k - L.bounds[t];
      assert Avail(r, L, t, i) == r[k];
      if before[k] && !after[k] {
        assert i in Cleared(L, before, after, t);
      }
    }
  }

  // ---------------------------------------------------------------------
  // Exclusion of fixed tasks' slots (markOverlappingDomain)

  /** The single slot of fixed task f. */
  function FixedSlot(L: Layout, f: nat): Slice
    requires LayoutOk(L) && f < Count(L) && Size(L, f) >= 1
  {
    SlotOf(L, f, 0)
  }

  /** Slice `s` overlaps the slot of some fixed task in `fixed`. */
  ghost predicate OverlapsFixed(L: Layout, fixed: set<nat>, s: Slice)
    requires LayoutOk(L)
  {
    exists f :: f in fixed && f < Count(L) && Size(L, f) >= 1 && IsOverlap(FixedSlot(L, f), s)
  }

  /** The flags after marking unavailable every slot of a flexible task that
      overlaps the slot of a fixed task. */
  ghost function ExcludeFixed(L: Layout, av: seq<bool>, fixed: set<nat>, flexible: set<nat>): (r: seq<bool>)
    requires Fits(L, av)
    ensures |r| == |av| && Fits(L, r)
    ensures forall t, i :: 0 <= t < Count(L) && 0 <= i < Size(L, t) ==>
      Avail(r, L, t, i) == (Avail(av, L, t, i) && !(t in flexible && OverlapsFixed(L, fixed, SlotOf(L, t, i))))
  {
    var r := seq(|av|, k requires 0 <= k < |av| =>
                  av[k] && !(Owner(L, k) in flexible && OverlapsFixed(L, fixed, L.slices[k])));
    forall t, i | 0 <= t < Count(L) && 0 <= i < Size(L, t)
      ensures Avail(r, L, t, i) == (Avail(av, L, t, i) && !(t in flexible && OverlapsFixed(L, fixed, SlotOf(L, t, i))))
    {
      assert InBlock(L, t, L.bounds[t] + i);
    }
    r
  }

  lemma ExcludeFixedNone(L: Layout, av: seq<bool>, flexible: set<nat>)
    requires Fits(L, av)
    ensures ExcludeFixed(L, av, {}, flexible) == av
  {
    FlagsEqual(L, ExcludeFixed(L, av, {}, flexible), av);
  }

  /** Excluding the slot of one more fixed task f is pruning the flexible
      tasks against f's slot. */
  lemma ExcludeFixedAdd(L: Layout, av: seq<bool>, fixed: set<nat>, f: nat, flexible: set<nat>)
    requires Fits(L, av) && f < Count(L) && Size(L, f) >= 1
    ensures ExcludeFixed(L, av, fixed + {f}, flexible) ==
            Pruned(L, ExcludeFixed(L, av, fixed, flexible), flexible, FixedSlot(L, f))
  {
    var a := ExcludeFixed(L, av, fixed + {f}, flexible);
    var b := Pruned(L, ExcludeFixed(L, av, fixed, flexible), flexible, FixedSlot(L, f));
    forall t, i | 0 <= t < Count(L) && 0 <= i < Size(L, t) ensures Avail(a, L, t, i) == Avail(b, L, t, i) {
      var x := SlotOf(L, t, i);
      if OverlapsFixed(L, fixed + {f}, x) && !IsOverlap(FixedSlot(L, f), x) {
        var f' :| f' in fixed + {f} && f' < Count(L) && Size(L, f') >= 1 && IsOverlap(FixedSlot(L, f'), x);
        assert OverlapsFixed(L, fixed, x);
      }
      if OverlapsFixed(L, fixed, x) {
        var f' :| f' in fixed && f' < Count(L) && Size(L, f') >= 1 && IsOverlap(FixedSlot(L, f'), x);
        assert f' in fixed + {f};
      }
    }
    FlagsEqual(L, a, b);
  }

  // ---------------------------------------------------------------------
  // Undo, one index at a time

  lemma RepealedEmptyEntry(L: Layout, av: seq<bool>, changes: map<nat, set<nat>>, t: nat)
    requires Fits(L, av) && t !in changes
    ensures Repealed(L, av, changes[t := {}]) == Repealed(L, av, changes)
  {
    FlagsEqual(L, Repealed(L, av, changes[t := {}]), Repealed(L, av, changes));
  }

  lemma RepealedNone(L: Layout, av: seq<bool>)
    requires Fits(L, av)
    ensures Repealed(L, av, map[]) == av
  {
    FlagsEqual(L, Repealed(L, av, map[]), av);
  }

  /** Undoing a record entry by entry: the entry of a task t not yet
      undone can be undone on its own afterwards. */
  lemma RepealedCompose(L: Layout, av: seq<bool>, done: map<nat, set<nat>>, t: nat, indices: set<nat>)
    requires Fits(L, av) && t !in done
    ensures Repealed(L, Repealed(L, av, done), map[t := indices]) == Repealed(L, av, done[t := indices])
  {
    FlagsEqual(L, Repealed(L, Repealed(L, av, done), map[t := indices]), Repealed(L, av, done[t := indices]));
  }

  /** Recording index i of task t among the changes to undo sets slot i
      of t back. */
  lemma RepealedAddIndex(L: Layout, av: seq<bool>, changes: map<nat, set<nat>>, t: nat, i: nat)
    requires Fits(L, av) && t in changes && t < Count(L) && i < Size(L, t)
    ensures Repealed(L, av, changes[t := changes[t] + {i}]) == Repealed(L, av, changes)[L.bounds[t] + i := true]
  {
    var a := Repealed(L, av, changes[t := changes[t] + {i}]);
    var b := Repealed(L, av, changes)[L.bounds[t] + i := true];
    forall t', j | 0 <= t' < Count(L) && 0 <= j < Size(L, t') ensures Avail(a, L, t', j) == Avail(b, L, t', j) {
      RepealedAddIndexAt(L, av, changes, t, i, t', j);
    }
    FlagsEqual(L, a, b);
  }

  /** RepealedAddIndex, slot by slot. */
  lemma RepealedAddIndexAt(L: Layout, av: seq<bool>, changes: map<nat, set<nat>>, t: nat, i: nat, t': nat, j: nat)
    requires Fits(L, av) && t in changes && t < Count(L) && i < Size(L, t)
    requires t' < Count(L) && j < Size(L, t')
    ensures Avail(Repealed(L, av, changes[t := changes[t] + {i}]), L, t', j)
         == Avail(Repealed(L, av, changes)[L.bounds[t] + i := true], L, t', j)
  {
    if t' != t {
      BlocksDisjoint(L, t', t, L.bounds[t'] + j);
    }
  }

  /** Undoing one more slot of a single task. */
  lemma RepealedOneMore(L: Layout, av: seq<bool>, t: nat, done: set<nat>, i: nat)
    requires Fits(L, av) && t < Count(L) && i < Size(L, t)
    ensures Repealed(L, av, map[t := done + {i}]) == Repealed(L, av, map[t := done])[L.bounds[t] + i := true]
  {
    RepealedAddIndex(L, av, map[t := done], t, i);
    assert map[t := done][t := done + {i}] == map[t := done + {i}];
  }

  /** Two flag tables that agree slot by slot are equal. */
  lemma FlagsEqual(L: Layout, a: seq<bool>, b: seq<bool>)
    requires Fits(L, a) && Fits(L, b)
    requires forall t, i :: 0 <= t < Count(L) && 0 <= i < Size(L, t) ==> Avail(a, L, t, i) == Avail(b, L, t, i)
    ensures a == b
  {
    forall k | 0 <= k < |a| ensures a[k] == b[k] {
      var t := Owner(L, k);
      assert Avail(a, L, t, k - L.bounds[t]) == Avail(b, L, t, k - L.bounds[t]);
    }
  }
}
