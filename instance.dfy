/** The problem the solver is given and the facts its backtracking search
    keeps (app/src/main/java/com/algorithm/CSP_Solver.java:407-463). The
    `CSP` class is not part of this model: a problem is the value below,
    whose fields stand for what the solver reads from it. */
module Instance {
  import opened Clock
  import opened Slices
  import opened Assignments
  import opened Graph
  import opened Domains
  import opened Seqs

  datatype Option<T> = None | Some(value: T)

  /** `fixedSlice[f]` is the one slot of fixed task f; `topoOrder` is the
      result of `GetTopologicalSort` (None when the graph has a cycle);
      `domains[k]` is the domain table `initializeDomainSet` builds for the
      k-th granularity step. */
  datatype Csp = Csp(
    graph: ConstraintGraph,
    fixedIds: set<nat>,
    flexibleIds: set<nat>,
    fixedSlice: map<nat, Slice>,
    overTime: bool,
    constraintsConflict: bool,
    topoOrder: Option<seq<nat>>,
    domains: seq<Layout>)

  /** The granularities tried by `getSolutions`, coarsest first: 1 h, 30,
      15, 10, 5 and 1 minute. */
  function StepLadder(): (r: seq<Time>)
    ensures |r| == 6
    ensures forall k :: 0 <= k < |r| ==> IsClockValue(r[k]) && Total(r[k]) > 0
    ensures forall k :: 0 <= k < |r| - 1 ==> Total(r[k + 1]) < Total(r[k])
  {
    [NewTime(1, 0), NewTime(0, 30), NewTime(0, 15), NewTime(0, 10), NewTime(0, 5), NewTime(0, 1)]
  }

  /** Every fixed task has a domain of one slot: its fixed slice. */
  ghost predicate FixedDomainsOk(p: Csp, L: Layout)
    requires LayoutOk(L)
  {
    forall f :: f in p.fixedIds ==>
      f < Count(L) && Size(L, f) == 1 && f in p.fixedSlice && FixedSlot(L, f) == p.fixedSlice[f]
  }

  /** What the solver assumes of the problem it is given. */
  ghost predicate ProblemOk(p: Csp) {
    && GraphOk(p.graph)
    && (forall f :: f in p.fixedIds ==> f < p.graph.n)
    && (forall f :: f in p.flexibleIds ==> f < p.graph.n)
    && p.fixedSlice.Keys == p.fixedIds
    && (p.topoOrder.Some? ==> IsPermutation(p.topoOrder.value, p.graph.n))
    && |p.domains| == |StepLadder()|
    && (forall k :: 0 <= k < |p.domains| ==>
          LayoutOk(p.domains[k]) && Count(p.domains[k]) == p.graph.n && FixedDomainsOk(p, p.domains[k]))
  }

  /** Two different fixed tasks whose slices overlap. */
  ghost predicate FixedOverlap(p: Csp) {
    exists f1, f2 :: f1 in p.fixedIds && f2 in p.fixedIds && f1 != f2 &&
      f1 in p.fixedSlice && f2 in p.fixedSlice && IsOverlap(p.fixedSlice[f1], p.fixedSlice[f2])
  }

  /** A list holding every fixed task once. */
  ghost predicate ListsFixed(p: Csp, ids: seq<nat>) {
    Distinct(ids) && (forall x :: x in ids <==> x in p.fixedIds) && p.fixedSlice.Keys == p.fixedIds
  }

  /** An overlapping adjacent pair in such a list is an overlap between two
      fixed tasks. */
  lemma AdjacentOverlapFound(p: Csp, ids: seq<nat>, i: nat)
    requires ListsFixed(p, ids) && i + 1 < |ids|
    requires IsOverlap(p.fixedSlice[ids[i]], p.fixedSlice[ids[i + 1]])
    ensures FixedOverlap(p)
  {
    assert ids[i] in ids && ids[i + 1] in ids;
  }

  /** Fixed slices that are not empty, listed by start time with no
      overlapping adjacent pair, contain no overlapping pair at all. */
  lemma NoAdjacentOverlapNone(p: Csp, ids: seq<nat>)
    requires ListsFixed(p, ids) && SortedByStart(ids, p.fixedSlice)
    requires forall f :: f in p.fixedIds ==> Proper(p.fixedSlice[f])
    requires forall k :: 0 <= k < |ids| - 1 ==> !IsOverlap(p.fixedSlice[ids[k]], p.fixedSlice[ids[k + 1]])
    ensures !FixedOverlap(p)
  {
    var fs := p.fixedSlice;
    forall i, j | 0 <= i < |ids| && 0 <= j < |ids| && i != j ensures !IsOverlap(fs[ids[i]], fs[ids[j]]) {
      assert ids[i] in ids && ids[j] in ids;
      if i < j {
        AdjacentCheckComplete(ids, fs, i, j);
      } else {
        AdjacentCheckComplete(ids, fs, j, i);
        OverlapSymmetric(fs[ids[i]], fs[ids[j]]);
      }
    }
    forall f1, f2 | f1 in p.fixedIds && f2 in p.fixedIds && f1 != f2 ensures !IsOverlap(fs[f1], fs[f2]) {
      var i :| 0 <= i < |ids| && ids[i] == f1;
      var j :| 0 <= j < |ids| && ids[j] == f2;
    }
  }

  /** A set of at most one fixed task has no overlapping pair. */
  lemma FewFixedNoOverlap(p: Csp)
    requires |p.fixedIds| <= 1
    ensures !FixedOverlap(p)
  {
    if FixedOverlap(p) {
      var f1, f2 :| f1 in p.fixedIds && f2 in p.fixedIds && f1 != f2 &&
        f1 in p.fixedSlice && f2 in p.fixedSlice && IsOverlap(p.fixedSlice[f1], p.fixedSlice[f2]);
      TwoMembers(p.fixedIds, f1, f2);
    }
  }

  /** Sorting such a list by start time gives such a list. */
  lemma SortedListsFixed(p: Csp, ids: seq<nat>)
    requires ListsFixed(p, ids)
    ensures ListsFixed(p, SortByStart(ids, p.fixedSlice))
  {
    var sorted := SortByStart(ids, p.fixedSlice);
    PermutationKeepsDistinct(ids, sorted);
    forall x ensures x in sorted <==> x in ids {
      assert x in multiset(sorted) <==> x in multiset(ids);
    }
  }

  /** The problem-level checks `getSolutions` makes before searching, other
      than the fixed-overlap check. */
  predicate Rejected(p: Csp) {
    || |p.fixedIds| + |p.flexibleIds| != p.graph.n
    || p.overTime
    || p.graph.n == 0
    || p.constraintsConflict
    || p.topoOrder.None?
  }

  /** A stored solution: task k at position k, no two slices overlapping,
      every precedence edge respected, every fixed task at its fixed slice. */
  ghost predicate IsSolution(p: Csp, s: seq<Assignment>)
    requires Shaped(p.graph)
  {
    && |s| == p.graph.n
    && (forall k :: 0 <= k < |s| ==> s[k].taskId == k)
    && (forall a, b :: 0 <= a < |s| && 0 <= b < |s| && a != b ==> !IsOverlap(s[a].slice, s[b].slice))
    && (forall a, b :: 0 <= a < |s| && 0 <= b < |s| && Precedes(p.graph, a, b) ==> IsBefore(s[a].slice, s[b].slice))
    && (forall f :: f in p.fixedIds && f < |s| ==> f in p.fixedSlice && s[f].slice == p.fixedSlice[f])
  }

  /** The stored solutions are solutions and no two of them are equal. */
  ghost predicate SolutionsOk(p: Csp, sols: seq<seq<Assignment>>)
    requires Shaped(p.graph)
  {
    && (forall k :: 0 <= k < |sols| ==> IsSolution(p, sols[k]))
    && (forall i, j :: 0 <= i < j < |sols| ==> sols[i] != sols[j])
  }

  /** The bound slices among themselves: `bound` (the assigned map) holds
      exactly the visited tasks; bound slices neither overlap nor break a
      precedence edge; bound fixed tasks sit at their fixed slice. */
  ghost predicate BoundOk(p: Csp, vis: seq<bool>, bound: map<nat, Slice>)
    requires Shaped(p.graph) && |vis| == p.graph.n
  {
    var g := p.graph;
    && (forall t :: 0 <= t < g.n ==> (vis[t] <==> t in bound))
    && BoundApart(g, vis, bound)
    && BoundOrdered(g, vis, bound)
    && (forall f :: f in p.fixedIds && f < g.n && vis[f] ==> f in p.fixedSlice && bound[f] == p.fixedSlice[f])
  }

  /** No two bound tasks overlap. */
  ghost predicate BoundApart(g: ConstraintGraph, vis: seq<bool>, bound: map<nat, Slice>)
    requires |vis| == g.n && (forall t :: 0 <= t < g.n ==> (vis[t] <==> t in bound))
  {
    forall a, b :: 0 <= a < g.n && 0 <= b < g.n && a != b && vis[a] && vis[b] ==>
      !IsOverlap(bound[a], bound[b])
  }

  /** Every precedence constraint between bound tasks holds. */
  ghost predicate BoundOrdered(g: ConstraintGraph, vis: seq<bool>, bound: map<nat, Slice>)
    requires Shaped(g) && |vis| == g.n && (forall t :: 0 <= t < g.n ==> (vis[t] <==> t in bound))
  {
    forall a, b :: 0 <= a < g.n && 0 <= b < g.n && vis[a] && vis[b] && Precedes(g, a, b) ==>
      IsBefore(bound[a], bound[b])
  }

  /** The domains of unvisited tasks against the bound slices: no available
      slot overlaps a bound slice, and every available slot of an unvisited
      neighbour of a bound task passes the precedence test against it. */
  ghost predicate DomainsRespectBound(g: ConstraintGraph, L: Layout, av: seq<bool>, vis: seq<bool>, bound: map<nat, Slice>)
    requires Compatible(g, L, av) && |vis| == g.n
  {
    && (forall a, t, i ::
          0 <= a < g.n && 0 <= t < g.n && 0 <= i < Size(L, t) && vis[a] && !vis[t] && a in bound && Avail(av, L, t, i)
          ==> !IsOverlap(bound[a], SlotOf(L, t, i)))
    && (forall a, t, i ::
          0 <= a < g.n && 0 <= t < g.n && 0 <= i < Size(L, t) && vis[a] && !vis[t] && a in bound &&
          t in g.adj[a] && Avail(av, L, t, i)
          ==> Supports(g, t, a, SlotOf(L, t, i), bound[a]))
  }

  /** What holds at every call of `searchSolutions`. */
  ghost predicate Consistent(p: Csp, L: Layout, av: seq<bool>, vis: seq<bool>, bound: map<nat, Slice>)
    requires Compatible(p.graph, L, av) && |vis| == p.graph.n
  {
    BoundOk(p, vis, bound) && DomainsRespectBound(p.graph, L, av, vis, bound)
  }

  /** Binding an unvisited task to one of its available slots keeps the
      bound slices consistent among themselves. */
  lemma BindKeepsBound(p: Csp, L: Layout, av: seq<bool>, vis: seq<bool>, bound: map<nat, Slice>, id: nat, i: nat)
    requires GraphOk(p.graph) && Compatible(p.graph, L, av) && |vis| == p.graph.n
    requires FixedDomainsOk(p, L)
    requires BoundOk(p, vis, bound) && DomainsRespectBound(p.graph, L, av, vis, bound)
    requires id < p.graph.n && !vis[id] && i < Size(L, id) && Avail(av, L, id, i)
    ensures BoundOk(p, vis[id := true], bound[id := SlotOf(L, id, i)])
  {
    BindKeepsApart(p, L, av, vis, bound, id, i);
    BindKeepsOrdered(p, L, av, vis, bound, id, i);
    if id in p.fixedIds {
      assert i == 0;
    }
  }

  /** BindKeepsBound, overlap half: the new slice overlaps no bound slice. */
  lemma BindKeepsApart(p: Csp, L: Layout, av: seq<bool>, vis: seq<bool>, bound: map<nat, Slice>, id: nat, i: nat)
    requires GraphOk(p.graph) && Compatible(p.graph, L, av) && |vis| == p.graph.n
    requires BoundOk(p, vis, bound) && DomainsRespectBound(p.graph, L, av, vis, bound)
    requires id < p.graph.n && !vis[id] && i < Size(L, id) && Avail(av, L, id, i)
    ensures BoundApart(p.graph, vis[id := true], bound[id := SlotOf(L, id, i)])
  {
    var s := SlotOf(L, id, i);
    var vis2, bound2 := vis[id := true], bound[id := s];
    forall a, b | 0 <= a < p.graph.n && 0 <= b < p.graph.n && a != b && vis2[a] && vis2[b]
      ensures !IsOverlap(bound2[a], bound2[b])
    {
      if a == id {
        assert !IsOverlap(bound[b], s);
      } else if b == id {
        assert !IsOverlap(bound[a], s);
      }
    }
  }

  /** BindKeepsBound, precedence half: the new slice keeps every constraint
      with a bound neighbour. */
  lemma BindKeepsOrdered(p: Csp, L: Layout, av: seq<bool>, vis: seq<bool>, bound: map<nat, Slice>, id: nat, i: nat)
    requires GraphOk(p.graph) && Compatible(p.graph, L, av) && |vis| == p.graph.n
    requires BoundOk(p, vis, bound) && DomainsRespectBound(p.graph, L, av, vis, bound)
    requires id < p.graph.n && !vis[id] && i < Size(L, id) && Avail(av, L, id, i)
    ensures BoundOrdered(p.graph, vis[id := true], bound[id := SlotOf(L, id, i)])
  {
    var g := p.graph;
    var s := SlotOf(L, id, i);
    var vis2, bound2 := vis[id := true], bound[id := s];
    forall a, b | 0 <= a < g.n && 0 <= b < g.n && vis2[a] && vis2[b] && Precedes(g, a, b)
      ensures IsBefore(bound2[a], bound2[b])
    {
      if a == id {
        assert Supports(g, id, b, s, bound[b]);
      } else if b == id {
        assert Supports(g, id, a, s, bound[a]);
      }
    }
  }

  /** Clearing the chosen slot and forward checking after binding keeps the
      domains of unvisited tasks in line with the bound slices. */
  lemma BindKeepsDomains(g: ConstraintGraph, L: Layout, av: seq<bool>, vis: seq<bool>, bound: map<nat, Slice>, id: nat, i: nat)
    requires GraphOk(g) && Compatible(g, L, av) && |vis| == g.n
    requires DomainsRespectBound(g, L, av, vis, bound)
    requires id < g.n && !vis[id] && i < Size(L, id)
    ensures Compatible(g, L, av[L.bounds[id] + i := false])
    ensures DomainsRespectBound(g, L,
      ForwardChecked(g, L, av[L.bounds[id] + i := false], vis[id := true], id, SlotOf(L, id, i)),
      vis[id := true], bound[id := SlotOf(L, id, i)])
  {
    var s := SlotOf(L, id, i);
    var pos := L.bounds[id] + i;
    var av1 := av[pos := false];
    var vis2 := vis[id := true];
    var bound2 := bound[id := s];
    var av2 := ForwardChecked(g, L, av1, vis2, id, s);
    forall t, j | 0 <= t < g.n && 0 <= j < Size(L, t) && t != id
      ensures Avail(av1, L, t, j) == Avail(av, L, t, j)
    {
      BlocksDisjoint(L, t, id, L.bounds[t] + j);
    }
    forall a, t, j | 0 <= a < g.n && 0 <= t < g.n && 0 <= j < Size(L, t) && vis2[a] && !vis2[t] &&
        a in bound2 && Avail(av2, L, t, j)
      ensures !IsOverlap(bound2[a], SlotOf(L, t, j))
      ensures t in g.adj[a] ==> Supports(g, t, a, SlotOf(L, t, j), bound2[a])
    {
      ForwardCheckedEffect(g, L, av1, vis2, id, s, t, j);
    }
  }

  /** Binding an unvisited task to one of its available slots, clearing
      that slot and forward checking keeps the search invariant. */
  lemma BindKeepsConsistent(p: Csp, L: Layout, av: seq<bool>, vis: seq<bool>, bound: map<nat, Slice>, id: nat, i: nat)
    requires GraphOk(p.graph) && Compatible(p.graph, L, av) && |vis| == p.graph.n
    requires FixedDomainsOk(p, L)
    requires Consistent(p, L, av, vis, bound)
    requires id < p.graph.n && !vis[id] && i < Size(L, id) && Avail(av, L, id, i)
    ensures Compatible(p.graph, L, av[L.bounds[id] + i := false])
    ensures Consistent(p, L,
      ForwardChecked(p.graph, L, av[L.bounds[id] + i := false], vis[id := true], id, SlotOf(L, id, i)),
      vis[id := true], bound[id := SlotOf(L, id, i)])
  {
    BindKeepsBound(p, L, av, vis, bound, id, i);
    BindKeepsDomains(p.graph, L, av, vis, bound, id, i);
  }

  /** Recording the assignment of the task at position `count`: appended
      when the list is no longer than `count`, written over position
      `count` otherwise. */
  function Record(asg: seq<Assignment>, count: nat, x: Assignment): (r: seq<Assignment>)
    requires |asg| >= count
    ensures |r| == if |asg| <= count then count + 1 else |asg|
    ensures r[..count] == asg[..count] && r[count] == x
  {
    if |asg| <= count then asg + [x] else asg[count := x]
  }

  /** The search state on values: the first `count` tasks of the order are
      the visited ones, each bound and recorded at its position, and the
      search invariant holds. */
  ghost predicate SearchFacts(p: Csp, L: Layout, av: seq<bool>, vis: seq<bool>, order: seq<nat>, count: nat,
                              asg: seq<Assignment>, bound: map<nat, Slice>)
    requires Compatible(p.graph, L, av) && |vis| == p.graph.n
  {
    var n := p.graph.n;
    && IsPermutation(order, n) && count <= n
    && (forall k :: 0 <= k < n ==> (vis[order[k]] <==> k < count))
    && |asg| >= count
    && (forall k :: 0 <= k < count ==> order[k] in bound && asg[k] == Assignment(order[k], bound[order[k]]))
    && Consistent(p, L, av, vis, bound)
  }

  /** Binding the task at position `count` to its available slot i,
      clearing the slot, forward checking and recording the binding gives
      the search state for position `count + 1`. */
  lemma BindKeepsSearch(p: Csp, L: Layout, av: seq<bool>, vis: seq<bool>, order: seq<nat>, count: nat,
                        asg: seq<Assignment>, bound: map<nat, Slice>, i: nat, id: nat, pos: nat, s: Slice)
    requires GraphOk(p.graph) && Compatible(p.graph, L, av) && |vis| == p.graph.n && FixedDomainsOk(p, L)
    requires SearchFacts(p, L, av, vis, order, count, asg, bound) && count < p.graph.n
    requires id == order[count] && i < Size(L, id) && pos == L.bounds[id] + i && s == SlotOf(L, id, i)
    requires av[pos]
    ensures !vis[id] && id !in bound
    ensures Compatible(p.graph, L, av[pos := false])
    ensures SearchFacts(p, L, ForwardChecked(p.graph, L, av[pos := false], vis[id := true], id, s), vis[id := true],
                        order, count + 1, Record(asg, count, Assignment(id, s)), bound[id := s])
  {
    BindKeepsConsistent(p, L, av, vis, bound, id, i);
    VisitNext(order, vis, count);
    RecordNext(order, asg, bound, count, s);
  }

  /** Marking the task at position `count` of a traversal order visited
      extends the visited prefix by one. */
  lemma VisitNext(order: seq<nat>, vis: seq<bool>, count: nat)
    requires IsPermutation(order, |vis|) && count < |vis|
    requires forall k :: 0 <= k < |vis| ==> (vis[order[k]] <==> k < count)
    ensures forall k :: 0 <= k < |vis| ==> (vis[order[count] := true][order[k]] <==> k < count + 1)
  {
    var vis2 := vis[order[count] := true];
    forall k | 0 <= k < |vis| ensures vis2[order[k]] <==> k < count + 1 {
      if k != count {
        assert order[k] != order[count];
      }
    }
  }

  /** Recording the binding of the task at position `count` extends the
      recorded prefix by one. */
  lemma RecordNext(order: seq<nat>, asg: seq<Assignment>, bound: map<nat, Slice>, count: nat, s: Slice)
    requires IsPermutation(order, |order|) && count < |order| && |asg| >= count
    requires forall k :: 0 <= k < count ==> order[k] in bound && asg[k] == Assignment(order[k], bound[order[k]])
    ensures var asg2, bound2 := Record(asg, count, Assignment(order[count], s)), bound[order[count] := s];
      forall k :: 0 <= k < count + 1 ==> order[k] in bound2 && asg2[k] == Assignment(order[k], bound2[order[k]])
  {
    var id := order[count];
    var asg2 := Record(asg, count, Assignment(id, s));
    var bound2 := bound[id := s];
    forall k | 0 <= k < count + 1
      ensures order[k] in bound2 && asg2[k] == Assignment(order[k], bound2[order[k]])
    {
      if k < count {
        assert order[k] != id;
        assert asg2[k] == asg2[..count][k];
      }
    }
  }

  /** One iteration of the search loop leaves the flags as it found them:
      after clearing slot `pos` of task id and forward checking against the
      slice bound to id, setting `pos` back and repealing the recorded
      changes restores `av`. */
  lemma IterationRestores(g: ConstraintGraph, L: Layout, av: seq<bool>, vis: seq<bool>, id: nat, s: Slice,
                          pos: nat, ch: map<nat, set<nat>>)
    requires GraphOk(g) && Compatible(g, L, av) && |vis| == g.n && id < g.n && vis[id]
    requires pos < |av| && InBlock(L, id, pos) && av[pos]
    requires RecordsExactly(L, av[pos := false], ForwardChecked(g, L, av[pos := false], vis, id, s), ch)
    ensures Repealed(L, ForwardChecked(g, L, av[pos := false], vis, id, s)[pos := true], ch) == av
  {
    var av1 := av[pos := false];
    var av2 := ForwardChecked(g, L, av1, vis, id, s);
    forall k | 0 <= k < |av|
      ensures av2[k] ==> av1[k]
      ensures InBlock(L, id, k) ==> av2[k] == av1[k]
    {
      var t := Owner(L, k);
      ForwardCheckedEffect(g, L, av1, vis, id, s, t, k - L.bounds[t]);
    }
    PassRestores(g, L, av, av2, id, pos, ch);
  }

  /** Setting `pos` back and repealing the record of a pass that only
      cleared flags, and none of task id's, restores the flags from before
      `pos` was cleared. */
  lemma PassRestores(g: ConstraintGraph, L: Layout, av: seq<bool>, av2: seq<bool>, id: nat, pos: nat, ch: map<nat, set<nat>>)
    requires Compatible(g, L, av) && Compatible(g, L, av2) && id < g.n
    requires pos < |av| && InBlock(L, id, pos) && av[pos]
    requires forall k :: 0 <= k < |av| && av2[k] ==> av[pos := false][k]
    requires forall k :: 0 <= k < |av| && InBlock(L, id, k) ==> av2[k] == av[pos := false][k]
    requires forall t :: 0 <= t < g.n && t in ch ==> ch[t] == Cleared(L, av[pos := false], av2, t)
    requires forall t :: 0 <= t < g.n && t !in ch ==> Cleared(L, av[pos := false], av2, t) == {}
    ensures Repealed(L, av2[pos := true], ch) == av
  {
    var av1 := av[pos := false];
    var after := av2[pos := true];
    forall t | 0 <= t < g.n ensures Cleared(L, av, after, t) == Cleared(L, av1, av2, t) {
      forall j | 0 <= j < Size(L, t)
        ensures Avail(av, L, t, j) == Avail(av1, L, t, j) || t == id
        ensures Avail(after, L, t, j) == Avail(av2, L, t, j) || t == id
      {
        if t != id {
          BlocksDisjoint(L, t, id, L.bounds[t] + j);
        }
      }
      if t == id {
        forall j | 0 <= j < Size(L, t) ensures Avail(after, L, t, j) == Avail(av, L, t, j) {
          assert InBlock(L, id, L.bounds[id] + j);
        }
      }
    }
    RepealRestores(L, av, after, ch);
  }

  /** A complete assignment made under the search invariant, sorted by task
      id, is a solution. */
  lemma CompleteIsSolution(p: Csp, L: Layout, av: seq<bool>, vis: seq<bool>, order: seq<nat>,
                           asg: seq<Assignment>, bound: map<nat, Slice>)
    requires Compatible(p.graph, L, av) && |vis| == p.graph.n
    requires SearchFacts(p, L, av, vis, order, p.graph.n, asg, bound) && |asg| <= p.graph.n
    ensures IsSolution(p, SortById(asg))
  {
    var n := p.graph.n;
    assert BoundOk(p, vis, bound);
    AllVisited(order, vis);
    CanonicalIsById(asg, order, bound, n);
    BoundIsSolution(p, vis, bound, SortById(asg));
  }

  /** Once every task of a traversal order is visited, every task is. */
  lemma AllVisited(order: seq<nat>, vis: seq<bool>)
    requires IsPermutation(order, |vis|) && forall k :: 0 <= k < |vis| ==> vis[order[k]]
    ensures forall t :: 0 <= t < |vis| ==> vis[t]
  {
    forall t | 0 <= t < |vis| ensures vis[t] {
      assert t in order;
      var k :| 0 <= k < |order| && order[k] == t;
    }
  }

  /** Storing a solution that is not stored yet keeps the stored solutions
      solutions and pairwise different. */
  lemma AddSolution(p: Csp, sols: seq<seq<Assignment>>, s: seq<Assignment>)
    requires Shaped(p.graph) && SolutionsOk(p, sols) && IsSolution(p, s) && s !in sols
    ensures SolutionsOk(p, sols + [s])
  {
    var r := sols + [s];
    forall i, j | 0 <= i < j < |r| ensures r[i] != r[j] {
      if j == |sols| {
        assert r[i] == sols[i];
      }
    }
  }

  lemma BoundIsSolution(p: Csp, vis: seq<bool>, bound: map<nat, Slice>, s: seq<Assignment>)
    requires Shaped(p.graph) && |vis| == p.graph.n
    requires BoundOk(p, vis, bound)
    requires forall t :: 0 <= t < p.graph.n ==> vis[t]
    requires |s| == p.graph.n && forall k :: 0 <= k < p.graph.n ==> k in bound && s[k] == Assignment(k, bound[k])
    ensures IsSolution(p, s)
  {
    var n := p.graph.n;
    forall a, b | 0 <= a < n && 0 <= b < n && a != b ensures !IsOverlap(s[a].slice, s[b].slice) {
      assert vis[a] && vis[b];
    }
    forall a, b | 0 <= a < n && 0 <= b < n && Precedes(p.graph, a, b) ensures IsBefore(s[a].slice, s[b].slice) {
      assert vis[a] && vis[b];
    }
    forall f | f in p.fixedIds && f < n ensures f in p.fixedSlice && s[f].slice == p.fixedSlice[f] {
      assert vis[f];
    }
  }
}
