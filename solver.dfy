/** The constraint solver (app/src/main/java/com/algorithm/CSP_Solver.java).

    The availability flags of every task's domain live in one array `avail`,
    laid out by `layout` (see module Domains); every method that marks or
    unmarks slots, except the arc-consistency pass and the initialisation
    of a fresh table, is proved to leave `avail[..]` equal to the Domains
    function that describes it. Change records are maps from task id to the
    set of slot indices that went from available to unavailable. */
module Solver {
  import opened Clock
  import opened Slices
  import opened Seqs
  import opened Assignments
  import opened Graph
  import opened Domains
  import opened Instance

  class CspSolver {
    const problem: Csp
    const taskCount: nat
    const solutionCountMax: int
    var layout: Layout
    var avail: array<bool>
    var assignment: seq<Assignment>
    var assignedMap: map<nat, Slice>
    var solutions: seq<seq<Assignment>>

    ghost predicate Valid()
      reads this
    {
      && ProblemOk(problem)
      && Fitted()
      && |assignment| <= taskCount
    }

    /** The part of `Valid` the domain passes rely on: the flag table
        matches the layout, which has a domain for every task of the
        graph. */
    ghost predicate Fitted()
      reads this
    {
      && Shaped(problem.graph)
      && taskCount == problem.graph.n
      && LayoutOk(layout) && Count(layout) == taskCount
      && avail.Length == |layout.slices|
    }

    /** Every stored solution is a solution of the problem, and no two
        stored solutions are equal. */
    ghost predicate StoredOk()
      reads this`solutions
    {
      Shaped(problem.graph) && SolutionsOk(problem, solutions)
    }

    /** `CSP_Solver(CSP)`: at most 5 solutions are collected. */
    constructor (p: Csp)
      requires ProblemOk(p)
      ensures Valid() && StoredOk() && problem == p && solutionCountMax == 5
      ensures assignment == [] && assignedMap == map[] && solutions == []
    {
      problem := p;
      taskCount := p.graph.n;
      solutionCountMax := 5;
      layout := Layout(seq(p.graph.n + 1, _ => 0), []);
      avail := new bool[0];
      assignment := [];
      assignedMap := map[];
      solutions := [];
    }

    /** `CSP_Solver(CSP, int)`: at most `max` solutions are collected. */
    constructor WithCap(p: Csp, max: int)
      requires ProblemOk(p)
      ensures Valid() && StoredOk() && problem == p && solutionCountMax == max
      ensures assignment == [] && assignedMap == map[] && solutions == []
    {
      problem := p;
      taskCount := p.graph.n;
      solutionCountMax := max;
      layout := Layout(seq(p.graph.n + 1, _ => 0), []);
      avail := new bool[0];
      assignment := [];
      assignedMap := map[];
      solutions := [];
    }

    /** The inner loop of `markInconsistentValues`: scans v's domain from
        the last slot down for an available slot that supports `su`. */
    method FindSupport(u: nat, v: nat, su: Slice) returns (found: bool)
      requires Fitted() && u < taskCount && v < taskCount
      ensures found <==> HasSupport(problem.graph, layout, avail[..], u, v, su)
    {
      var g := problem.graph;
      var baseV := layout.bounds[v];
      found := false;
      var j: int := (Size(layout, v) as int) - 1;
      while j >= 0
        invariant -1 <= j < Size(layout, v)
        invariant forall x :: j < x < Size(layout, v) ==>
          !(Avail(avail[..], layout, v, x) && Supports(g, u, v, su, SlotOf(layout, v, x)))
      {
        assert avail[baseV + j] == Avail(avail[..], layout, v, j);
        if avail[baseV + j] {
          var sv := layout.slices[baseV + j];
          if g.matrix[u][v] > 0 {
            if IsBefore(su, sv) {
              found := true;
              return;
            }
          } else {
            if IsBefore(sv, su) {
              found := true;
              return;
            }
          }
        }
        j := j - 1;
      }
    }

    /** `markInconsistentValues(u, v, set)`: clears every available slot of
        u that no available slot of v supports, and reports which. */
    method MarkInconsistentValues(u: nat, v: nat) returns (inconsistent: bool, changed: set<nat>)
      requires Fitted() && u < taskCount && v < taskCount && u != v
      modifies avail
      ensures avail[..] == Revise(problem.graph, layout, old(avail[..]), u, v)
      ensures changed == Cleared(layout, old(avail[..]), avail[..], u)
      ensures inconsistent <==> changed != {}
    {
      ghost var before := avail[..];
      var g := problem.graph;
      var baseU := layout.bounds[u];
      var sizeU := Size(layout, u);
      ghost var bad := UnsupportedSlots(g, layout, before, u, v);
      inconsistent, changed := false, {};
      ReviseClearsUnsupported(g, layout, before, u, v);
      ClearedPrefixEnds(layout, before, u, bad);
      var i := 0;
      while i < sizeU
        invariant 0 <= i <= sizeU
        invariant ClearState(layout, before, u, bad, i, avail[..], changed)
        invariant inconsistent <==> changed != {}
      {
        ghost var cur, dropped := avail[..], changed;
        UnsupportedNow(g, layout, before, u, v, i, cur, dropped, i);
        var cleared := ReviseSlot(u, v, i);
        if cleared {
          inconsistent := true;
          changed := changed + {i};
        }
        ClearRound(layout, before, u, bad, i, cur, dropped, cleared, avail[..], changed);
        i := i + 1;
      }
    }

    /** One round of the outer loop of `markInconsistentValues`: slot i of
        u, when available, is cleared if no available slot of v supports
        it. */
    method ReviseSlot(u: nat, v: nat, i: nat) returns (cleared: bool)
      requires Fitted() && u < taskCount && v < taskCount && u != v && i < Size(layout, u)
      modifies avail
      ensures cleared == (old(avail[layout.bounds[u] + i]) &&
                          !HasSupport(problem.graph, layout, old(avail[..]), u, v, SlotOf(layout, u, i)))
      ensures avail[..] == if cleared then old(avail[..])[layout.bounds[u] + i := false] else old(avail[..])
    {
      var pos := layout.bounds[u] + i;
      cleared := false;
      if avail[pos] {
        var found := FindSupport(u, v, layout.slices[pos]);
        if !found {
          avail[pos] := false;
          cleared := true;
        }
      }
    }

    /** The loop of `constraintConsistencyCheck` that queues an arc (w, u)
        for every neighbour w of u, in adjacency-list order. */
    method EnqueueNeighbours(queue: seq<Arc>, u: nat) returns (r: seq<Arc>)
      requires Valid() && u < taskCount
      ensures r == queue + NeighbourArcs(problem.graph, u)
    {
      var vertexList := problem.graph.adj[u];
      r := queue;
      var j := 0;
      while j < |vertexList|
        invariant 0 <= j <= |vertexList|
        invariant r == queue + NeighbourArcs(problem.graph, u)[..j]
      {
        r := r + [Arc(vertexList[j], u)];
        j := j + 1;
      }
    }

    /** `constraintConsistencyCheck(q)`: revises arcs from a queue seeded
        with `q`; whenever a revision of (u, v) clears something, u's change
        set is recorded and an arc (w, u) is queued for every neighbour w of
        u. On return every arc of `q` is consistent, and the pass has
        cleared only unsupported slots: every sub-table of the starting
        flags that is consistent on all arcs between neighbours survives. */
    method ConstraintConsistencyCheck(q: seq<Arc>) returns (changedSets: map<nat, set<nat>>)
      requires Valid() && forall a :: a in q ==> ArcOk(problem.graph, a)
      modifies avail
      ensures forall k :: 0 <= k < avail.Length && avail[k] ==> old(avail[k])
      ensures RecordsSome(layout, old(avail[..]), avail[..], changedSets)
      ensures forall a :: a in q ==>
        a.u < taskCount && a.v < taskCount && ArcConsistent(problem.graph, layout, avail[..], a.u, a.v)
      ensures forall sub :: SubTable(sub, old(avail[..])) && AllArcsConsistent(problem.graph, layout, sub) ==>
        SubTable(sub, avail[..])
    {
      ghost var before := avail[..];
      var g := problem.graph;
      var queue := q;
      ghost var seen: set<Arc> := set a | a in q;
      changedSets := map[];
      while |queue| > 0
        invariant forall k :: 0 <= k < |before| && avail[..][k] ==> before[k]
        invariant forall a :: a in q ==> a in seen
        invariant forall a :: a in queue ==> a in seen
        invariant forall a :: a in seen ==> ArcOk(g, a)
        invariant forall a :: a in seen && a !in queue && ArcOk(g, a) ==> ArcConsistent(g, layout, avail[..], a.u, a.v)
        invariant RecordsSome(layout, before, avail[..], changedSets)
        invariant forall sub :: SubTable(sub, before) && AllArcsConsistent(g, layout, sub) ==> SubTable(sub, avail[..])
        decreases CountTrue(avail[..]), |queue|
      {
        var edge := queue[0];
        var u, v := edge.u, edge.v;
        ghost var mid := avail[..];
        ghost var seen0, q0 := seen, queue;
        var inconsistent, domainChangedSet := MarkInconsistentValues(u, v);
        ghost var after := avail[..];
        RecordRevision(layout, before, mid, after, changedSets, u, domainChangedSet);
        RevisionProgress(layout, mid, after, u, domainChangedSet);
        ReviseKeepsConsistentSubs(g, layout, before, mid, u, v);
        if inconsistent {
          changedSets := changedSets[u := domainChangedSet];
          queue := EnqueueNeighbours(queue, u);
          seen := seen + (set a | a in NeighbourArcs(g, u));
        }
        queue := queue[1..];
        ConsistencyRound(g, layout, mid, after, seen0, q0, seen, queue, inconsistent);
      }
    }

    /** `markInconsistentValues2(u, v, set)`: clears every available slot of
        u that fails the precedence test against the slice bound to v, and
        reports which. */
    method MarkInconsistentValues2(u: nat, v: nat) returns (inconsistent: bool, changed: set<nat>)
      requires Fitted() && u < taskCount && v < taskCount && v in assignedMap
      modifies avail
      ensures avail[..] == ReviseAgainst(problem.graph, layout, old(avail[..]), u, v, assignedMap[v])
      ensures changed == Cleared(layout, old(avail[..]), avail[..], u)
      ensures inconsistent <==> changed != {}
    {
      ghost var before := avail[..];
      var g := problem.graph;
      var sv := assignedMap[v];
      var baseU := layout.bounds[u];
      var sizeU := Size(layout, u);
      ghost var bad := FailingSlots(g, layout, u, v, sv);
      inconsistent, changed := false, {};
      ReviseAgainstClearsFailing(g, layout, before, u, v, sv);
      ClearedPrefixEnds(layout, before, u, bad);
      var i := 0;
      while i < sizeU
        invariant 0 <= i <= sizeU
        invariant ClearState(layout, before, u, bad, i, avail[..], changed)
        invariant inconsistent <==> changed != {}
      {
        ghost var cur, dropped := avail[..], changed;
        FailingSlot(g, layout, u, v, sv, i);
        var cleared := CheckSlotAgainst(u, v, i, sv);
        if cleared {
          inconsistent := true;
          changed := changed + {i};
        }
        ClearRound(layout, before, u, bad, i, cur, dropped, cleared, avail[..], changed);
        i := i + 1;
      }
    }

    /** One round of the loop of `markInconsistentValues2`: slot i of u,
        when available, is cleared if it fails the precedence test against
        `sv`. */
    method CheckSlotAgainst(u: nat, v: nat, i: nat, sv: Slice) returns (cleared: bool)
      requires Fitted() && u < taskCount && v < taskCount && i < Size(layout, u)
      modifies avail
      ensures cleared == (old(avail[layout.bounds[u] + i]) && !Supports(problem.graph, u, v, SlotOf(layout, u, i), sv))
      ensures avail[..] == if cleared then old(avail[..])[layout.bounds[u] + i := false] else old(avail[..])
    {
      var g := problem.graph;
      var pos := layout.bounds[u] + i;
      cleared := false;
      if avail[pos] {
        var su := layout.slices[pos];
        var unavailable := true;
        if g.matrix[u][v] > 0 {
          if IsBefore(su, sv) {
            unavailable := false;
          }
        } else {
          if IsBefore(sv, su) {
            unavailable := false;
          }
        }
        if unavailable {
          avail[pos] := false;
          cleared := true;
        }
      }
    }

    /** `directedConstraintCheck(q)`: checks, in order, every arc (u, v) of
        `q` against the slice bound to v, and records u's change set when
        the check cleared something. When the arcs come from different
        tasks, the record is exact. */
    method DirectedConstraintCheck(q: seq<Arc>) returns (changedSets: map<nat, set<nat>>)
      requires Valid()
      requires forall a :: a in q ==> a.u < taskCount && a.v < taskCount && a.v in assignedMap
      modifies avail
      ensures avail[..] == DirectedChecked(problem.graph, layout, old(avail[..]), assignedMap, q)
      ensures RecordsSome(layout, old(avail[..]), avail[..], changedSets)
      ensures DistinctSources(q) ==> forall t :: t in changedSets ==>
        t < taskCount && changedSets[t] == Cleared(layout, old(avail[..]), avail[..], t)
    {
      ghost var before := avail[..];
      var g := problem.graph;
      changedSets := map[];
      var i := 0;
      while i < |q|
        invariant 0 <= i <= |q|
        invariant avail[..] == DirectedChecked(g, layout, before, assignedMap, q[..i])
        invariant DirectedProgress(g, layout, before, avail[..], q, i, changedSets)
      {
        var u, v := q[i].u, q[i].v;
        ghost var mid := avail[..];
        var inconsistent, domainChangedSet := MarkInconsistentValues2(u, v);
        DirectedRound(g, layout, before, mid, avail[..], q, i, changedSets, domainChangedSet);
        assert q[..i + 1][..i] == q[..i];
        if inconsistent {
          changedSets := changedSets[u := domainChangedSet];
        }
        i := i + 1;
      }
      assert q[..|q|] == q;
    }

    /** The inner loop of `directedCheckAndMarkOverlap`: clears every
        available slot of t that overlaps `s`, and reports which. */
    method ClearOverlapping(t: nat, s: Slice) returns (changed: set<nat>)
      requires Valid() && t < taskCount
      modifies avail
      ensures avail[..] == ClearedPrefix(layout, old(avail[..]), t, OverlapSlots(layout, s, t), Size(layout, t))
      ensures changed == Cleared(layout, old(avail[..]), avail[..], t)
    {
      ghost var before := avail[..];
      ghost var bad := OverlapSlots(layout, s, t);
      var base := layout.bounds[t];
      var size := Size(layout, t);
      changed := {};
      ClearedPrefixEnds(layout, before, t, bad);
      var j := 0;
      while j < size
        invariant 0 <= j <= size
        invariant avail[..] == ClearedPrefix(layout, before, t, bad, j)
        invariant changed == DroppedPrefix(layout, before, t, bad, j)
      {
        ClearedPrefixStep(layout, before, t, bad, j);
        ghost var cur := avail[..];
        if avail[base + j] {
          if IsOverlap(s, layout.slices[base + j]) {
            avail[base + j] := false;
            assert avail[..] == cur[base + j := false];
            changed := changed + {j};
          }
        }
        j := j + 1;
      }
    }

    /** `directedCheckAndMarkOverlap(id, visited)`: clears every available
        slot of every unvisited task other than id that overlaps the slice
        bound to id, and records the change set of each such task, empty
        or not. */
    method DirectedCheckAndMarkOverlap(id: nat, visited: array<bool>) returns (changedSets: map<nat, set<nat>>)
      requires Valid() && id < taskCount && id in assignedMap
      requires visited.Length == taskCount && visited != avail
      modifies avail
      ensures avail[..] == OverlapPruned(layout, old(avail[..]), visited[..], id, assignedMap[id])
      ensures forall t: nat :: t in changedSets <==> t < taskCount && t != id && !visited[t]
      ensures forall t :: t in changedSets ==>
        t < taskCount && changedSets[t] == Cleared(layout, old(avail[..]), avail[..], t)
    {
      ghost var before := avail[..];
      ghost var vis := visited[..];
      var s := assignedMap[id];
      changedSets := map[];
      PrunedNone(layout, before, s);
      var i := 0;
      while i < taskCount
        invariant 0 <= i <= taskCount
        invariant OverlapProgress(layout, before, avail[..], vis, id, s, i, changedSets)
      {
        if i == id || visited[i] {
          OverlapSkip(layout, before, avail[..], vis, id, s, i, changedSets);
        } else {
          ghost var mid := avail[..];
          var domainChangedSet := ClearOverlapping(i, s);
          OverlapRound(layout, before, mid, avail[..], vis, id, s, i, changedSets, domainChangedSet);
          changedSets := changedSets[i := domainChangedSet];
        }
        i := i + 1;
      }
      assert (set t: nat | t < taskCount && t != id && !vis[t]) == UnvisitedOthers(layout, vis, id);
    }

    /** `getRelatedArcs(u, visited)`: the arcs (w, u) for every unvisited
        neighbour w of u, one per neighbour. */
    method GetRelatedArcs(u: nat, visited: array<bool>) returns (q: seq<Arc>)
      requires Valid() && u < taskCount && visited.Length == taskCount
      ensures forall a :: a in q <==>
        a.v == u && a.u in problem.graph.adj[u] && a.u < taskCount && !visited[a.u]
      ensures forall a :: a in q ==> a.u < taskCount && a.u != u
      ensures DistinctSources(q)
    {
      var vertexList := problem.graph.adj[u];
      q := [];
      var j := 0;
      while j < |vertexList|
        invariant 0 <= j <= |vertexList|
        invariant forall a :: a in q <==> a.v == u && a.u in vertexList[..j] && a.u < taskCount && !visited[a.u]
        invariant DistinctSources(q)
      {
        var w := vertexList[j];
        assert vertexList[..j + 1] == vertexList[..j] + [w];
        if !visited[w] {
          assert w !in vertexList[..j];
          q := q + [Arc(w, u)];
        }
        j := j + 1;
      }
      assert vertexList[..j] == vertexList;
    }

    /** The loop of `updateRelatedDomainMark` that merges two change
        records: for every task, the union of its entries. */
    method UnionChangeSets(m1: map<nat, set<nat>>, m2: map<nat, set<nat>>) returns (r: map<nat, set<nat>>)
      ensures forall t :: t in r <==> t < taskCount && (t in m1 || t in m2)
      ensures forall t :: t in r ==>
        r[t] == (if t in m1 then m1[t] else {}) + (if t in m2 then m2[t] else {})
    {
      r := map[];
      var i := 0;
      while i < taskCount
        invariant 0 <= i <= taskCount
        invariant forall t :: t in r <==> t < i && (t in m1 || t in m2)
        invariant forall t :: t in r ==>
          r[t] == (if t in m1 then m1[t] else {}) + (if t in m2 then m2[t] else {})
      {
        var merged: set<nat>;
        if i in m1 && i in m2 {
          merged := m1[i] + m2[i];
        } else if i in m1 {
          merged := m1[i];
        } else if i in m2 {
          merged := m2[i];
        } else {
          i := i + 1;
          continue;
        }
        r := r[i := merged];
        i := i + 1;
      }
    }

    /** `updateRelatedDomainMark(id, visited)`: forward checking after id is
        bound. The flags end as `ForwardChecked` says, and the record holds,
        for every unvisited task other than id, exactly what was cleared;
        nothing is cleared for any other task. */
    method UpdateRelatedDomainMark(id: nat, visited: array<bool>) returns (changedSets: map<nat, set<nat>>)
      requires Valid() && id < taskCount && id in assignedMap
      requires visited.Length == taskCount && visited != avail
      modifies avail
      ensures avail[..] == ForwardChecked(problem.graph, layout, old(avail[..]), visited[..], id, assignedMap[id])
      ensures forall t: nat :: t in changedSets <==> t < taskCount && t != id && !visited[t]
      ensures RecordsExactly(layout, old(avail[..]), avail[..], changedSets)
    {
      ghost var before := avail[..];
      var g := problem.graph;
      var s := assignedMap[id];
      var queue := GetRelatedArcs(id, visited);
      var m1 := DirectedConstraintCheck(queue);
      ghost var mid := avail[..];
      RelatedArcsPruned(g, layout, before, assignedMap, queue, visited[..], id);
      var m2 := DirectedCheckAndMarkOverlap(id, visited);
      changedSets := UnionChangeSets(m1, m2);
      ForwardRecord(g, layout, before, mid, avail[..], visited[..], id, s, m1, m2, changedSets);
    }

    /** `repealDomainMarkUpdate(changes)`: sets back to available every
        slot recorded in `changes`. */
    method RepealDomainMarkUpdate(changes: map<nat, set<nat>>)
      requires Valid()
      requires forall t :: t in changes ==> t < taskCount && forall i :: i in changes[t] ==> i < Size(layout, t)
      modifies avail
      ensures avail[..] == Repealed(layout, old(avail[..]), changes)
    {
      ghost var before := avail[..];
      var keys := changes.Keys;
      ghost var done: map<nat, set<nat>> := map[];
      RepealedNone(layout, before);
      while keys != {}
        invariant keys <= changes.Keys
        invariant forall t :: t in done <==> t in changes && t !in keys
        invariant forall t :: t in done ==> done[t] == changes[t]
        invariant avail[..] == Repealed(layout, before, done)
        decreases keys
      {
        var key :| key in keys;
        RepealedCompose(layout, before, done, key, changes[key]);
        RepealIndices(key, changes[key]);
        done := done[key := changes[key]];
        keys := keys - {key};
      }
      assert done == changes;
    }

    /** The inner loop of `repealDomainMarkUpdate`: sets back to available
        the given slots of task t. */
    method RepealIndices(t: nat, indices: set<nat>)
      requires Valid() && t < taskCount && forall i :: i in indices ==> i < Size(layout, t)
      modifies avail
      ensures avail[..] == Repealed(layout, old(avail[..]), map[t := indices])
    {
      ghost var before := avail[..];
      var rest := indices;
      ghost var done: set<nat> := {};
      RepealedNone(layout, before);
      RepealedEmptyEntry(layout, before, map[], t);
      assert map[][t := {}] == map[t := done];
      while rest != {}
        invariant done + rest == indices
        invariant avail[..] == Repealed(layout, before, map[t := done])
        decreases rest
      {
        var i :| i in rest;
        ghost var cur := avail[..];
        RepealedOneMore(layout, before, t, done, i);
        avail[layout.bounds[t] + i] := true;
        assert avail[..] == cur[layout.bounds[t] + i := true];
        done := done + {i};
        rest := rest - {i};
      }
    }

    /** `domainInitializationForAllTasks(step)` for the k-th step of the
        ladder: every task gets the domain built for that step, with every
        slot available. */
    method InitializeDomains(k: nat)
      requires Valid() && k < |problem.domains|
      modifies this`layout, this`avail
      ensures Valid() && layout == problem.domains[k] && fresh(avail)
      ensures forall j :: 0 <= j < avail.Length ==> avail[j]
    {
      layout := problem.domains[k];
      avail := new bool[|layout.slices|](_ => true);
    }

    /** `isFixedTaskOverlap()`: the fixed slices sorted by start time are
        checked pair by adjacent pair. */
    method IsFixedTaskOverlap() returns (r: bool)
      requires Valid()
      ensures r ==> FixedOverlap(problem)
      ensures (forall f :: f in problem.fixedIds ==> Proper(problem.fixedSlice[f])) && FixedOverlap(problem) ==> r
    {
      var fs := problem.fixedSlice;
      var fixedIds := problem.fixedIds;
      if |fixedIds| <= 1 {
        FewFixedNoOverlap(problem);
        return false;
      }
      var ids := CollectFixedIds();
      var sorted := SortByStart(ids, fs);
      SortedListsFixed(problem, ids);
      var found, at := AdjacentOverlap(sorted);
      if found {
        AdjacentOverlapFound(problem, sorted, at);
        return true;
      }
      if forall f :: f in fixedIds ==> Proper(fs[f]) {
        NoAdjacentOverlapNone(problem, sorted);
      }
      return false;
    }

    /** The second loop of `isFixedTaskOverlap`: looks for two adjacent
        fixed tasks of `sorted` whose slices overlap. */
    method AdjacentOverlap(sorted: seq<nat>) returns (found: bool, ghost at: nat)
      requires forall x :: x in sorted ==> x in problem.fixedSlice
      ensures found ==>
        at + 1 < |sorted| && IsOverlap(problem.fixedSlice[sorted[at]], problem.fixedSlice[sorted[at + 1]])
      ensures !found ==>
        forall k :: 0 <= k && k + 1 < |sorted| ==>
          !IsOverlap(problem.fixedSlice[sorted[k]], problem.fixedSlice[sorted[k + 1]])
    {
      var fs := problem.fixedSlice;
      var i := 0;
      while i + 1 < |sorted|
        invariant 0 <= i
        invariant forall k :: 0 <= k < i && k + 1 < |sorted| ==> !IsOverlap(fs[sorted[k]], fs[sorted[k + 1]])
      {
        if IsOverlap(fs[sorted[i]], fs[sorted[i + 1]]) {
          return true, i;
        }
        i := i + 1;
      }
      return false, 0;
    }

    /** The first loop of `isFixedTaskOverlap`: lists the fixed tasks, in
        the set's iteration order. */
    method CollectFixedIds() returns (ids: seq<nat>)
      requires Valid()
      ensures ListsFixed(problem, ids)
    {
      ids := [];
      var rest := problem.fixedIds;
      while rest != {}
        invariant rest <= problem.fixedIds
        invariant forall x :: x in ids <==> x in problem.fixedIds && x !in rest
        invariant Distinct(ids)
        decreases rest
      {
        var id :| id in rest;
        ids := ids + [id];
        rest := rest - {id};
      }
    }

    /** `markOverlappingDomain()`: every slot of a flexible task that
        overlaps the slot of a fixed task is marked unavailable. */
    method MarkOverlappingDomain()
      requires Valid() && FixedDomainsOk(problem, layout)
      modifies avail
      ensures avail[..] == ExcludeFixed(layout, old(avail[..]), problem.fixedIds, problem.flexibleIds)
    {
      ghost var before := avail[..];
      var fixed := problem.fixedIds;
      ghost var done: set<nat> := {};
      ExcludeFixedNone(layout, before, problem.flexibleIds);
      while fixed != {}
        invariant fixed <= problem.fixedIds && done == problem.fixedIds - fixed
        invariant avail[..] == ExcludeFixed(layout, before, done, problem.flexibleIds)
        decreases fixed
      {
        var id1 :| id1 in fixed;
        var slice1 := layout.slices[layout.bounds[id1]];
        ExcludeFixedAdd(layout, before, done, id1, problem.flexibleIds);
        MarkFlexibleOverlapping(slice1);
        done := done + {id1};
        fixed := fixed - {id1};
      }
    }

    /** The middle loop of `markOverlappingDomain`: the flexible tasks
        against one fixed slice. */
    method MarkFlexibleOverlapping(s: Slice)
      requires Valid()
      modifies avail
      ensures avail[..] == Pruned(layout, old(avail[..]), problem.flexibleIds, s)
    {
      ghost var before := avail[..];
      var rest := problem.flexibleIds;
      ghost var done: set<nat> := {};
      PrunedNone(layout, before, s);
      while rest != {}
        invariant rest <= problem.flexibleIds && done == problem.flexibleIds - rest
        invariant avail[..] == Pruned(layout, before, done, s)
        decreases rest
      {
        var id2 :| id2 in rest;
        PrunedAdd(layout, before, done, id2, s);
        MarkOverlapsWith(id2, s);
        done := done + {id2};
        rest := rest - {id2};
      }
    }

    /** The inner loop of `markOverlappingDomain`: every slot of task t that
        overlaps `s` is set unavailable, whether or not it already was. */
    method MarkOverlapsWith(t: nat, s: Slice)
      requires Valid() && t < taskCount
      modifies avail
      ensures avail[..] == ClearedPrefix(layout, old(avail[..]), t, OverlapSlots(layout, s, t), Size(layout, t))
    {
      ghost var before := avail[..];
      ghost var bad := OverlapSlots(layout, s, t);
      var base := layout.bounds[t];
      var size := Size(layout, t);
      ClearedPrefixEnds(layout, before, t, bad);
      var i := 0;
      while i < size
        invariant 0 <= i <= size
        invariant avail[..] == ClearedPrefix(layout, before, t, bad, i)
      {
        ClearedPrefixStep(layout, before, t, bad, i);
        ghost var cur := avail[..];
        if IsOverlap(s, layout.slices[base + i]) {
          avail[base + i] := false;
          assert avail[..] == cur[base + i := false];
        }
        i := i + 1;
      }
    }

    /** `isEqualArrayList(a1, a2)`. */
    method IsEqualArrayList(a1: seq<Assignment>, a2: seq<Assignment>) returns (r: bool)
      ensures r <==> a1 == a2
    {
      if |a1| != |a2| {
        return false;
      }
      var i := 0;
      while i < |a1|
        invariant 0 <= i <= |a1|
        invariant a1[..i] == a2[..i]
      {
        if a1[i] != a2[i] {
          return false;
        }
        assert a1[..i + 1] == a1[..i] + [a1[i]] && a2[..i + 1] == a2[..i] + [a2[i]];
        i := i + 1;
      }
      assert a1 == a1[..i] && a2 == a2[..i];
      return true;
    }

    /** `isDuplicatedSolution(a)`: some stored solution equals `a`. */
    method IsDuplicatedSolution(a: seq<Assignment>) returns (r: bool)
      ensures r <==> a in solutions
    {
      var i := 0;
      while i < |solutions|
        invariant 0 <= i <= |solutions|
        invariant a !in solutions[..i]
      {
        var same := IsEqualArrayList(a, solutions[i]);
        if same {
          return true;
        }
        assert solutions[..i + 1] == solutions[..i] + [solutions[i]];
        i := i + 1;
      }
      assert solutions[..i] == solutions;
      return false;
    }

    /** `deepCopyArrayList(list)`: an element-by-element copy; assignments
        are values here, so the copy equals the list. */
    method DeepCopyArrayList(list: seq<Assignment>) returns (r: seq<Assignment>)
      ensures r == list
    {
      r := [];
      var i := 0;
      while i < |list|
        invariant 0 <= i <= |list|
        invariant r == list[..i]
      {
        r := r + [list[i]];
        i := i + 1;
      }
      assert list[..i] == list;
    }

    /** What holds at every call of `searchSolutions(count, order,
        visited)`: the first `count` tasks of the traversal order are the
        visited ones, each bound in `assignedMap` and recorded at its
        position in `assignment`, and the search invariant holds. */
    ghost predicate SearchState(count: nat, order: seq<nat>, visited: array<bool>)
      reads this, visited, avail
    {
      && Valid()
      && visited != avail && visited.Length == taskCount
      && FixedDomainsOk(problem, layout)
      && SearchFacts(problem, layout, avail[..], visited[..], order, count, assignment, assignedMap)
    }

    /** `searchSolutions(count, order, visited)`: binds the tasks from
        position `count` of the order on, in every way their domains allow,
        and stores each complete assignment, sorted by task id, that is not
        stored yet, until `solutionCountMax` solutions are stored. Every
        stored solution is a solution; the flags, the visited marks and the
        bound slices are left as they were found. */
    method SearchSolutions(count: nat, order: seq<nat>, visited: array<bool>)
      requires SearchState(count, order, visited) && StoredOk()
      modifies this`assignment, this`assignedMap, this`solutions, avail, visited
      ensures Valid() && StoredOk()
      ensures avail[..] == old(avail[..]) && visited[..] == old(visited[..]) && assignedMap == old(assignedMap)
      ensures |assignment| >= count && assignment[..count] == old(assignment[..count])
      ensures old(solutions) <= solutions
      ensures |solutions| <= solutionCountMax || solutions == old(solutions)
      ensures |old(solutions)| >= solutionCountMax ==> solutions == old(solutions) && assignment == old(assignment)
      decreases taskCount - count, 2
    {
      if |solutions| >= solutionCountMax {
        return;
      }
      if count == taskCount {
        StoreSolution(order, visited);
        return;
      }
      var id := order[count];
      var base := layout.bounds[id];
      var size := Size(layout, id);
      ghost var av0, vis0, asg0, sols0 := avail[..], visited[..], assignment, solutions;
      var i := 0;
      while i < size
        invariant 0 <= i <= size
        invariant Valid() && StoredOk() && |assignment| >= count && assignment[..count] == asg0[..count]
        invariant avail[..] == av0 && visited[..] == vis0 && assignedMap == old(assignedMap)
        invariant sols0 <= solutions
        invariant |solutions| <= solutionCountMax || solutions == sols0
      {
        if avail[base + i] {
          BindAndSearch(count, order, visited, i);
        }
        i := i + 1;
      }
    }

    /** The complete-assignment case of `searchSolutions`: a copy of the
        assignment, sorted by task id, is stored unless it is stored
        already. It is a solution of the problem. */
    method StoreSolution(order: seq<nat>, visited: array<bool>)
      requires SearchState(taskCount, order, visited) && StoredOk()
      modifies this`solutions
      ensures StoredOk()
      ensures SortById(assignment) in solutions
      ensures solutions == old(solutions) || solutions == old(solutions) + [SortById(assignment)]
    {
      var newAssignment := DeepCopyArrayList(assignment);
      var sorted := SortById(newAssignment);
      CompleteIsSolution(problem, layout, avail[..], visited[..], order, assignment, assignedMap);
      var duplicated := IsDuplicatedSolution(sorted);
      if !duplicated {
        AddSolution(problem, solutions, sorted);
        solutions := solutions + [sorted];
      }
    }

    /** One round of the loop of `searchSolutions`: binds task
        `order[count]` to its available slot i, marks that slot unavailable
        and forward checks, searches on, then undoes all of it. */
    method BindAndSearch(count: nat, order: seq<nat>, visited: array<bool>, i: nat)
      requires SearchState(count, order, visited) && StoredOk() && count < taskCount
      requires i < Size(layout, order[count]) && avail[layout.bounds[order[count]] + i]
      modifies this`assignment, this`assignedMap, this`solutions, avail, visited
      ensures Valid() && StoredOk()
      ensures avail[..] == old(avail[..]) && visited[..] == old(visited[..]) && assignedMap == old(assignedMap)
      ensures |assignment| >= count && assignment[..count] == old(assignment[..count])
      ensures old(solutions) <= solutions
      ensures |solutions| <= solutionCountMax || solutions == old(solutions)
      decreases taskCount - count, 1
    {
      var id := order[count];
      var pos := layout.bounds[id] + i;
      var slice := layout.slices[pos];
      ghost var av0, vis0, map0, asg0 := avail[..], visited[..], assignedMap, assignment;
      var changes := BindSlot(count, id, visited, i);
      BindKeepsSearch(problem, layout, av0, vis0, order, count, asg0, map0, i, id, pos, slice);
      SearchThenUnbind(count, order, visited, id, pos, changes, av0, vis0, map0, slice);
      assert assignment[..count] == assignment[..count + 1][..count];
    }

    /** The rest of a round of `searchSolutions` once task `order[count]`
        is bound: searches on from position `count + 1`, then undoes the
        binding. */
    method SearchThenUnbind(count: nat, order: seq<nat>, visited: array<bool>, id: nat, pos: nat,
                            changes: map<nat, set<nat>>, ghost av0: seq<bool>, ghost vis0: seq<bool>,
                            ghost map0: map<nat, Slice>, ghost s: Slice)
      requires count < taskCount && SearchState(count + 1, order, visited) && StoredOk() && id < taskCount
      requires Fits(layout, av0) && |vis0| == taskCount && pos < |av0| && InBlock(layout, id, pos) && av0[pos]
      requires id !in map0 && !vis0[id] && assignedMap == map0[id := s]
      requires visited[..] == vis0[id := true]
      requires avail[..] == ForwardChecked(problem.graph, layout, av0[pos := false], visited[..], id, s)
      requires RecordsExactly(layout, av0[pos := false], avail[..], changes)
      modifies this`assignment, this`assignedMap, this`solutions, avail, visited
      ensures Valid() && StoredOk()
      ensures avail[..] == av0 && visited[..] == vis0 && assignedMap == map0
      ensures |assignment| >= count + 1 && assignment[..count + 1] == old(assignment[..count + 1])
      ensures old(solutions) <= solutions
      ensures |solutions| <= solutionCountMax || solutions == old(solutions)
      decreases taskCount - count, 0
    {
      SearchSolutions(count + 1, order, visited);
      UnbindSlot(id, pos, visited, changes, av0, vis0, map0, s);
    }

    /** The first half of a round of `searchSolutions`: records the binding
        of task id to slot i at position `count`, marks the slot
        unavailable and the task visited, and forward checks. */
    method BindSlot(count: nat, id: nat, visited: array<bool>, i: nat) returns (changes: map<nat, set<nat>>)
      requires Valid() && visited != avail && visited.Length == taskCount
      requires count < taskCount && |assignment| >= count
      requires id < taskCount && i < Size(layout, id)
      modifies this`assignment, this`assignedMap, avail, visited
      ensures Valid()
      ensures assignment == Record(old(assignment), count, Assignment(id, SlotOf(layout, id, i)))
      ensures assignedMap == old(assignedMap)[id := SlotOf(layout, id, i)]
      ensures visited[..] == old(visited[..])[id := true]
      ensures avail[..] == ForwardChecked(problem.graph, layout, old(avail[..])[layout.bounds[id] + i := false],
                                          visited[..], id, SlotOf(layout, id, i))
      ensures RecordsExactly(layout, old(avail[..])[layout.bounds[id] + i := false], avail[..], changes)
    {
      var slice := RecordBinding(count, id, visited, i);
      ghost var mid := avail[..];
      changes := UpdateRelatedDomainMark(id, visited);
      assert mid == old(avail[..])[layout.bounds[id] + i := false];
    }

    /** The bookkeeping of a binding: the assignment list and map take the
        slice, the slot becomes unavailable and the task visited. */
    method RecordBinding(count: nat, id: nat, visited: array<bool>, i: nat) returns (slice: Slice)
      requires Valid() && visited != avail && visited.Length == taskCount
      requires count < taskCount && |assignment| >= count
      requires id < taskCount && i < Size(layout, id)
      modifies this`assignment, this`assignedMap, avail, visited
      ensures Valid() && slice == SlotOf(layout, id, i)
      ensures assignment == Record(old(assignment), count, Assignment(id, slice))
      ensures assignedMap == old(assignedMap)[id := slice]
      ensures visited[..] == old(visited[..])[id := true]
      ensures avail[..] == old(avail[..])[layout.bounds[id] + i := false]
    {
      var pos := layout.bounds[id] + i;
      slice := layout.slices[pos];
      if |assignment| <= count {
        assignment := assignment + [Assignment(id, slice)];
      } else {
        assignment := assignment[count := Assignment(id, slice)];
      }
      assignedMap := assignedMap[id := slice];
      avail[pos] := false;
      visited[id] := true;
    }

    /** The second half of a round of `searchSolutions`: drops the binding
        of task id, marks its slot available and the task unvisited again,
        and undoes the forward check's record. */
    method UnbindSlot(id: nat, pos: nat, visited: array<bool>, changes: map<nat, set<nat>>,
                      ghost av0: seq<bool>, ghost vis0: seq<bool>, ghost map0: map<nat, Slice>, ghost s: Slice)
      requires Valid() && visited != avail && visited.Length == taskCount && id < taskCount
      requires Fits(layout, av0) && |vis0| == taskCount && pos < |av0| && InBlock(layout, id, pos) && av0[pos]
      requires id !in map0 && !vis0[id] && assignedMap == map0[id := s]
      requires visited[..] == vis0[id := true]
      requires avail[..] == ForwardChecked(problem.graph, layout, av0[pos := false], visited[..], id, s)
      requires RecordsExactly(layout, av0[pos := false], avail[..], changes)
      modifies this`assignedMap, avail, visited
      ensures Valid() && avail[..] == av0 && visited[..] == vis0 && assignedMap == map0
    {
      ghost var checked := avail[..];
      IterationRestores(problem.graph, layout, av0, vis0[id := true], id, s, pos, changes);
      assignedMap := assignedMap - {id};
      assert assignedMap == map0;
      avail[pos] := true;
      visited[id] := false;
      assert avail[..] == checked[pos := true];
      assert visited[..] == vis0;
      assert forall t :: t in changes ==> t < taskCount && forall j :: j in changes[t] ==> j < Size(layout, t);
      RepealDomainMarkUpdate(changes);
    }

    /** The `visited` map of `getSolutions`: every task of the traversal
        order starts unvisited. */
    method NewVisited(order: seq<nat>) returns (visited: array<bool>)
      requires IsPermutation(order, taskCount)
      ensures fresh(visited) && visited.Length == taskCount
      ensures forall t :: 0 <= t < taskCount ==> !visited[t]
    {
      visited := new bool[taskCount];
      var i := 0;
      while i < taskCount
        invariant 0 <= i <= taskCount
        invariant forall k :: 0 <= k < i ==> !visited[order[k]]
      {
        visited[order[i]] := false;
        i := i + 1;
      }
      forall t | 0 <= t < taskCount ensures !visited[t] {
        assert t in order;
        var k :| 0 <= k < |order| && order[k] == t;
      }
    }

    /** One round of the step loop of `getSolutions`: builds the domains of
        the k-th step, excludes the fixed slices, makes every seed arc
        consistent and searches from the first task of the order. */
    method SearchAtStep(k: nat, order: seq<nat>, visited: array<bool>)
      requires Valid() && StoredOk() && assignedMap == map[] && k < |problem.domains|
      requires IsPermutation(order, taskCount)
      requires visited.Length == taskCount && forall t :: 0 <= t < taskCount ==> !visited[t]
      modifies this`layout, this`avail, this`assignment, this`assignedMap, this`solutions, visited
      ensures Valid() && StoredOk() && assignedMap == map[] && visited[..] == old(visited[..])
      ensures old(solutions) <= solutions
      ensures |solutions| <= solutionCountMax || solutions == old(solutions)
    {
      InitializeDomains(k);
      MarkOverlappingDomain();
      var _ := ConstraintConsistencyCheck(problem.graph.arcs);
      SearchSolutions(0, order, visited);
    }

    /** `getSolutions()`: unless the problem is rejected up front, searches
        along the topological order once per granularity step, finest last,
        stopping once `solutionCountMax` solutions are stored. */
    method GetSolutions() returns (r: seq<seq<Assignment>>)
      requires Valid() && StoredOk() && assignedMap == map[]
      modifies this`layout, this`avail, this`assignment, this`assignedMap, this`solutions
      ensures Valid() && StoredOk() && r == solutions && assignedMap == map[]
      ensures old(solutions) <= solutions
      ensures |solutions| <= solutionCountMax || solutions == old(solutions)
      ensures Rejected(problem) ==> solutions == old(solutions)
      ensures (forall f :: f in problem.fixedIds ==> Proper(problem.fixedSlice[f])) && FixedOverlap(problem) ==>
        solutions == old(solutions)
    {
      if |problem.fixedIds| + |problem.flexibleIds| != taskCount {
        return solutions;
      }
      if problem.overTime {
        return solutions;
      }
      var overlap := IsFixedTaskOverlap();
      if overlap {
        return solutions;
      }
      if taskCount == 0 {
        return solutions;
      }
      if problem.constraintsConflict {
        return solutions;
      }
      if problem.topoOrder.None? {
        return solutions;
      }
      var order := problem.topoOrder.value;
      var visited := NewVisited(order);
      var k := 0;
      while k < |problem.domains|
        invariant Valid() && StoredOk() && assignedMap == map[]
        invariant visited.Length == taskCount && forall t :: 0 <= t < taskCount ==> !visited[t]
        invariant old(solutions) <= solutions
        invariant |solutions| <= solutionCountMax || solutions == old(solutions)
      {
        SearchAtStep(k, order, visited);
        if |solutions| >= solutionCountMax {
          break;
        }
        k := k + 1;
      }
      return solutions;
    }
  }
}
