# timecatcher scheduling core in Dafny

This project models the scheduling engine of timecatcher, a day planner.
`CSP_Solver` gives every task one time slice from its domain. The choice
must respect the precedence edges of a constraint graph ("u ends before v
starts"), and no two chosen slices may overlap. The solver runs these stages:

- an AC-3 style arc-consistency pass (`constraintConsistencyCheck`,
  `markInconsistentValues`);
- a backtracking search along a topological order (`searchSolutions`). After
  each binding it forward checks the unvisited tasks with a precedence pass
  (`getRelatedArcs`, `directedConstraintCheck`, `markInconsistentValues2`)
  and an overlap pass (`directedCheckAndMarkOverlap`), merged by
  `updateRelatedDomainMark`. It undoes both with `repealDomainMarkUpdate`;
- a driver (`getSolutions`). It rejects hopeless problems, excludes the
  fixed tasks' slices from the flexible tasks' domains
  (`isFixedTaskOverlap`, `markOverlappingDomain`), and searches once per
  granularity step, from 1 hour down to 1 minute. It stops once the
  solution cap is reached.

`Time` is the clock value (hour, minute) that slices are made of.

Modules, in dependency order:

- `Seqs`: facts about lists without repeats.
- `Clock`: `Time.java` as a datatype with functions. Each defective
  operation is modelled both as written and as evidently intended (see
  Findings).
- `Slices`: the time slice as a pair of clock values, its precedence and
  overlap predicates, and the sort by start time.
- `Assignments`: task assignments, the sort by task id, and the canonical
  form of a complete assignment.
- `Graph`: the constraint graph (matrix, undirected adjacency lists, seed
  arcs) and the direction test the solver applies to an arc.
- `Domains`: the domain table and availability flags as values. Each slot of
  every task sits in one flat table, and one pure function describes the
  flags each solver pass leaves behind (`Revise`, `ReviseAgainst`,
  `PrecedencePruned`, `OverlapPruned`, `ForwardChecked`, `Repealed`,
  `ExcludeFixed`). The lemmas here state what the passes promise: they only
  clear flags, and only in the tasks they concern; they keep exactly the
  supported slots; the forward-checking record is exact (the
  arc-consistency record is not, see below); undo after do is the
  identity. For the arc-consistency pass, which has no such function, they
  state that a revision never removes a slot of a sub-table that is
  consistent on every arc (`ReviseKeepsConsistentSub`).
- `Instance`: the problem record, what a stored solution is, and the search
  invariant together with the lemmas that show each binding keeps it.
- `Solver`: class `CspSolver`, the imperative solver. It keeps the
  availability flags of all domains in one `array<bool>`, and the
  assignment list, assigned map and solution list are fields that its
  methods update. Every flag-changing method except two is proved
  to leave `avail[..]` equal to the `Domains` function of its old value.
  The exceptions are `ConstraintConsistencyCheck`, whose result depends on
  the queue order and is stated by what it keeps and what it makes
  consistent, and `InitializeDomains`, which installs a fresh table with
  every slot available. Loops that
  Java writes inline become helper methods with their own contracts
  (`ReviseSlot`, `FindSupport`, `CheckSlotAgainst`, `ClearOverlapping`,
  `RepealIndices`, `MarkFlexibleOverlapping`, `MarkOverlapsWith`,
  `EnqueueNeighbours`, `UnionChangeSets`, `AdjacentOverlap`,
  `CollectFixedIds`, `NewVisited`, `SearchAtStep`). One round of the search
  loop is likewise split into `BindAndSearch`, `BindSlot`, `RecordBinding`,
  `SearchThenUnbind`, `UnbindSlot` and `StoreSolution`.

Two change records are not exact in general, and their contracts say so.
`constraintConsistencyCheck` calls `put(u, set)`, so a later revision of
the same task replaces the earlier entry. Its record is therefore only a
non-empty part of what each task lost (`RecordsSome`). `getSolutions`
ignores that record. `directedConstraintCheck` has the same `put`. Its
record is exact when the arcs come from different tasks, which is what
`getRelatedArcs` returns, so the record `updateRelatedDomainMark` returns
is exact.

Assumptions about classes outside this model:

- `TimeSlice.isBefore(b)` holds when this slice ends no later than `b`
  starts.
- `isOverlap` holds when each slice starts strictly before the other ends.
- `compareTo` orders slices by start time.
- `TaskAssignment` is a value pair (task id, slice). Its `equals` compares
  both, and `compareTo` orders by task id.
- The constraint graph is well formed (`Graph.GraphOk`). Neighbours are
  other tasks, listed once. Every precedence edge appears in both adjacency
  lists and never together with its reverse. Seed arcs join neighbours.

## Model

| member | source | states |
|---|---|---|
| Clock.NewTime | app/src/main/java/com/algorithm/Time.java:11-19 | as written: the hour is stored only when it is in 0..23, otherwise 0; every non-negative minute is stored, a negative one leaves 0 |
| Clock.NewTimeAcceptsOversizedMinute | app/src/main/java/com/algorithm/Time.java:16 | `Time(9, 75)` stores minute 75, which is not a clock value |
| Clock.NewClock | app/src/main/java/com/algorithm/Time.java:11-19 | as intended: every result is a clock value; each field is kept when in range; the value is kept exactly when it is a clock value |
| Clock.CopyTime | app/src/main/java/com/algorithm/Time.java:21-24 | the copy is `equals` to the original and compares 0 with it |
| Clock.JavaDiv | app/src/main/java/com/algorithm/Time.java:36 | Java's truncating `/` by a positive divisor: the quotient has the dividend's sign, and its magnitude times the divisor is at most the dividend's magnitude, which is less than one more divisor |
| Clock.WholeDivisors | app/src/main/java/com/algorithm/Time.java:36 | for a non-negative dividend the quotient counts the whole divisors in it |
| Clock.JavaRem | app/src/main/java/com/algorithm/Time.java:36-37 | Java's truncating `%`: quotient times divisor plus remainder is the dividend, and the remainder has the dividend's sign |
| Clock.AddTime | app/src/main/java/com/algorithm/Time.java:32-39 | as written: the length in minutes of the sum is the sum of the lengths; the minute is normalised and the hour non-negative for non-negative operands |
| Clock.AddTimePassesMidnight | app/src/main/java/com/algorithm/Time.java:37 | 23:30 + 1:00 gives 24:30, which is not a clock value |
| Clock.AddClock | app/src/main/java/com/algorithm/Time.java:32-39 | as intended: the sum of two clock values is a clock value whose length is the sum of the lengths modulo one day |
| Clock.WrapsAtMidnight | app/src/main/java/com/algorithm/Time.java:37 | reducing the hour modulo 24 reduces the length modulo 1440 minutes |
| Clock.SubstractTime | app/src/main/java/com/algorithm/Time.java:42-53 | as written: with a borrow the result measures the difference; without one the hour is 0 and the minute the difference of minutes; normalised inputs give a normalised minute |
| Clock.SubstractTimeDropsHours | app/src/main/java/com/algorithm/Time.java:45-47 | 10:30 - 9:00 gives 0:30, whose length is not the difference of the lengths |
| Clock.SubtractTime | app/src/main/java/com/algorithm/Time.java:42-53 | as intended: the length of the result is the difference of the lengths, in both branches; normalised inputs give a normalised minute |
| Clock.Equals | app/src/main/java/com/algorithm/Time.java:91-104 | `equals` holds exactly when hour and minute are equal |
| Clock.CompareTime | app/src/main/java/com/algorithm/Time.java:61-79 | the result is -1, 0 or 1; -1 exactly when earlier in (hour, minute) order, 1 exactly when later, 0 exactly when `equals` holds |
| Clock.CompareAntisymmetric | app/src/main/java/com/algorithm/Time.java:61-79 | comparing b with a gives the negated result of comparing a with b |
| Clock.CompareTransitive | app/src/main/java/com/algorithm/Time.java:61-79 | "not later" and "earlier" chain transitively |
| Clock.CompareAgreesWithTotal | app/src/main/java/com/algorithm/Time.java:61-79 | on values with a normalised minute, comparing is comparing lengths in minutes |
| Slices.OverlapSymmetric | app/src/main/java/com/algorithm/CSP_Solver.java:336 | overlap does not depend on the order of the two slices |
| Slices.BeforeExcludesOverlap | app/src/main/java/com/algorithm/CSP_Solver.java:108-118 | a slice that precedes another overlaps it in neither order |
| Slices.SortByStart | app/src/main/java/com/algorithm/CSP_Solver.java:331 | `Collections.sort` of the fixed slices: a permutation of the input, sorted by start time |
| Slices.AdjacentCheckComplete | app/src/main/java/com/algorithm/CSP_Solver.java:333-340 | in a list of non-empty slices sorted by start, if no adjacent pair overlaps then no pair overlaps |
| Assignments.SortById | app/src/main/java/com/algorithm/CSP_Solver.java:416 | `Collections.sort` of an assignment: a permutation of it, sorted by task id |
| Assignments.CanonicalIsById | app/src/main/java/com/algorithm/CSP_Solver.java:413-416 | sorting a complete assignment made along a traversal order puts task k at position k with its bound slice |
| Graph.SupportsMeansPrecedence | app/src/main/java/com/algorithm/CSP_Solver.java:108-118 | on a well-formed graph, when u precedes v the direction test holds exactly when u's slice is before v's, and when v precedes u exactly when v's slice is before u's |
| Domains.Owner | app/src/main/java/com/algorithm/CSP_Solver.java:95 | every flat slot index belongs to exactly one task's domain |
| Domains.CountTrueShrinks | app/src/main/java/com/algorithm/CSP_Solver.java:62-85 | clearing flags never raises the number of available slots, and clearing a set flag lowers it |
| Domains.ClearedCompose | app/src/main/java/com/algorithm/CSP_Solver.java:245-281 | what two clearing passes clear of a task is the union of what each clears |
| Domains.ClearedOutside | app/src/main/java/com/algorithm/CSP_Solver.java:93-127 | a pass confined to u's domain clears nothing of any other task |
| Domains.NothingClearedSame | app/src/main/java/com/algorithm/CSP_Solver.java:93-127 | a clearing pass confined to u that cleared nothing changed nothing |
| Domains.ClearedPrefixAvail | app/src/main/java/com/algorithm/CSP_Solver.java:99-125 | such a loop only clears, only inside u, and clears exactly the available slots of u below m that are in the set to clear |
| Domains.ClearedPrefixEnds | app/src/main/java/com/algorithm/CSP_Solver.java:99-125 | before the first round nothing is cleared; after the last, the reported set is what the loop cleared |
| Domains.ClearedPrefixStep | app/src/main/java/com/algorithm/CSP_Solver.java:100-124 | round m clears slot m exactly when it is available and to be cleared, and reports it |
| Domains.ClearRound | app/src/main/java/com/algorithm/CSP_Solver.java:100-124 | one round of the loop takes its state after m rounds to its state after m + 1 |
| Domains.BlocksDisjoint | app/src/main/java/com/algorithm/CSP_Solver.java:95-96 | the domains of two different tasks do not share a slot |
| Domains.Revise | app/src/main/java/com/algorithm/CSP_Solver.java:93-127 | revising arc (u, v) only clears, only in u; a slot of u stays available exactly when it was and some available slot of v supports it; afterwards the arc is consistent |
| Domains.UnsupportedNow | app/src/main/java/com/algorithm/CSP_Solver.java:103-119 | while u's slots are being cleared, a slot of u is unsupported exactly when no slot of v available now supports it |
| Domains.ReviseClearsUnsupported | app/src/main/java/com/algorithm/CSP_Solver.java:99-125 | revising (u, v) is the slot-by-slot pass over u that clears the unsupported slots |
| Domains.BlockOutside | app/src/main/java/com/algorithm/CSP_Solver.java:95-96 | no slot of v's domain lies in u's |
| Domains.SupportUnchanged | app/src/main/java/com/algorithm/CSP_Solver.java:103-119 | whether v supports a slice depends only on v's flags |
| Domains.ArcConsistentShrinks | app/src/main/java/com/algorithm/CSP_Solver.java:62-85 | clearing flags of u while leaving v alone keeps arc (u, v) consistent |
| Domains.RecordRevision | app/src/main/java/com/algorithm/CSP_Solver.java:74-75 | recording a non-empty revision result under u keeps the record a non-empty part of what each task lost |
| Domains.OneTaskPass | app/src/main/java/com/algorithm/CSP_Solver.java:74-75 | a pass confined to u leaves what other tasks lost unchanged, and adds to u what it cleared |
| Domains.RevisionProgress | app/src/main/java/com/algorithm/CSP_Solver.java:74-82 | a revision that cleared something lowers the number of available slots; one that cleared nothing changed nothing (the termination measure of the queue loop) |
| Domains.NeighbourArcs | app/src/main/java/com/algorithm/CSP_Solver.java:76-80 | the queued arcs are exactly the arcs (w, u) for the neighbours w of u, one per neighbour |
| Domains.ConsistencyRound | app/src/main/java/com/algorithm/CSP_Solver.java:67-83 | one round of the queue loop keeps the invariant: every arc seen and no longer queued is consistent |
| Domains.ReviseKeepsConsistentSub | app/src/main/java/com/algorithm/CSP_Solver.java:93-127 | a revision of (u, v) removes no slot of a sub-table of the flags that is consistent on (u, v) |
| Domains.ReviseKeepsConsistentSubs | app/src/main/java/com/algorithm/CSP_Solver.java:62-85 | each revision of the queue loop keeps every sub-table of the starting flags that is consistent on all arcs between neighbours |
| Domains.ReviseAgainstEffect | app/src/main/java/com/algorithm/CSP_Solver.java:163-191 | that check only clears, only in u, and keeps exactly the available slots of u that pass the precedence test against the bound slice |
| Domains.FailingSlot | app/src/main/java/com/algorithm/CSP_Solver.java:173-183 | a slot of u fails exactly when the direction test rejects it against the bound slice |
| Domains.ReviseAgainstClearsFailing | app/src/main/java/com/algorithm/CSP_Solver.java:169-189 | the check is the slot-by-slot pass over u that clears the failing slots |
| Domains.DirectedRound | app/src/main/java/com/algorithm/CSP_Solver.java:140-152 | one round of the directed loop keeps its facts: flags only cleared; the record covers what was cleared; exact when the arcs come from different tasks |
| Domains.PrecedencePruned | app/src/main/java/com/algorithm/CSP_Solver.java:163-191 | the precedence pass only clears, and a slot stays available exactly when it was and, for a source task, passes the test against the bound slice |
| Domains.DirectedCheckedIsPruned | app/src/main/java/com/algorithm/CSP_Solver.java:135-154 | checking the arcs (w, id) one after another is the precedence pass over the set of their sources, in any order |
| Domains.PrecedencePrunedStep | app/src/main/java/com/algorithm/CSP_Solver.java:148 | checking one more source extends the precedence pass to it |
| Domains.Pruned | app/src/main/java/com/algorithm/CSP_Solver.java:356-364 | pruning a set of tasks against a slice only clears, and a slot stays available exactly when it was and does not overlap the slice if its task is in the set |
| Domains.PrunedNone | app/src/main/java/com/algorithm/CSP_Solver.java:356 | pruning no task changes nothing |
| Domains.PrunedAdd | app/src/main/java/com/algorithm/CSP_Solver.java:356-364 | pruning one more task is the slot-by-slot pass over it that clears the overlapping slots |
| Domains.OverlapPruned | app/src/main/java/com/algorithm/CSP_Solver.java:198-222 | the overlap pass only clears; a slot stays available exactly when it was and, for an unvisited task other than id, does not overlap id's slice |
| Domains.OverlapSkip | app/src/main/java/com/algorithm/CSP_Solver.java:206 | skipping id or a visited task keeps the overlap loop's invariant |
| Domains.OverlapRound | app/src/main/java/com/algorithm/CSP_Solver.java:207-219 | pruning an unvisited task and recording what it lost keeps the overlap loop's invariant |
| Domains.RelatedArcsPruned | app/src/main/java/com/algorithm/CSP_Solver.java:252-254 | checking the related arcs of id is the precedence pass over id's unvisited neighbours |
| Domains.ForwardCheckedEffect | app/src/main/java/com/algorithm/CSP_Solver.java:245-281 | forward checking only clears, never touches id or a visited task, and every slot it keeps overlaps nothing bound to id and passes the precedence test against it |
| Domains.ForwardRecord | app/src/main/java/com/algorithm/CSP_Solver.java:256-277 | the union of the two passes' records has an entry exactly for each unvisited task other than id, holding exactly what it lost; no other task lost anything |
| Domains.ForwardEntry | app/src/main/java/com/algorithm/CSP_Solver.java:258-276 | the same, for one task |
| Domains.ForwardTaskLoss | app/src/main/java/com/algorithm/CSP_Solver.java:254-255 | what a task loses to forward checking is what it loses to each pass; only unvisited tasks other than id lose anything |
| Domains.Repealed | app/src/main/java/com/algorithm/CSP_Solver.java:286-298 | undoing a record sets exactly the recorded slots available and changes nothing else |
| Domains.RepealRestores | app/src/main/java/com/algorithm/CSP_Solver.java:245-298 | undo after do is the identity: repealing an exact record of a clearing pass gives back the flags from before it |
| Domains.ExcludeFixed | app/src/main/java/com/algorithm/CSP_Solver.java:347-366 | a slot stays available exactly when it was and, for a flexible task, overlaps no fixed task's slot |
| Domains.ExcludeFixedNone | app/src/main/java/com/algorithm/CSP_Solver.java:354 | with no fixed task nothing is excluded |
| Domains.ExcludeFixedAdd | app/src/main/java/com/algorithm/CSP_Solver.java:354-365 | excluding one more fixed task is pruning the flexible tasks against its slot |
| Domains.RepealedEmptyEntry | app/src/main/java/com/algorithm/CSP_Solver.java:292 | an empty entry repeals nothing |
| Domains.RepealedNone | app/src/main/java/com/algorithm/CSP_Solver.java:289 | an empty record repeals nothing |
| Domains.RepealedCompose | app/src/main/java/com/algorithm/CSP_Solver.java:289-297 | a record can be repealed one task entry at a time |
| Domains.RepealedAddIndex | app/src/main/java/com/algorithm/CSP_Solver.java:292-296 | repealing one more index of a task sets that one slot available |
| Domains.RepealedAddIndexAt | app/src/main/java/com/algorithm/CSP_Solver.java:292-296 | the same, slot by slot |
| Domains.RepealedOneMore | app/src/main/java/com/algorithm/CSP_Solver.java:292-296 | the same for a record of a single task |
| Domains.FlagsEqual | app/src/main/java/com/algorithm/CSP_Solver.java:286-298 | two flag tables that agree on every slot of every task are equal |
| Instance.StepLadder | app/src/main/java/com/algorithm/CSP_Solver.java:497-503 | six granularities, each a positive clock value, strictly decreasing |
| Instance.AdjacentOverlapFound | app/src/main/java/com/algorithm/CSP_Solver.java:333-338 | an overlapping adjacent pair in the list of fixed tasks is an overlap between two fixed tasks |
| Instance.NoAdjacentOverlapNone | app/src/main/java/com/algorithm/CSP_Solver.java:330-340 | non-empty fixed slices sorted by start with no overlapping adjacent pair have no overlapping pair |
| Instance.FewFixedNoOverlap | app/src/main/java/com/algorithm/CSP_Solver.java:323-325 | at most one fixed task means no overlap between fixed tasks |
| Instance.SortedListsFixed | app/src/main/java/com/algorithm/CSP_Solver.java:331 | sorting the list of fixed tasks keeps every fixed task exactly once |
| Instance.BindKeepsBound | app/src/main/java/com/algorithm/CSP_Solver.java:434-442 | binding an unvisited task to an available slot keeps the bound slices pairwise non-overlapping, precedence-respecting and fixed tasks at their fixed slice |
| Instance.BindKeepsApart | app/src/main/java/com/algorithm/CSP_Solver.java:434-442 | the new binding overlaps no bound slice |
| Instance.BindKeepsOrdered | app/src/main/java/com/algorithm/CSP_Solver.java:434-442 | the new binding respects every precedence edge with a bound task |
| Instance.BindKeepsDomains | app/src/main/java/com/algorithm/CSP_Solver.java:441-448 | after clearing the chosen slot and forward checking, no available slot of an unvisited task conflicts with a bound slice |
| Instance.BindKeepsConsistent | app/src/main/java/com/algorithm/CSP_Solver.java:434-448 | binding, clearing the slot and forward checking keeps the search invariant |
| Instance.Record | app/src/main/java/com/algorithm/CSP_Solver.java:435-439 | the assignment list keeps its first `count` entries, holds the new one at `count`, and grows only when it was no longer than `count` |
| Instance.BindKeepsSearch | app/src/main/java/com/algorithm/CSP_Solver.java:434-451 | one binding step takes the search state at position `count` to the search state at `count + 1` |
| Instance.VisitNext | app/src/main/java/com/algorithm/CSP_Solver.java:442 | marking the task at position `count` visited extends the visited prefix of the order by one |
| Instance.RecordNext | app/src/main/java/com/algorithm/CSP_Solver.java:435-440 | recording the binding extends the recorded prefix by one |
| Instance.IterationRestores | app/src/main/java/com/algorithm/CSP_Solver.java:441-461 | one round of the search loop leaves the flags as it found them: setting the slot back and repealing the record undoes clearing it and forward checking |
| Instance.PassRestores | app/src/main/java/com/algorithm/CSP_Solver.java:453-461 | the same for any pass that only cleared flags of other tasks and was recorded exactly |
| Instance.CompleteIsSolution | app/src/main/java/com/algorithm/CSP_Solver.java:413-416 | a complete assignment made under the search invariant, sorted by task id, is a solution |
| Instance.AllVisited | app/src/main/java/com/algorithm/CSP_Solver.java:413 | when every position of a traversal order is visited, every task is |
| Instance.AddSolution | app/src/main/java/com/algorithm/CSP_Solver.java:417-418 | appending a solution not stored yet keeps the stored solutions solutions and pairwise different |
| Instance.BoundIsSolution | app/src/main/java/com/algorithm/CSP_Solver.java:413-416 | consistent bound slices for every task, listed by task id, form a solution |
| Solver.CspSolver.constructor | app/src/main/java/com/algorithm/CSP_Solver.java:28-40 | empty assignment, map and solution list, cap 5 |
| Solver.CspSolver.WithCap | app/src/main/java/com/algorithm/CSP_Solver.java:42-54 | empty assignment, map and solution list, the given cap |
| Solver.CspSolver.FindSupport | app/src/main/java/com/algorithm/CSP_Solver.java:103-119 | reports exactly whether some available slot of v supports the slice |
| Solver.CspSolver.MarkInconsistentValues | app/src/main/java/com/algorithm/CSP_Solver.java:93-127 | leaves the flags `Revise` describes; the reported set is exactly what u lost; returns true exactly when something was cleared |
| Solver.CspSolver.ReviseSlot | app/src/main/java/com/algorithm/CSP_Solver.java:100-124 | clears slot i of u exactly when it is available and unsupported, and nothing else |
| Solver.CspSolver.EnqueueNeighbours | app/src/main/java/com/algorithm/CSP_Solver.java:76-80 | appends the arcs (w, u) for u's neighbours, in list order |
| Solver.CspSolver.ConstraintConsistencyCheck | app/src/main/java/com/algorithm/CSP_Solver.java:62-85 | terminates; never re-enables a slot; clears only unsupported slots: every sub-table of the starting flags that is consistent on all arcs between neighbours is still available; every seed arc is consistent on return; the record is a non-empty part of what each task lost |
| Solver.CspSolver.MarkInconsistentValues2 | app/src/main/java/com/algorithm/CSP_Solver.java:163-191 | leaves the flags `ReviseAgainst` describes; the reported set is exactly what u lost; returns true exactly when something was cleared |
| Solver.CspSolver.CheckSlotAgainst | app/src/main/java/com/algorithm/CSP_Solver.java:170-188 | clears slot i of u exactly when it is available and fails the test against the bound slice |
| Solver.CspSolver.DirectedConstraintCheck | app/src/main/java/com/algorithm/CSP_Solver.java:135-154 | leaves the flags `DirectedChecked` describes; the record covers what was cleared, and is exact when the arcs come from different tasks |
| Solver.CspSolver.ClearOverlapping | app/src/main/java/com/algorithm/CSP_Solver.java:210-218 | clears exactly the available slots of t that overlap the slice, and reports them |
| Solver.CspSolver.DirectedCheckAndMarkOverlap | app/src/main/java/com/algorithm/CSP_Solver.java:198-222 | leaves the flags `OverlapPruned` describes; the record has an entry, possibly empty, for exactly the unvisited tasks other than id, holding exactly what each lost |
| Solver.CspSolver.GetRelatedArcs | app/src/main/java/com/algorithm/CSP_Solver.java:227-239 | the arcs (w, u) for exactly the unvisited neighbours w of u, one per neighbour |
| Solver.CspSolver.UnionChangeSets | app/src/main/java/com/algorithm/CSP_Solver.java:256-277 | an entry for every task with an entry in either record, holding the union of the two |
| Solver.CspSolver.UpdateRelatedDomainMark | app/src/main/java/com/algorithm/CSP_Solver.java:245-281 | leaves the flags `ForwardChecked` describes; the record has an entry for exactly the unvisited tasks other than id and records exactly what every task lost |
| Solver.CspSolver.RepealDomainMarkUpdate | app/src/main/java/com/algorithm/CSP_Solver.java:286-298 | leaves the flags `Repealed` describes |
| Solver.CspSolver.RepealIndices | app/src/main/java/com/algorithm/CSP_Solver.java:292-296 | sets back exactly the given slots of one task |
| Solver.CspSolver.InitializeDomains | app/src/main/java/com/algorithm/CSP_Solver.java:304-314 | installs the domains of the k-th step with every slot available |
| Solver.CspSolver.IsFixedTaskOverlap | app/src/main/java/com/algorithm/CSP_Solver.java:320-341 | true only when two fixed tasks overlap; when every fixed slice is non-empty, true whenever two fixed tasks overlap |
| Solver.CspSolver.AdjacentOverlap | app/src/main/java/com/algorithm/CSP_Solver.java:333-340 | finds an overlapping adjacent pair exactly when there is one |
| Solver.CspSolver.CollectFixedIds | app/src/main/java/com/algorithm/CSP_Solver.java:326-329 | lists every fixed task exactly once |
| Solver.CspSolver.MarkOverlappingDomain | app/src/main/java/com/algorithm/CSP_Solver.java:347-366 | leaves the flags `ExcludeFixed` describes |
| Solver.CspSolver.MarkFlexibleOverlapping | app/src/main/java/com/algorithm/CSP_Solver.java:356-364 | leaves the flags `Pruned` describes for the flexible tasks |
| Solver.CspSolver.MarkOverlapsWith | app/src/main/java/com/algorithm/CSP_Solver.java:358-363 | marks unavailable exactly the slots of t that overlap the slice |
| Solver.CspSolver.IsEqualArrayList | app/src/main/java/com/algorithm/CSP_Solver.java:370-381 | true exactly when the two lists are equal |
| Solver.CspSolver.IsDuplicatedSolution | app/src/main/java/com/algorithm/CSP_Solver.java:385-392 | true exactly when the list is already stored |
| Solver.CspSolver.DeepCopyArrayList | app/src/main/java/com/algorithm/CSP_Solver.java:394-402 | the copy equals the list |
| Solver.CspSolver.SearchSolutions | app/src/main/java/com/algorithm/CSP_Solver.java:407-463 | every stored solution is a solution and none is stored twice; the cap is never passed; the solution list only grows; flags, visited marks and bound slices end as they began; with the cap reached nothing changes |
| Solver.CspSolver.StoreSolution | app/src/main/java/com/algorithm/CSP_Solver.java:413-421 | the sorted assignment ends up stored, appended exactly when it was not stored yet; stored solutions stay solutions and distinct |
| Solver.CspSolver.BindAndSearch | app/src/main/java/com/algorithm/CSP_Solver.java:430-461 | one round of the loop leaves flags, visited marks and bound slices as it found them and keeps the stored solutions valid and within the cap |
| Solver.CspSolver.SearchThenUnbind | app/src/main/java/com/algorithm/CSP_Solver.java:451-461 | searching on and undoing the binding restores the flags, visited marks and map from before the binding |
| Solver.CspSolver.BindSlot | app/src/main/java/com/algorithm/CSP_Solver.java:435-448 | records the binding at position `count`, clears the slot, marks the task visited and leaves the flags `ForwardChecked` describes, with an exact record |
| Solver.CspSolver.RecordBinding | app/src/main/java/com/algorithm/CSP_Solver.java:435-442 | the list and map take the slice, the slot becomes unavailable, the task visited; nothing else changes |
| Solver.CspSolver.UnbindSlot | app/src/main/java/com/algorithm/CSP_Solver.java:453-461 | restores the flags, visited marks and map from before the binding |
| Solver.CspSolver.NewVisited | app/src/main/java/com/algorithm/CSP_Solver.java:492-495 | every task starts unvisited |
| Solver.CspSolver.SearchAtStep | app/src/main/java/com/algorithm/CSP_Solver.java:505-514 | one granularity step keeps the stored solutions valid and within the cap and leaves no task bound or visited |
| Solver.CspSolver.GetSolutions | app/src/main/java/com/algorithm/CSP_Solver.java:468-522 | returns the stored solutions, each a solution, pairwise different and within the cap; returns them unchanged when the task sets do not cover the tasks, on overtime, with no tasks, conflicting constraints or no topological order, and (when every fixed slice is non-empty) when two fixed tasks overlap |

## Left out

- `solutionsString` and `printSolutions`: string formatting and console output.
- `Time.hashCode`: int arithmetic with no behavioural promise.
- `Time` getters and setters: fields of the datatype and the values built from them.
- Java's 32-bit `int` is unbounded here. Hours, minutes, counts and the cap never wrap.
- `ConstraintGraph`, `GetTopologicalSort`, `Task.initializeDomainSet`, `TimeSlice`, `TaskAssignment` and `CSP` are not part of this model. The problem record `Instance.Csp` gives their results as inputs: the graph, the fixed and flexible id sets, the fixed slices, the over-time and conflict flags, the traversal order and the domain table of each step.
- Solver.CspSolver.InitializeDomains: the Java code rebuilds flexible domains and resets the one slot of each fixed task in place. The model installs a fresh flag array for the step's domain table, all available.
- `HashMap` and `HashSet` iteration order and object identity. Sets and maps are Dafny values. `CollectFixedIds` lists the fixed tasks in an arbitrary order, and `visited` is an array indexed by task.
- Aliasing between `TimeSlice` objects in domains, `assignment` and `assignedMap`. Slices are values here, so a deep copy equals its original.
- Solver.CspSolver.SearchSolutions: states soundness (stored solutions are solutions, distinct, within the cap) and restoration of state. It does not state completeness, that is, that every solution reachable along the order is found before the cap is hit.
- Solver.CspSolver.GetSolutions: the same. It does not state that a solvable problem yields a solution.
- Solver.CspSolver.IsFixedTaskOverlap: that every overlap between fixed tasks is reported is proved only when every fixed slice starts before it ends, because the adjacent-pair check relies on that.
- Solver.CspSolver.ConstraintConsistencyCheck: the record is stated as a non-empty part of each task's loss, because a later `put` for the same task replaces the earlier entry.
- Solver.CspSolver.ConstraintConsistencyCheck: the resulting flags are not given by a function of the old ones. The contract states that only unsupported slots go and that the seed arcs end consistent, but not that the result is the largest sub-table consistent on the seed arcs and on the arcs queued after them.
- The tests under app/src/test are not modelled.

## Findings

| source | as written | input that shows it | evidently intended | confidence | as-written member | corrected member |
|---|---|---|---|---|---|---|
| app/src/main/java/com/algorithm/Time.java:16 | the minute guard tests the field `minute` (still 0) instead of the parameter `m`, so any non-negative minute is stored | `new Time(9, 75)` stores 9:75 | store m only when 0 <= m < 60 | high, not executed | Clock.NewTimeAcceptsOversizedMinute | Clock.NewClock |
| app/src/main/java/com/algorithm/Time.java:37 | the hour of a sum is not reduced modulo 24 | 23:30 `addTime` 1:00 gives 24:30 | wrap at midnight, giving 0:30 | medium (the class doubles as a duration), not executed | Clock.AddTimePassesMidnight | Clock.AddClock |
| app/src/main/java/com/algorithm/Time.java:45-47 | without a borrow only the minute is set, so the hour of the fresh `Time(0,0)` stays 0 | 10:30 `substractTime` 9:00 gives 0:30 | 1:30, the hour difference set in both branches | high, not executed | Clock.SubstractTimeDropsHours | Clock.SubtractTime |
