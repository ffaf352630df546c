/** The constraint graph the solver reads (the `ConstraintGraph` class is not
    part of this model; only the shape the solver relies on is stated here).
    Tasks are numbered 0..n-1. `matrix[u][v] > 0` means u must end before v
    starts; `adj` is the undirected adjacency list used to propagate; `arcs`
    is the list of arcs that seeds the arc-consistency pass. */
module Graph {
  import opened Slices

  datatype Arc = Arc(u: nat, v: nat)

  datatype ConstraintGraph = ConstraintGraph(
    n: nat,
    matrix: seq<seq<int>>,
    adj: seq<seq<nat>>,
    arcs: seq<Arc>)

  predicate Shaped(g: ConstraintGraph) {
    && |g.matrix| == g.n
    && (forall u :: 0 <= u < g.n ==> |g.matrix[u]| == g.n)
    && |g.adj| == g.n
  }

  /** u must end before v starts. */
  predicate Precedes(g: ConstraintGraph, u: nat, v: nat)
    requires Shaped(g) && u < g.n && v < g.n
  {
    g.matrix[u][v] > 0
  }

  /** An arc the propagation may be asked to revise: two distinct tasks that
      are neighbours in the undirected list. */
  predicate ArcOk(g: ConstraintGraph, a: Arc)
    requires Shaped(g)
  {
    a.u < g.n && a.v < g.n && a.u != a.v && a.u in g.adj[a.v]
  }

  /** The well-formedness the solver assumes of the graph it is given:
      neighbours are task ids other than the task itself, listed once; every
      precedence edge appears in both adjacency lists and is not paired with
      the reverse edge; every seed arc joins neighbours. */
  ghost predicate GraphOk(g: ConstraintGraph) {
    && Shaped(g)
    && (forall u, k :: 0 <= u < g.n && 0 <= k < |g.adj[u]| ==> g.adj[u][k] < g.n && g.adj[u][k] != u)
    && (forall u, i, j :: 0 <= u < g.n && 0 <= i < j < |g.adj[u]| ==> g.adj[u][i] != g.adj[u][j])
    && (forall x, y :: 0 <= x < g.n && 0 <= y < g.n && Precedes(g, x, y) ==>
          x != y && y in g.adj[x] && x in g.adj[y] && !Precedes(g, y, x))
    && (forall a :: a in g.arcs ==> ArcOk(g, a))
  }

  /** The test `markInconsistentValues` and `markInconsistentValues2` apply
      to a slice `su` of u against a slice `sv` of v: the direction is taken
      from `matrix[u][v] > 0`, and otherwise the edge is read as v -> u. */
  predicate Supports(g: ConstraintGraph, u: nat, v: nat, su: Slice, sv: Slice)
    requires Shaped(g) && u < g.n && v < g.n
  {
    if Precedes(g, u, v) then IsBefore(su, sv) else IsBefore(sv, su)
  }

  /** On a well-formed graph the test is exactly the precedence constraint
      between the two tasks, whichever way it points. */
  lemma SupportsMeansPrecedence(g: ConstraintGraph, u: nat, v: nat, su: Slice, sv: Slice)
    requires GraphOk(g) && u < g.n && v < g.n
    ensures Precedes(g, u, v) ==> (Supports(g, u, v, su, sv) <==> IsBefore(su, sv))
    ensures Precedes(g, v, u) ==> (Supports(g, u, v, su, sv) <==> IsBefore(sv, su))
  {
  }
}
