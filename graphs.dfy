/**
 * Graphs whose vertices are the indices 0..n-1. An index is the identity of a
 * Vertex or Airport object, so "already visited" is reference equality, as the
 * HashSet in Build.java relies on.
 */
module Graphs {
  import opened Wrappers
  import opened Sequences

  /** Entry u lists, in order, the vertices that u points to. */
  type Adjacency = seq<seq<nat>>

  /** Every listed neighbour is a vertex (no null entry in a neighbour list). */
  predicate WellFormed(adj: Adjacency)
  {
    forall u :: 0 <= u < |adj| ==> Below(adj[u], |adj|)
  }

  /** The indices 0..n-1. */
  function Range(n: nat): (r: set<nat>)
    ensures forall u: nat :: u in r <==> u < n
  {
    if n == 0 then {} else Range(n - 1) + {n - 1}
  }

  /** All vertices of adj. */
  function Nodes(adj: Adjacency): (r: set<nat>)
    ensures forall u: nat :: u in r <==> u < |adj|
  {
    Range(|adj|)
  }

  /** Vertex<T> objects: vertex u holds data[u] (None for null) and the list neighbors[u]. */
  datatype Graph<T> = Graph(data: seq<Option<T>>, neighbors: Adjacency)
  {
    predicate Valid()
    {
      |data| == |neighbors| && WellFormed(neighbors)
    }
  }

  /** p is a non-empty walk along edges of adj. */
  ghost predicate IsPath(adj: Adjacency, p: seq<nat>)
  {
    && |p| > 0
    && (forall i :: 0 <= i < |p| ==> p[i] < |adj|)
    && (forall i :: 0 <= i < |p| - 1 ==> p[i + 1] in adj[p[i]])
  }

  /** t can be reached from s by following zero or more edges. */
  ghost predicate Reachable(adj: Adjacency, s: nat, t: nat)
  {
    exists p :: IsPath(adj, p) && p[0] == s && p[|p| - 1] == t
  }

  /** The vertices reachable from s. */
  ghost function ReachableSet(adj: Adjacency, s: nat): (r: set<nat>)
  {
    set u | u in Nodes(adj) && Reachable(adj, s, u)
  }

  lemma ReachableRefl(adj: Adjacency, s: nat)
    requires s < |adj|
    ensures Reachable(adj, s, s)
  {
    assert IsPath(adj, [s]);
  }

  /** Extending a walk by one edge at its end. */
  lemma ReachableStep(adj: Adjacency, s: nat, u: nat, w: nat)
    requires WellFormed(adj) && u < |adj| && w in adj[u]
    requires Reachable(adj, s, u)
    ensures Reachable(adj, s, w)
  {
    var p :| IsPath(adj, p) && p[0] == s && p[|p| - 1] == u;
    var q := p + [w];
    assert IsPath(adj, q) by {
      forall i | 0 <= i < |q| - 1 ensures q[i + 1] in adj[q[i]] {
        if i < |p| - 1 {
          assert q[i] == p[i] && q[i + 1] == p[i + 1];
        }
      }
    }
    assert q[0] == s && q[|q| - 1] == w;
  }

  /** Extending a walk by one edge at its start. */
  lemma ReachableViaEdge(adj: Adjacency, s: nat, w: nat, t: nat)
    requires s < |adj| && w in adj[s]
    requires Reachable(adj, w, t)
    ensures Reachable(adj, s, t)
  {
    var p :| IsPath(adj, p) && p[0] == w && p[|p| - 1] == t;
    var q := [s] + p;
    assert IsPath(adj, q) by {
      forall i | 0 <= i < |q| - 1 ensures q[i + 1] in adj[q[i]] {
        if i > 0 {
          assert q[i] == p[i - 1] && q[i + 1] == p[i];
        }
      }
    }
    assert q[0] == s && q[|q| - 1] == t;
  }

  /**
   * Every vertex of vis that is not open has all its neighbours in vis. During a
   * depth-first search the open vertices are those whose neighbour loop is still
   * running; with open == vis the predicate holds of any vis.
   */
  ghost predicate ClosedOutside(adj: Adjacency, vis: set<nat>, open: set<nat>)
  {
    forall u, w :: u in vis && u !in open && u < |adj| && w in adj[u] ==> w in vis
  }

  lemma {:induction false} PathStaysInside(adj: Adjacency, vis: set<nat>, p: seq<nat>, i: nat)
    requires ClosedOutside(adj, vis, {})
    requires IsPath(adj, p) && p[0] in vis && i < |p|
    ensures p[i] in vis
  {
    if i > 0 {
      PathStaysInside(adj, vis, p, i - 1);
      assert p[(i - 1) + 1] in adj[p[i - 1]];
    }
  }

  /** A set closed under edges that holds s holds everything reachable from s. */
  lemma ClosedContainsReachable(adj: Adjacency, vis: set<nat>, s: nat, t: nat)
    requires ClosedOutside(adj, vis, {})
    requires s in vis && Reachable(adj, s, t)
    ensures t in vis
  {
    var p :| IsPath(adj, p) && p[0] == s && p[|p| - 1] == t;
    PathStaysInside(adj, vis, p, |p| - 1);
  }
}
