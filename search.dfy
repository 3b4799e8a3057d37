/**
 * The depth-first search shared by every helper of Build.java, as a function:
 * an early return on a visited vertex, otherwise mark it, then visit each
 * neighbour in list order with the visited set threaded from one to the next.
 */
module Search {
  import opened Sequences
  import opened Graphs

  /** The visited set after a search, and the vertices the search entered, in entry order. */
  datatype Trace = Trace(visited: set<nat>, order: seq<nat>)

  /** Depth-first search from v that starts with the set vis already visited. */
  function Visit(adj: Adjacency, v: nat, vis: set<nat>): (t: Trace)
    requires WellFormed(adj) && v < |adj|
    ensures vis <= t.visited
    ensures Below(t.order, |adj|)
    decreases Nodes(adj) - vis, 0
  {
    if v in vis then Trace(vis, [])
    else
      var rest := VisitFrom(adj, adj[v], 0, vis + {v});
      Trace(rest.visited, [v] + rest.order)
  }

  /** Searches from ns[i], ns[i+1], ... in turn, each starting from the set the previous one left. */
  function VisitFrom(adj: Adjacency, ns: seq<nat>, i: nat, vis: set<nat>): (t: Trace)
    requires WellFormed(adj) && i <= |ns|
    requires Below(ns, |adj|)
    ensures vis <= t.visited
    ensures Below(t.order, |adj|)
    decreases Nodes(adj) - vis, 1, |ns| - i
  {
    if i == |ns| then Trace(vis, [])
    else
      var first := Visit(adj, ns[i], vis);
      var rest := VisitFrom(adj, ns, i + 1, first.visited);
      Trace(rest.visited, first.order + rest.order)
  }

  /** The preorder of a search from r with a fresh, empty visited set. */
  function Preorder(adj: Adjacency, r: nat): (o: seq<nat>)
    requires WellFormed(adj) && r < |adj|
  {
    Visit(adj, r, {}).order
  }

  /**
   * The state of a helper's neighbour loop before neighbour i: done is what
   * the searches from ns[..i] entered, m the visited set they left, and
   * searching from ns[i..] with m completes rest.
   */
  ghost predicate Pending(adj: Adjacency, ns: seq<nat>, i: nat, m: set<nat>, done: seq<nat>, rest: Trace)
    requires WellFormed(adj) && i <= |ns| && Below(ns, |adj|)
  {
    && VisitFrom(adj, ns, i, m).visited == rest.visited
    && done + VisitFrom(adj, ns, i, m).order == rest.order
  }

  /** Entering a vertex: mark it, then search from its neighbours. */
  lemma VisitEnter(adj: Adjacency, v: nat, vis: set<nat>)
    requires WellFormed(adj) && v < |adj| && v !in vis
    ensures Pending(adj, adj[v], 0, vis + {v}, [], VisitFrom(adj, adj[v], 0, vis + {v}))
    ensures Visit(adj, v, vis).visited == VisitFrom(adj, adj[v], 0, vis + {v}).visited
    ensures Visit(adj, v, vis).order == [v] + VisitFrom(adj, adj[v], 0, vis + {v}).order
  {
  }

  /** One turn of a neighbour loop: the search from ns[i] moves the loop state on. */
  lemma Advance(adj: Adjacency, ns: seq<nat>, i: nat, m: set<nat>, done: seq<nat>, rest: Trace)
    requires WellFormed(adj) && i < |ns| && Below(ns, |adj|)
    requires Pending(adj, ns, i, m, done, rest)
    ensures Pending(adj, ns, i + 1, Visit(adj, ns[i], m).visited, done + Visit(adj, ns[i], m).order, rest)
  {
  }

  /** After the last neighbour the loop state is the completed search. */
  lemma Finish(adj: Adjacency, ns: seq<nat>, m: set<nat>, done: seq<nat>, rest: Trace)
    requires WellFormed(adj) && Below(ns, |adj|)
    requires Pending(adj, ns, |ns|, m, done, rest)
    ensures m == rest.visited && done == rest.order
  {
    assert done + [] == done;
  }

  /**
   * A search enters only vertices outside vis, each once, and adds exactly
   * those to the visited set; v itself ends up visited.
   */
  lemma {:induction false} VisitShape(adj: Adjacency, v: nat, vis: set<nat>)
    requires WellFormed(adj) && v < |adj|
    ensures Visit(adj, v, vis).visited == vis + Elems(Visit(adj, v, vis).order)
    ensures Distinct(Visit(adj, v, vis).order)
    ensures forall u :: u in Visit(adj, v, vis).order ==> u !in vis
    ensures v in Visit(adj, v, vis).visited
    decreases Nodes(adj) - vis, 0
  {
    if v !in vis {
      VisitFromShape(adj, adj[v], 0, vis + {v});
      var rest := VisitFrom(adj, adj[v], 0, vis + {v});
      DistinctAppend([v], rest.order);
      assert Elems([v] + rest.order) == {v} + Elems(rest.order);
    }
  }

  lemma {:induction false} VisitFromShape(adj: Adjacency, ns: seq<nat>, i: nat, vis: set<nat>)
    requires WellFormed(adj) && i <= |ns|
    requires Below(ns, |adj|)
    ensures VisitFrom(adj, ns, i, vis).visited == vis + Elems(VisitFrom(adj, ns, i, vis).order)
    ensures Distinct(VisitFrom(adj, ns, i, vis).order)
    ensures forall u :: u in VisitFrom(adj, ns, i, vis).order ==> u !in vis
    ensures forall j :: i <= j < |ns| ==> ns[j] in VisitFrom(adj, ns, i, vis).visited
    decreases Nodes(adj) - vis, 1, |ns| - i
  {
    if i < |ns| {
      var first := Visit(adj, ns[i], vis);
      VisitShape(adj, ns[i], vis);
      VisitFromShape(adj, ns, i + 1, first.visited);
      var rest := VisitFrom(adj, ns, i + 1, first.visited);
      DistinctAppend(first.order, rest.order);
      assert Elems(first.order + rest.order) == Elems(first.order) + Elems(rest.order);
    }
  }

  /**
   * Closure: if every finished vertex of vis had its neighbours visited before
   * the search, the same holds after it (the search finishes what it opens).
   */
  lemma {:induction false} VisitClosed(adj: Adjacency, v: nat, vis: set<nat>, open: set<nat>)
    requires WellFormed(adj) && v < |adj|
    requires ClosedOutside(adj, vis, open)
    ensures ClosedOutside(adj, Visit(adj, v, vis).visited, open)
    decreases Nodes(adj) - vis, 0
  {
    if v !in vis {
      var rest := VisitFrom(adj, adj[v], 0, vis + {v});
      VisitFromClosed(adj, adj[v], 0, vis + {v}, open + {v});
      VisitFromShape(adj, adj[v], 0, vis + {v});
      forall w | w in adj[v] ensures w in rest.visited {
        var j :| 0 <= j < |adj[v]| && adj[v][j] == w;
      }
    }
  }

  lemma {:induction false} VisitFromClosed(adj: Adjacency, ns: seq<nat>, i: nat, vis: set<nat>, open: set<nat>)
    requires WellFormed(adj) && i <= |ns|
    requires Below(ns, |adj|)
    requires ClosedOutside(adj, vis, open)
    ensures ClosedOutside(adj, VisitFrom(adj, ns, i, vis).visited, open)
    decreases Nodes(adj) - vis, 1, |ns| - i
  {
    if i < |ns| {
      var first := Visit(adj, ns[i], vis);
      VisitClosed(adj, ns[i], vis, open);
      VisitFromClosed(adj, ns, i + 1, first.visited, open);
    }
  }

  /** Soundness: a search from a vertex reachable from root enters only vertices reachable from root. */
  lemma {:induction false} VisitSound(adj: Adjacency, root: nat, v: nat, vis: set<nat>)
    requires WellFormed(adj) && v < |adj|
    requires Reachable(adj, root, v)
    ensures forall u :: u in Visit(adj, v, vis).order ==> Reachable(adj, root, u)
    decreases Nodes(adj) - vis, 0
  {
    if v !in vis {
      forall j | 0 <= j < |adj[v]| ensures Reachable(adj, root, adj[v][j]) {
        ReachableStep(adj, root, v, adj[v][j]);
      }
      VisitFromSound(adj, root, adj[v], 0, vis + {v});
    }
  }

  lemma {:induction false} VisitFromSound(adj: Adjacency, root: nat, ns: seq<nat>, i: nat, vis: set<nat>)
    requires WellFormed(adj) && i <= |ns|
    requires Below(ns, |adj|)
    requires forall j :: 0 <= j < |ns| ==> Reachable(adj, root, ns[j])
    ensures forall u :: u in VisitFrom(adj, ns, i, vis).order ==> Reachable(adj, root, u)
    decreases Nodes(adj) - vis, 1, |ns| - i
  {
    if i < |ns| {
      var first := Visit(adj, ns[i], vis);
      VisitSound(adj, root, ns[i], vis);
      VisitFromSound(adj, root, ns, i + 1, first.visited);
    }
  }

  /**
   * From an empty visited set the search enters r first, then every vertex
   * reachable from r exactly once, and nothing else.
   */
  lemma PreorderReachable(adj: Adjacency, r: nat)
    requires WellFormed(adj) && r < |adj|
    ensures |Preorder(adj, r)| > 0 && Preorder(adj, r)[0] == r
    ensures Distinct(Preorder(adj, r))
    ensures forall u :: u in Preorder(adj, r) <==> Reachable(adj, r, u)
    ensures Elems(Preorder(adj, r)) == ReachableSet(adj, r)
    ensures |Preorder(adj, r)| == |ReachableSet(adj, r)|
  {
    var t := Visit(adj, r, {});
    VisitShape(adj, r, {});
    VisitClosed(adj, r, {}, {});
    ReachableRefl(adj, r);
    VisitSound(adj, r, r, {});
    forall u | Reachable(adj, r, u) ensures u in t.order {
      ClosedContainsReachable(adj, t.visited, r, u);
    }
    assert Elems(t.order) == ReachableSet(adj, r);
    DistinctCard(t.order);
  }

  /**
   * Filtering the preorder by any set of vertices keeps each reachable member
   * of that set exactly once and nothing else.
   */
  lemma PreorderSelect(adj: Adjacency, r: nat, keep: set<nat>)
    requires WellFormed(adj) && r < |adj|
    ensures Distinct(Select(Preorder(adj, r), keep))
    ensures forall u :: u in Select(Preorder(adj, r), keep) <==> Reachable(adj, r, u) && u in keep
    ensures |Select(Preorder(adj, r), keep)| == |ReachableSet(adj, r) * keep|
  {
    var s := Select(Preorder(adj, r), keep);
    PreorderReachable(adj, r);
    SelectDistinct(Preorder(adj, r), keep);
    assert Elems(s) == ReachableSet(adj, r) * keep;
    DistinctCard(s);
  }
}
