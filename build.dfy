/**
 * The operations of the Build class. Each public operation checks for a null
 * root (canReach also answers true at once when start is destination),
 * allocates a fresh visited array and calls its helper, which marks vertices
 * in that array in place. The printing helpers return the lines they printed,
 * in order; dfsLongest returns its word and the airport search its answer.
 */
module Build {
  import opened Wrappers
  import opened Sequences
  import opened Graphs
  import opened Search

  /** The vertices a visited array holds. */
  function Marked(a: seq<bool>): (r: set<nat>)
  {
    set i: nat | i < |a| && a[i]
  }

  lemma MarkedNone(a: seq<bool>)
    requires forall i :: 0 <= i < |a| ==> !a[i]
    ensures Marked(a) == {}
  {
  }

  lemma MarkOne(a: seq<bool>, i: nat)
    requires i < |a|
    ensures Marked(a[i := true]) == Marked(a) + {i}
  {
  }

  // ---------------------------------------------------------------------
  // printShortWords

  /** Vertices whose data is non-null and strictly shorter than k characters. */
  function ShortSet(g: Graph<string>, k: int): (r: set<nat>)
  {
    set u: nat | u < |g.data| && g.data[u].Some? && |g.data[u].value| < k
  }

  /** A vertex's word, with null read as the empty string. */
  function Label(g: Graph<string>, u: nat): (s: string)
    requires u < |g.data|
  {
    match g.data[u]
    case Some(s) => s
    case None => ""
  }

  /** The lines a search that enters the vertices o, in that order, prints. */
  function ShortWords(g: Graph<string>, k: int, o: seq<nat>): (ws: seq<string>)
  {
    if o == [] then []
    else (if o[0] in ShortSet(g, k) then [g.data[o[0]].value] else []) + ShortWords(g, k, o[1..])
  }

  lemma {:induction false} ShortWordsAppend(g: Graph<string>, k: int, a: seq<nat>, b: seq<nat>)
    ensures ShortWords(g, k, a + b) == ShortWords(g, k, a) + ShortWords(g, k, b)
  {
    if a == [] {
      assert a + b == b;
    } else {
      assert (a + b)[1..] == a[1..] + b;
      ShortWordsAppend(g, k, a[1..], b);
    }
  }

  /** Entering one vertex prints its word exactly when it is non-null and shorter than k. */
  lemma ShortWordsOne(g: Graph<string>, k: int, u: nat)
    requires u < |g.data|
    ensures ShortWords(g, k, [u]) == if g.data[u].Some? && |g.data[u].value| < k then [g.data[u].value] else []
  {
    assert [u][1..] == [];
  }

  /** The i-th printed line is the word of the i-th short vertex entered. */
  lemma {:induction false} ShortWordsSelected(g: Graph<string>, k: int, o: seq<nat>)
    ensures |ShortWords(g, k, o)| == |Select(o, ShortSet(g, k))|
    ensures forall i :: 0 <= i < |Select(o, ShortSet(g, k))| ==>
              Select(o, ShortSet(g, k))[i] < |g.data| &&
              g.data[Select(o, ShortSet(g, k))[i]] == Some(ShortWords(g, k, o)[i])
  {
    if o != [] {
      ShortWordsSelected(g, k, o[1..]);
      var us, ws := Select(o[1..], ShortSet(g, k)), ShortWords(g, k, o[1..]);
      if o[0] in ShortSet(g, k) {
        assert Select(o, ShortSet(g, k)) == [o[0]] + us;
        assert ShortWords(g, k, o) == [g.data[o[0]].value] + ws;
      } else {
        assert Select(o, ShortSet(g, k)) == us;
        assert ShortWords(g, k, o) == ws;
      }
    }
  }

  /** Build.java's dfs(Vertex, int, Set): prints the short words met by the search from current. */
  method Dfs(g: Graph<string>, current: nat, k: int, visited: array<bool>) returns (printed: seq<string>)
    requires g.Valid() && current < |g.data| && visited.Length == |g.data|
    modifies visited
    ensures Marked(visited[..]) == Visit(g.neighbors, current, old(Marked(visited[..]))).visited
    ensures printed == ShortWords(g, k, Visit(g.neighbors, current, old(Marked(visited[..]))).order)
    ensures old(visited[current]) ==> printed == [] && visited[..] == old(visited[..])
    decreases Nodes(g.neighbors) - Marked(visited[..]), 0
  {
    if visited[current] {
      return [];
    }
    ghost var before := Marked(visited[..]);
    visited[current] := true;
    MarkOne(old(visited[..]), current);
    if g.data[current].Some? && |g.data[current].value| < k {
      printed := [g.data[current].value];
    } else {
      printed := [];
    }
    ShortWordsOne(g, k, current);
    var ns := g.neighbors[current];
    ghost var rest := VisitFrom(g.neighbors, ns, 0, before + {current});
    ghost var done: seq<nat> := [];
    ghost var m := Marked(visited[..]);
    VisitEnter(g.neighbors, current, before);
    var i := 0;
    while i < |ns|
      invariant 0 <= i <= |ns|
      invariant m == Marked(visited[..])
      invariant before + {current} <= m
      invariant Pending(g.neighbors, ns, i, m, done, rest)
      invariant printed == ShortWords(g, k, [current]) + ShortWords(g, k, done)
    {
      ghost var step := Visit(g.neighbors, ns[i], m);
      Advance(g.neighbors, ns, i, m, done, rest);
      var words := Dfs(g, ns[i], k, visited);
      ShortWordsAppend(g, k, done, step.order);
      AppendAssoc(ShortWords(g, k, [current]), ShortWords(g, k, done), words);
      printed := printed + words;
      done := done + step.order;
      m := step.visited;
      i := i + 1;
    }
    Finish(g.neighbors, ns, m, done, rest);
    ShortWordsAppend(g, k, [current], done);
  }

  /**
   * The lines printed from root are exactly the short non-null words of the
   * vertices reachable from root, one line per such vertex.
   */
  lemma ShortWordsFromRoot(g: Graph<string>, k: int, r: nat)
    requires g.Valid() && r < |g.data|
    ensures forall i :: 0 <= i < |ShortWords(g, k, Preorder(g.neighbors, r))| ==>
              |ShortWords(g, k, Preorder(g.neighbors, r))[i]| < k
    ensures forall s :: s in ShortWords(g, k, Preorder(g.neighbors, r)) ==>
              exists u: nat :: u < |g.data| && Reachable(g.neighbors, r, u) && g.data[u] == Some(s)
    ensures forall u: nat :: Reachable(g.neighbors, r, u) && u in ShortSet(g, k) ==>
              g.data[u].value in ShortWords(g, k, Preorder(g.neighbors, r))
    ensures |ShortWords(g, k, Preorder(g.neighbors, r))| == |ReachableSet(g.neighbors, r) * ShortSet(g, k)|
  {
    var ws := ShortWords(g, k, Preorder(g.neighbors, r));
    var us := Select(Preorder(g.neighbors, r), ShortSet(g, k));
    PreorderSelect(g.neighbors, r, ShortSet(g, k));
    ShortWordsSelected(g, k, Preorder(g.neighbors, r));
    forall i | 0 <= i < |ws| ensures |ws[i]| < k {
      assert us[i] in ShortSet(g, k);
    }
    forall s | s in ws
      ensures exists u: nat :: u < |g.data| && Reachable(g.neighbors, r, u) && g.data[u] == Some(s)
    {
      var i :| 0 <= i < |ws| && ws[i] == s;
      assert us[i] in us;
    }
    forall u: nat | Reachable(g.neighbors, r, u) && u in ShortSet(g, k) ensures g.data[u].value in ws {
      var i :| 0 <= i < |us| && us[i] == u;
      assert ws[i] == g.data[u].value;
    }
  }

  /** Build.java's printShortWords. */
  method PrintShortWords(g: Graph<string>, vertex: Option<nat>, k: int) returns (printed: seq<string>)
    requires g.Valid() && (vertex.Some? ==> vertex.value < |g.data|)
    ensures vertex.None? ==> printed == []
    ensures vertex.Some? ==> printed == ShortWords(g, k, Preorder(g.neighbors, vertex.value))
  {
    if vertex.None? {
      return [];
    }
    var visited := new bool[|g.data|](_ => false);
    MarkedNone(visited[..]);
    printed := Dfs(g, vertex.value, k, visited);
  }

  // ---------------------------------------------------------------------
  // longestWord

  /** The candidate that dfsLongest keeps: a later one replaces the current one only when strictly longer. */
  function Prefer(best: string, candidate: string): (kept: string)
  {
    if |candidate| > |best| then candidate else best
  }

  /** Keeping the better of three words does not depend on how they are grouped. */
  lemma PreferAssoc(a: string, b: string, c: string)
    ensures Prefer(Prefer(a, b), c) == Prefer(a, Prefer(b, c))
  {
  }

  /**
   * The word dfsLongest keeps over the entered vertices o: the first vertex's
   * word unless a later one is strictly longer.
   */
  function Longest(g: Graph<string>, o: seq<nat>): (w: string)
    requires Below(o, |g.data|)
  {
    if o == [] then "" else Prefer(Label(g, o[0]), Longest(g, o[1..]))
  }

  /** Folding a concatenation is folding its two halves and keeping the better result. */
  lemma {:induction false} LongestAppend(g: Graph<string>, a: seq<nat>, b: seq<nat>)
    requires Below(a, |g.data|) && Below(b, |g.data|)
    ensures Below(a + b, |g.data|)
    ensures Longest(g, a + b) == Prefer(Longest(g, a), Longest(g, b))
  {
    if a == [] {
      assert a + b == b;
    } else {
      assert (a + b)[0] == a[0];
      assert (a + b)[1..] == a[1..] + b;
      LongestAppend(g, a[1..], b);
      PreferAssoc(Label(g, a[0]), Longest(g, a[1..]), Longest(g, b));
    }
  }

  /**
   * The fold's result is at least as long as every entered vertex's word and
   * is the word of the first entered vertex of that maximal length ("" when
   * nothing was entered).
   */
  lemma {:induction false} LongestFirstMaximal(g: Graph<string>, o: seq<nat>)
    requires Below(o, |g.data|)
    ensures forall u :: u in o ==> |Label(g, u)| <= |Longest(g, o)|
    ensures o == [] ==> Longest(g, o) == ""
    ensures o != [] ==> exists j :: 0 <= j < |o| && Longest(g, o) == Label(g, o[j]) &&
                          forall i :: 0 <= i < j ==> |Label(g, o[i])| < |Longest(g, o)|
  {
    if o != [] {
      var x, o' := o[0], o[1..];
      assert o == [x] + o';
      LongestFirstMaximal(g, o');
      if |Longest(g, o')| <= |Label(g, x)| {
        assert Longest(g, o) == Label(g, o[0]);
      } else {
        var j :| 0 <= j < |o'| && Longest(g, o') == Label(g, o'[j]) &&
                 forall i :: 0 <= i < j ==> |Label(g, o'[i])| < |Longest(g, o')|;
        assert o[j + 1] == o'[j];
        assert forall i :: 1 <= i < j + 1 ==> o[i] == o'[i - 1];
      }
    }
  }

  /** Build.java's dfsLongest: the longest word met by the search from current. */
  method DfsLongest(g: Graph<string>, current: nat, visited: array<bool>) returns (longest: string)
    requires g.Valid() && current < |g.data| && visited.Length == |g.data|
    modifies visited
    ensures Marked(visited[..]) == Visit(g.neighbors, current, old(Marked(visited[..]))).visited
    ensures longest == Longest(g, Visit(g.neighbors, current, old(Marked(visited[..]))).order)
    ensures old(visited[current]) ==> longest == "" && visited[..] == old(visited[..])
    decreases Nodes(g.neighbors) - Marked(visited[..]), 0
  {
    if visited[current] {
      return "";
    }
    ghost var before := Marked(visited[..]);
    visited[current] := true;
    MarkOne(old(visited[..]), current);
    longest := if g.data[current].Some? then g.data[current].value else "";
    var ns := g.neighbors[current];
    ghost var rest := VisitFrom(g.neighbors, ns, 0, before + {current});
    ghost var done: seq<nat> := [];
    ghost var m := Marked(visited[..]);
    VisitEnter(g.neighbors, current, before);
    var i := 0;
    while i < |ns|
      invariant 0 <= i <= |ns|
      invariant m == Marked(visited[..])
      invariant before + {current} <= m
      invariant Pending(g.neighbors, ns, i, m, done, rest)
      invariant Below(done, |g.data|)
      invariant longest == Prefer(Label(g, current), Longest(g, done))
    {
      ghost var step := Visit(g.neighbors, ns[i], m);
      Advance(g.neighbors, ns, i, m, done, rest);
      var candidate := DfsLongest(g, ns[i], visited);
      LongestAppend(g, done, step.order);
      PreferAssoc(Label(g, current), Longest(g, done), candidate);
      if |candidate| > |longest| {
        longest := candidate;
      }
      done := done + step.order;
      m := step.visited;
      i := i + 1;
    }
    Finish(g.neighbors, ns, m, done, rest);
    assert ([current] + done)[1..] == done;
  }

  /** Build.java's longestWord. */
  method LongestWord(g: Graph<string>, vertex: Option<nat>) returns (longest: string)
    requires g.Valid() && (vertex.Some? ==> vertex.value < |g.data|)
    ensures vertex.None? ==> longest == ""
    ensures vertex.Some? ==> longest == Longest(g, Preorder(g.neighbors, vertex.value))
    ensures vertex.Some? ==> forall u: nat :: u < |g.data| && Reachable(g.neighbors, vertex.value, u) ==>
              |Label(g, u)| <= |longest|
    ensures vertex.Some? ==>
              (longest == "" ||
               exists u: nat :: u < |g.data| && Reachable(g.neighbors, vertex.value, u) && g.data[u] == Some(longest))
    ensures vertex.Some? ==>
              exists j :: 0 <= j < |Preorder(g.neighbors, vertex.value)| &&
                longest == Label(g, Preorder(g.neighbors, vertex.value)[j]) &&
                forall i :: 0 <= i < j ==> |Label(g, Preorder(g.neighbors, vertex.value)[i])| < |longest|
  {
    if vertex.None? {
      return "";
    }
    var root := vertex.value;
    var visited := new bool[|g.data|](_ => false);
    MarkedNone(visited[..]);
    longest := DfsLongest(g, root, visited);
    ghost var o := Preorder(g.neighbors, root);
    PreorderReachable(g.neighbors, root);
    LongestFirstMaximal(g, o);
    ghost var j :| 0 <= j < |o| && longest == Label(g, o[j]);
    assert o[j] in o;
  }

  // ---------------------------------------------------------------------
  // printSelfLoopers

  /** Vertices whose own neighbour list contains them. */
  function LoopSet<T>(g: Graph<T>): (r: set<nat>)
  {
    set u: nat | u < |g.neighbors| && u in g.neighbors[u]
  }

  /** The values a search that enters the vertices o, in that order, prints (println(null) prints "null"). */
  function SelfLoopers<T>(g: Graph<T>, o: seq<nat>): (vs: seq<Option<T>>)
    requires g.Valid()
  {
    if o == [] then []
    else (if o[0] in LoopSet(g) then [g.data[o[0]]] else []) + SelfLoopers(g, o[1..])
  }

  lemma {:induction false} SelfLoopersAppend<T>(g: Graph<T>, a: seq<nat>, b: seq<nat>)
    requires g.Valid()
    ensures SelfLoopers(g, a + b) == SelfLoopers(g, a) + SelfLoopers(g, b)
  {
    if a == [] {
      assert a + b == b;
    } else {
      assert (a + b)[1..] == a[1..] + b;
      SelfLoopersAppend(g, a[1..], b);
    }
  }

  /** Entering one vertex prints its value exactly when it is its own neighbour. */
  lemma SelfLoopersOne<T>(g: Graph<T>, u: nat)
    requires g.Valid() && u < |g.data|
    ensures SelfLoopers(g, [u]) == if u in g.neighbors[u] then [g.data[u]] else []
  {
    assert [u][1..] == [];
  }

  /** The i-th printed value is the data of the i-th self-looping vertex entered. */
  lemma {:induction false} SelfLoopersSelected<T>(g: Graph<T>, o: seq<nat>)
    requires g.Valid()
    ensures |SelfLoopers(g, o)| == |Select(o, LoopSet(g))|
    ensures forall i :: 0 <= i < |Select(o, LoopSet(g))| ==>
              Select(o, LoopSet(g))[i] < |g.data| &&
              g.data[Select(o, LoopSet(g))[i]] == SelfLoopers(g, o)[i]
  {
    if o != [] {
      SelfLoopersSelected(g, o[1..]);
      var us, vs := Select(o[1..], LoopSet(g)), SelfLoopers(g, o[1..]);
      if o[0] in LoopSet(g) {
        assert Select(o, LoopSet(g)) == [o[0]] + us;
        assert SelfLoopers(g, o) == [g.data[o[0]]] + vs;
      } else {
        assert Select(o, LoopSet(g)) == us;
        assert SelfLoopers(g, o) == vs;
      }
    }
  }

  /** Build.java's dfsSelfLoopers: prints the data of the self-looping vertices met by the search from current. */
  method DfsSelfLoopers<T>(g: Graph<T>, current: nat, visited: array<bool>) returns (printed: seq<Option<T>>)
    requires g.Valid() && current < |g.data| && visited.Length == |g.data|
    modifies visited
    ensures Marked(visited[..]) == Visit(g.neighbors, current, old(Marked(visited[..]))).visited
    ensures printed == SelfLoopers(g, Visit(g.neighbors, current, old(Marked(visited[..]))).order)
    ensures old(visited[current]) ==> printed == [] && visited[..] == old(visited[..])
    decreases Nodes(g.neighbors) - Marked(visited[..]), 0
  {
    if visited[current] {
      return [];
    }
    ghost var before := Marked(visited[..]);
    visited[current] := true;
    MarkOne(old(visited[..]), current);
    if current in g.neighbors[current] {
      printed := [g.data[current]];
    } else {
      printed := [];
    }
    SelfLoopersOne(g, current);
    var ns := g.neighbors[current];
    ghost var rest := VisitFrom(g.neighbors, ns, 0, before + {current});
    ghost var done: seq<nat> := [];
    ghost var m := Marked(visited[..]);
    VisitEnter(g.neighbors, current, before);
    var i := 0;
    while i < |ns|
      invariant 0 <= i <= |ns|
      invariant m == Marked(visited[..])
      invariant before + {current} <= m
      invariant Pending(g.neighbors, ns, i, m, done, rest)
      invariant printed == SelfLoopers(g, [current]) + SelfLoopers(g, done)
    {
      ghost var step := Visit(g.neighbors, ns[i], m);
      Advance(g.neighbors, ns, i, m, done, rest);
      var values := DfsSelfLoopers(g, ns[i], visited);
      SelfLoopersAppend(g, done, step.order);
      AppendAssoc(SelfLoopers(g, [current]), SelfLoopers(g, done), values);
      printed := printed + values;
      done := done + step.order;
      m := step.visited;
      i := i + 1;
    }
    Finish(g.neighbors, ns, m, done, rest);
    SelfLoopersAppend(g, [current], done);
  }

  /**
   * The values printed from root are the data of exactly the vertices that
   * are reachable from root and are their own neighbours, one line each.
   */
  lemma SelfLoopersFromRoot<T>(g: Graph<T>, r: nat)
    requires g.Valid() && r < |g.data|
    ensures forall v :: v in SelfLoopers(g, Preorder(g.neighbors, r)) ==>
              exists u: nat :: u < |g.data| && Reachable(g.neighbors, r, u) && u in g.neighbors[u] && g.data[u] == v
    ensures forall u: nat :: Reachable(g.neighbors, r, u) && u in LoopSet(g) ==>
              g.data[u] in SelfLoopers(g, Preorder(g.neighbors, r))
    ensures |SelfLoopers(g, Preorder(g.neighbors, r))| == |ReachableSet(g.neighbors, r) * LoopSet(g)|
  {
    var vs := SelfLoopers(g, Preorder(g.neighbors, r));
    var us := Select(Preorder(g.neighbors, r), LoopSet(g));
    PreorderSelect(g.neighbors, r, LoopSet(g));
    SelfLoopersSelected(g, Preorder(g.neighbors, r));
    forall v | v in vs
      ensures exists u: nat :: u < |g.data| && Reachable(g.neighbors, r, u) && u in g.neighbors[u] && g.data[u] == v
    {
      var i :| 0 <= i < |vs| && vs[i] == v;
      assert us[i] in us;
    }
    forall u: nat | Reachable(g.neighbors, r, u) && u in LoopSet(g) ensures g.data[u] in vs {
      var i :| 0 <= i < |us| && us[i] == u;
      assert vs[i] == g.data[u];
    }
  }

  /** Build.java's printSelfLoopers. */
  method PrintSelfLoopers<T>(g: Graph<T>, vertex: Option<nat>) returns (printed: seq<Option<T>>)
    requires g.Valid() && (vertex.Some? ==> vertex.value < |g.data|)
    ensures vertex.None? ==> printed == []
    ensures vertex.Some? ==> printed == SelfLoopers(g, Preorder(g.neighbors, vertex.value))
  {
    if vertex.None? {
      return [];
    }
    var visited := new bool[|g.data|](_ => false);
    MarkedNone(visited[..]);
    printed := DfsSelfLoopers(g, vertex.value, visited);
  }

  // ---------------------------------------------------------------------
  // canReach

  /**
   * Build.java's private dfs(Airport, Airport, Set). The ghost set open names
   * the airports whose loops are still running in the callers.
   */
  method DfsReach(flights: Adjacency, current: nat, destination: nat, visited: array<bool>, ghost open: set<nat>)
    returns (found: bool)
    requires WellFormed(flights) && current < |flights| && destination < |flights|
    requires visited.Length == |flights|
    requires ClosedOutside(flights, Marked(visited[..]), open)
    modifies visited
    ensures old(Marked(visited[..])) <= Marked(visited[..])
    ensures visited[destination] == old(visited[destination])
    ensures forall u: nat :: u in Marked(visited[..]) && u !in old(Marked(visited[..])) ==> Reachable(flights, current, u)
    ensures found ==> Reachable(flights, current, destination)
    ensures !found ==> current in Marked(visited[..]) && ClosedOutside(flights, Marked(visited[..]), open)
    decreases Nodes(flights) - Marked(visited[..]), if visited[current] then 1 else 0
  {
    if current == destination {
      ReachableRefl(flights, current);
      return true;
    }
    visited[current] := true;
    MarkOne(old(visited[..]), current);
    ReachableRefl(flights, current);
    var ns := flights[current];
    var i := 0;
    while i < |ns|
      invariant 0 <= i <= |ns|
      invariant old(Marked(visited[..])) + {current} <= Marked(visited[..])
      invariant visited[destination] == old(visited[destination])
      invariant ClosedOutside(flights, Marked(visited[..]), open + {current})
      invariant forall j :: 0 <= j < i ==> ns[j] in Marked(visited[..])
      invariant forall u: nat :: u in Marked(visited[..]) && u !in old(Marked(visited[..])) ==> Reachable(flights, current, u)
    {
      var next := ns[i];
      if !visited[next] {
        ghost var pre := Marked(visited[..]);
        var reached := DfsReach(flights, next, destination, visited, open + {current});
        forall u: nat | u in Marked(visited[..]) && u !in pre ensures Reachable(flights, current, u) {
          ReachableViaEdge(flights, current, next, u);
        }
        if reached {
          ReachableViaEdge(flights, current, next, destination);
          return true;
        }
      }
      i := i + 1;
    }
    forall w | w in ns ensures w in Marked(visited[..]) {
      var j :| 0 <= j < |ns| && ns[j] == w;
    }
    return false;
  }

  /** Build.java's canReach. */
  method CanReach(flights: Adjacency, start: Option<nat>, destination: Option<nat>) returns (reachable: bool)
    requires WellFormed(flights)
    requires start.Some? ==> start.value < |flights|
    requires destination.Some? ==> destination.value < |flights|
    ensures reachable <==> start.Some? && destination.Some? && Reachable(flights, start.value, destination.value)
    ensures start.Some? && start == destination ==> reachable
  {
    if start.None? || destination.None? {
      return false;
    }
    var s, d := start.value, destination.value;
    if s == d {
      ReachableRefl(flights, s);
      return true;
    }
    var visited := new bool[|flights|](_ => false);
    MarkedNone(visited[..]);
    reachable := DfsReach(flights, s, d, visited, {});
    if !reachable {
      forall t | Reachable(flights, s, t) ensures t in Marked(visited[..]) {
        ClosedContainsReachable(flights, Marked(visited[..]), s, t);
      }
    }
  }

  // ---------------------------------------------------------------------
  // unreachable

  /** Build.java's unreachable as written: a stub that ignores its arguments. */
  function Unreachable<T>(graph: map<T, seq<T>>, starting: T): (r: set<T>)
    ensures r == {}
  {
    {}
  }

  // ---------------------------------------------------------------------
  // repeated queries

  /**
   * Each word query starts from a fresh visited set, so asking it twice about
   * the same graph gives the same answer twice.
   */
  method RepeatWordQueries(g: Graph<string>, vertex: Option<nat>, k: int)
    returns (short1: seq<string>, short2: seq<string>, long1: string, long2: string,
             loops1: seq<Option<string>>, loops2: seq<Option<string>>)
    requires g.Valid() && (vertex.Some? ==> vertex.value < |g.data|)
    ensures short1 == short2 && long1 == long2 && loops1 == loops2
  {
    short1 := PrintShortWords(g, vertex, k);
    short2 := PrintShortWords(g, vertex, k);
    long1 := LongestWord(g, vertex);
    long2 := LongestWord(g, vertex);
    loops1 := PrintSelfLoopers(g, vertex);
    loops2 := PrintSelfLoopers(g, vertex);
  }

  /** canReach asked twice about the same flights gives the same answer twice. */
  method RepeatCanReach(flights: Adjacency, start: Option<nat>, destination: Option<nat>)
    returns (first: bool, second: bool)
    requires WellFormed(flights)
    requires start.Some? ==> start.value < |flights|
    requires destination.Some? ==> destination.value < |flights|
    ensures first == second
  {
    first := CanReach(flights, start, destination);
    second := CanReach(flights, start, destination);
  }
}
