# dfs-build: a verified model of the depth-first searches in `Build.java`

`Build.java` runs one pattern of depth-first search in four public operations:

- `printShortWords` prints every reachable word shorter than `k`.
- `longestWord` returns the longest reachable word.
- `printSelfLoopers` prints the data of every reachable vertex that lists itself as a neighbour.
- `canReach` decides whether one airport can be reached from another by outbound flights.

The three word operations work the same way. Each first rejects a null root, then creates an empty `HashSet` of visited vertices and calls a recursive helper. The helper returns at once on an already-visited vertex. Otherwise it adds the vertex to the set, acts on it, and recurses into each neighbour in the order of its list.

`canReach` differs in three ways:
- It returns `false` on a null airport.
- It returns `true` when start is destination, before any set exists.
- Its helper starts by testing `current == destination` rather than the visited set. Only then does it mark `current`. The visited test sits at the call site, before each recursive call, and the helper returns `true` as soon as one recursive call succeeds.

A fifth operation, `unreachable`, is a stub.

The model is split into modules:

- **Wrappers**: `Option`, where `None` stands for a Java `null`.
- **Sequences**: lists of vertex indices. Defines distinctness, bounds, `Select` (filter by a set, order kept), and counting.
- **Graphs**: a graph is a list of vertex data together with an adjacency list over the indices `0..n-1`. Index identity plays the role that reference identity plays in the `HashSet`. Also defines paths, reachability, and the closure argument that a finished search has entered everything reachable from its root.
- **Search**: the search as a pure function. `Visit` returns the final visited set and the vertices it entered, in entry order (the preorder). It comes with lemmas proving:
  - every entered vertex is reachable from the root;
  - every reachable vertex is entered;
  - no vertex is entered twice.
- **Build**: the helpers and public operations as methods.
  - Each helper marks vertices in a `bool` array in place (`modifies visited`).
  - `Dfs` and `DfsSelfLoopers` return, in printing order, the lines they printed. `DfsLongest` returns its word, and `DfsReach` returns whether it found the destination.
  - The three word helpers are proved against `Visit`: the array each leaves is the visited set `Visit` returns, and its result is a function of the order `Visit` returns. Lemmas then turn these functions into statements about reachable vertices.
  - `DfsReach` is proved directly against reachability. It marks only airports reachable from `current`. On `false` the marked set is closed under outbound flights, except for the airports whose loops are still running higher on the stack.

## Model

| member | source | states |
|---|---|---|
| Search.Visit | src/Build.java:24-36 | the search from a vertex only adds to the visited set it starts with, and it enters only valid vertices |
| Search.VisitShape | src/Build.java:25-27 | a search enters only vertices not yet visited, each at most once; it adds exactly those to the visited set, and the start vertex ends up visited |
| Search.PreorderReachable | src/Build.java:20-21 | with a fresh visited set, the search enters the root first, then every vertex reachable from the root exactly once, and no other vertex |
| Search.PreorderSelect | src/Build.java:29-30 | keeping only the entered vertices that pass a test gives each reachable vertex that passes it exactly once, and nothing else |
| Build.Dfs | src/Build.java:24-36 | the visited array ends as the search's visited set, and exactly the short non-null words of the entered vertices are printed, in entry order; on a vertex already visited, nothing is printed and the array is unchanged |
| Build.ShortWordsSelected | src/Build.java:29-31 | the i-th printed line is the non-null data of the i-th entered vertex whose word is shorter than k |
| Build.ShortWordsFromRoot | src/Build.java:9-11 | from a root, each printed line is shorter than k and is the data of a vertex reachable from the root; every reachable short word is printed; there is one line per reachable short vertex |
| Build.PrintShortWords | src/Build.java:16-22 | a null vertex prints nothing; otherwise the output is the short words of the search from the vertex with a fresh visited set |
| Build.LongestAppend | src/Build.java:60-68 | keeping the longer word over a concatenation equals keeping it over each half and then taking the better of the two results |
| Build.LongestFirstMaximal | src/Build.java:58-70 | the kept word is at least as long as every entered vertex's word, and it is "" when nothing was entered; otherwise it is the word of the first entered vertex of maximal length, so a later word of equal length never replaces it |
| Build.DfsLongest | src/Build.java:52-72 | the visited array ends as the search's visited set, and the result is the word kept over the entered vertices in entry order; on a vertex already visited, the result is "" and the array is unchanged |
| Build.LongestWord | src/Build.java:38-50 | a null vertex gives ""; otherwise the result is at least as long as every reachable vertex's word, is "" or the data of a reachable vertex, and is the first of maximal length in preorder |
| Build.SelfLoopersSelected | src/Build.java:97-100 | the i-th printed value is the data of the i-th entered vertex that is its own neighbour |
| Build.DfsSelfLoopers | src/Build.java:90-105 | the visited array ends as the search's visited set, and exactly the data of the entered self-looping vertices is printed, in entry order; on a vertex already visited, nothing is printed and the array is unchanged |
| Build.SelfLoopersFromRoot | src/Build.java:74-76 | from a root, every printed value is the data of a reachable vertex that is its own neighbour; every such vertex's data is printed; there is one line per such vertex |
| Build.PrintSelfLoopers | src/Build.java:81-88 | a null vertex prints nothing; otherwise the output is the self-loopers of the search from the vertex with a fresh visited set |
| Build.DfsReach | src/Build.java:126-142 | the visited set only grows, the destination is never marked, and every newly marked airport is reachable from the current one. A true result means the destination is reachable from the current airport. A false result means the current airport is marked and every marked airport not on the caller stack has all its outbound flights marked |
| Build.CanReach | src/Build.java:107-124 | the result is true exactly when both airports are non-null and the destination is reachable from the start; in particular it is true when start equals destination |
| Build.Unreachable | src/Build.java:153-155 | the result is the empty set, whatever the graph and starting value |
| Build.RepeatWordQueries | src/Build.java:20-87 | asking printShortWords, longestWord or printSelfLoopers twice about the same graph gives the same output twice |
| Build.RepeatCanReach | src/Build.java:121-123 | asking canReach twice about the same flights gives the same answer twice |

## Left out

- Printing is not modelled as I/O. Each printing helper returns the printed lines, in order, as a sequence. In `printSelfLoopers` an element is an `Option`, and `None` is the line `println(null)` writes.
- String length: Java's `String.length()` counts UTF-16 code units, while the model counts the characters of a `seq<char>`.
- The `Vertex` and `Airport` classes are not part of this model. Their data and neighbour lists become the two sequences of a `Graph`, and an airport's outbound flights become an adjacency list.
- `HashSet` hashing and `equals` are not modelled. A vertex is its index, and the visited set is a `bool` array over the indices.
- Null entries inside a neighbour list are excluded by `WellFormed`, because the source would throw on them.
- Recursion depth and stack overflow are not modelled.
- `unreachable` is modelled only as the stub it is. The set of values its documentation describes is not computed, because the source never computes it.
- Build.DfsReach: the contract does not list which airports the search left unvisited after an early `true`. The short-circuit appears only in the method's control flow, where it returns as soon as one neighbour's search succeeds.
