# Graph classification: path finders on an adjacency matrix

This project models the path-finding core of the Graph-Classification
backend in Dafny. A directed graph is given as a square integer adjacency
matrix. A positive cell `m[i][j]` is an edge `i -> j`. Three solvers run on it:

- **Eulerian** (`eulerian_pathfind`): classifies the degree differences,
  finds the first vertex that has an edge, and checks with a breadth-first
  search over the undirected version of the graph that every vertex with an
  edge is reachable from it. It then runs Hierholzer's algorithm, using an
  explicit stack and a private FIFO queue per out-list. The result is
  - `None` when no trail exists,
  - `[]` when the graph has no edge,
  - otherwise an Eulerian trail or circuit.
- **Hamiltonian, exact** (`hamiltonian_exact_pathfind`): walks through every
  permutation of the vertices in lexicographic order. It keeps those whose
  consecutive pairs are all edges. A kept ordering gets its first vertex
  appended when the closing edge back to the start exists.
- **Hamiltonian, heuristic** (`hamiltonian_heuristic_pathfind`): a greedy
  walk from `start`. At each step it moves to the unvisited out-neighbour
  with the fewest unvisited out-neighbours of its own. Ties go to the lowest
  vertex number, since the scan keeps the first strict minimum in
  out-list order. The walk fails when no unvisited out-neighbour is left.
  After a full walk it closes the cycle back to `start` when that edge
  exists.

## Modules

| file | module | what it holds |
|---|---|---|
| `wrappers.dfy` | `Wrappers` | `Option`, which stands for Python's `None`/value results |
| `graph.dfy` | `Graphs` | the matrix, the construction of out- and in-lists, `Valid`, `Edge` |
| `edges.dfy` | `EdgeMultisets` | edges and walks as multisets of pairs, degree counting |
| `connectivity.dfy` | `Connectivity` | undirected reachability and the breadth-first search |
| `hierholzer.dfy` | `Hierholzer` | the stack-and-circuit loop with its invariant |
| `eulerian.dfy` | `Eulerian` | the degree checks, the connectivity check, the solver |
| `permutations.dfy` | `Permutations` | the lexicographic permutation generator |
| `hamiltonian_exact.dfy` | `HamiltonianExact` | the exact solver and its soundness/completeness |
| `hamiltonian_heuristic.dfy` | `HamiltonianHeuristic` | the greedy choice, the walk, the solver |
| `scenarios.dfy` | `Scenarios` | the sample matrices of the script, with their results derived |

### Modelling decisions

- **Graphs.** A graph is its matrix plus two lists of lists of vertex numbers.
  `Node` objects are modelled by their ids. `outs[i]` lists the `j` with
  `m[i][j] > 0` in increasing order, and `ins[j]` lists the `i` with
  `m[i][j] > 0`. This is the order in which the row-major construction loop
  appends them. `Valid(g)` says that `g` is the construction's result for
  its own matrix.
- **Edges and walks.**
  - The edges form the multiset of pairs `(u, v)`, one for each listed
    out-neighbour.
  - A walk's edges form the multiset of its consecutive pairs.
  - An Eulerian trail is a vertex sequence of length `edges + 1` that uses
    only edges and whose pair multiset equals the edge multiset. This is
    "every edge exactly once" stated exactly.
- **Python's `next(..., None)`, `float('inf')` and `None` results** become
  `Option`. The initial `min_options = inf` is modelled as "no candidate
  yet", which makes the first unvisited neighbour the candidate.
- **`permutations(range(n))`** is modelled as a recursive generator,
  `Permutations.Perms`. It is proved to produce exactly the orderings of its
  input in strictly increasing lexicographic order, which is the order in
  which `itertools.permutations` emits them for a sorted input.
- **Where the docstrings and the code disagree:**
  - The docstring of `hamiltonian_exact_pathfind` promises `None` when no
    path exists. The code returns the empty list. The model follows the
    code: `ExactEmptyIff` proves that the result is `[]` exactly when there
    is no Hamiltonian path.
  - The docstring of `eulerian_pathfind` says `[]` means "no edges". The
    code returns `[]` only when there are no edges *and* the degree checks
    have passed. With no edges the degree checks always pass, so the two
    agree.
- **Both copies of the Eulerian code** are modelled once. `main.py`
  repeats `Graph` and `eulerian_pathfind` verbatim from
  `backend/graph_utils.py`.
- **The sample matrices.**
  - `adj2_matrix`, the 5-cycle 0 -> 1 -> 3 -> 4 -> 2 -> 0, is
    `Scenarios.CycleMatrix`.
  - `adj_matrix` is `Scenarios.TwoStartsMatrix`.
  - Their solver results are derived from the solvers' contracts alone.

## Model

| member | source | states |
|---|---|---|
| Graphs.BuildGraph | backend/graph_utils.py:39-53 | the row-major construction loop produces exactly `Build(m)`, a valid graph |
| Graphs.BuildSpec | backend/graph_utils.py:46-53 | `v` is an out-neighbour of `u` iff `m[u][v] > 0`, and `u` an in-neighbour of `v` iff the same cell is positive; every list is strictly increasing (append order) and holds only vertex ids |
| Graphs.EdgeInList | backend/graph_utils.py:52-53 | `u -> v` is on the out-list of `u` iff `u` is on the in-list of `v` |
| EdgeMultisets.InCountIsInDegree | backend/graph_utils.py:52-53 | the number of out-lists naming `x` equals the length of `x`'s in-list, so the in-degree is the count of edges into `x` |
| EdgeMultisets.AllEdgesSimple | backend/graph_utils.py:47-49 | each pair `(a, b)` occurs once among the edges when `m[a][b] > 0` and not at all otherwise |
| EdgeMultisets.PairsAreEdges | backend/graph_utils.py:55-61 | a walk whose pairs lie among the graph's edges steps only along edges |
| EdgeMultisets.PairsDistinct | backend/graph_utils.py:55-61 | a walk in which no pair occurs twice never repeats a step, so a trail whose pairs are a simple graph's edges uses each edge once |
| Connectivity.AdjacentSymmetric | backend/graph_utils.py:92 | adjacency over out- plus in-neighbours is symmetric, so the search really explores the undirected version |
| Connectivity.ClosedHoldsReached | backend/graph_utils.py:87-96 | a vertex set closed under undirected adjacency contains everything reachable from its members |
| Connectivity.FreshMembers | backend/graph_utils.py:92-95 | the vertices a scan enqueues are exactly the neighbours that were not yet seen |
| Connectivity.FreshDistinct | backend/graph_utils.py:92-95 | a scan never enqueues a vertex twice, even when it is listed as both an out- and an in-neighbour |
| Connectivity.FreshEmpty | backend/graph_utils.py:92-95 | a scan of a vertex whose neighbours were all seen enqueues nothing |
| Connectivity.ScanNeighbours | backend/graph_utils.py:92-95 | scanning `u` marks every neighbour as seen and keeps the old queue as a prefix; it appends each newly seen neighbour once, in out-list-then-in-list order, and nothing else |
| Connectivity.UndirectedReach | backend/graph_utils.py:87-96 | the breadth-first search returns exactly the vertices reachable from `start` along edges taken in either direction |
| Hierholzer.PushInv | backend/graph_utils.py:111-114 | taking the next queued out-edge of the top vertex keeps the loop invariant and consumes one edge |
| Hierholzer.PopInv | backend/graph_utils.py:115-116 | popping a vertex with no queued out-edge onto the circuit keeps the loop invariant |
| Hierholzer.Step | backend/graph_utils.py:111-116 | one turn keeps the invariant and either consumes an edge or, consuming none, lowers the stack |
| Hierholzer.Drain | backend/graph_utils.py:110-116 | the loop terminates (edges left, then stack height, decrease) with an empty stack and the invariant intact; the popped vertices run from the end vertex back to the start, and every popped vertex has no unconsumed out-edge |
| Hierholzer.Complete | backend/graph_utils.py:110-118 | when the stack empties in a connected graph the reversed circuit starts at `s`, ends at `t` and traverses every edge exactly once |
| Hierholzer.Construct | backend/graph_utils.py:106-118 | with degrees balanced except +1 at `s` and -1 at `t` (or none when `s == t`), and every non-isolated vertex reachable, the reversed circuit is a walk from `s` to `t` whose pairs are exactly the edges |
| Eulerian.CountDiffAtLeast | backend/graph_utils.py:67-73 | two distinct vertices with the same degree difference make the count of such vertices at least two |
| Eulerian.BalanceShape | backend/graph_utils.py:77-104 | once the endpoint counts pass, every degree difference is +1 exactly at the start, -1 exactly at the end, and 0 elsewhere |
| Eulerian.EulerianFromPairs | backend/graph_utils.py:118 | a walk whose pair multiset equals the edge multiset is an Eulerian trail |
| Eulerian.ClassifyDegrees | backend/graph_utils.py:62-75 | the scan fails iff some degree difference lies outside -1..1; on success it returns the numbers of +1 and -1 vertices and a +1 vertex when there is one |
| Eulerian.FirstNonIsolated | backend/graph_utils.py:81-82 | the result is `None` iff no vertex has an edge, otherwise the lowest vertex with one |
| Eulerian.CheckConnected | backend/graph_utils.py:98-101 | the check passes iff every vertex with an edge is reachable, ignoring direction, from the given vertex |
| Eulerian.ConnectedFromGiven | backend/graph_utils.py:80-101 | when the given vertex is the first with an edge, that check is connectivity of all edged vertices from the first one |
| Eulerian.EulerianPathfind | backend/graph_utils.py:55-118 | `None` iff the degree, endpoint or connectivity check fails; `Some([])` iff the checks pass and there is no edge; otherwise an Eulerian trail from the proper start to the proper end |
| Eulerian.EveryEdgeTraversed | backend/graph_utils.py:55-61 | every edge of the graph appears as a consecutive pair of an Eulerian trail |
| Permutations.PermsExact | backend/graph_utils.py:169 | a sequence is generated iff it is a reordering (same multiset) of the input |
| Permutations.PermsSorted | backend/graph_utils.py:169 | for a strictly increasing input the permutations come out in strictly increasing lexicographic order |
| HamiltonianExact.HamiltonianExactPathfind | backend/graph_utils.py:162-186 | every report lists the `n` vertices, plus at most the closing return to the first; ExactSound, ExactComplete, ExactOrdered and ExactEmptyIff state the rest |
| HamiltonianExact.CollectLengths | backend/graph_utils.py:172-184 | a kept ordering is reported with its `n` vertices, and the closing step adds at most one entry |
| HamiltonianExact.KeptExact | backend/graph_utils.py:172-178 | an ordering survives the filter iff it is generated and all its consecutive pairs are edges |
| HamiltonianExact.ExactSound | backend/graph_utils.py:162-186 | every report is a Hamiltonian path, extended by its first vertex iff the closing edge exists |
| HamiltonianExact.ExactComplete | backend/graph_utils.py:162-186 | every Hamiltonian path has `n` vertices, and its closed form is among the reports |
| HamiltonianExact.ExactOrdered | backend/graph_utils.py:169-184 | the reports are in strictly increasing lexicographic order of their first `n` vertices |
| HamiltonianExact.ExactEmptyIff | backend/graph_utils.py:168-186 | the result is the empty list iff the graph has no Hamiltonian path |
| HamiltonianHeuristic.UnvisitedCount | backend/graph_utils.py:209 | the option count is at most the list length and is 0 iff every listed vertex is visited |
| HamiltonianHeuristic.GreedyUnique | backend/graph_utils.py:206-212 | for a given visited set and current vertex at most one vertex meets the greedy rule |
| HamiltonianHeuristic.SelectNext | backend/graph_utils.py:203-215 | the scan finds nothing iff every out-neighbour is visited, and otherwise returns the unvisited out-neighbour with fewest options, lowest id on ties |
| HamiltonianHeuristic.GreedyWalkUnique | backend/graph_utils.py:196-219 | the greedy walk from a start is unique: of two greedy walks the shorter is a prefix of the longer |
| HamiltonianHeuristic.GreedyWalkDistinct | backend/graph_utils.py:206-218 | a greedy walk never revisits a vertex |
| HamiltonianHeuristic.NotStuckBefore | backend/graph_utils.py:214-215 | a greedy walk that can be extended was not stuck at any shorter length |
| HamiltonianHeuristic.DistinctIsPermutation | backend/graph_utils.py:201 | `n` distinct vertex ids below `n` are a reordering of all the vertices |
| HamiltonianHeuristic.GreedyAmongExact | backend/graph_utils.py:189-224 | a complete greedy walk is a Hamiltonian path, and its closed form is among the exact solver's reports |
| HamiltonianHeuristic.Walk | backend/graph_utils.py:196-219 | the loop builds a greedy walk from `start`; it completes iff the walk reaches `n` vertices, and otherwise stops stuck |
| HamiltonianHeuristic.HamiltonianHeuristicPathfind | backend/graph_utils.py:189-224 | `None` iff the greedy walk from `start` gets stuck before visiting all vertices; otherwise the full greedy walk, closed to `start` iff that edge exists |
| Scenarios.CycleGraph | main.py:13-20 | the 5-cycle matrix yields the out-lists `[1],[3],[0],[4],[2]` and the matching in-lists |
| Scenarios.CycleEulerian | main.py:13-20 | the Eulerian solver reports the circuit `0,1,3,4,2,0` on the 5-cycle |
| Scenarios.CycleTrail | main.py:13-20 | the 5-cycle has exactly one Eulerian trail starting at 0 |
| Scenarios.TwoStartsEulerian | main.py:5-11 | on `adj_matrix`, where vertices 0 and 4 both have one more out-edge than in-edges, the Eulerian solver reports `None` |
| Scenarios.CycleGreedyOnly | main.py:13-20 | on the 5-cycle the greedy walk from 0 never gets stuck, and its only full form is `0,1,3,4,2` |
| Scenarios.CycleHeuristic | main.py:13-20 | the heuristic from 0 reports `0,1,3,4,2,0` on the 5-cycle |
| Scenarios.CyclePathIsRotation | main.py:13-20 | every Hamiltonian path of the 5-cycle is the walk around the cycle from its first vertex |
| Scenarios.CycleReports | main.py:13-20 | every report of the exact solver on the 5-cycle is such a walk, closed back to its start |
| Scenarios.CycleExact | main.py:13-20 | on the 5-cycle the exact solver returns exactly the five closed walks around the cycle, ordered by first vertex: `[0,1,3,4,2,0]`, `[1,3,4,2,0,1]`, `[2,0,1,3,4,2]`, `[3,4,2,0,1,3]`, `[4,2,0,1,3,4]` |
| Scenarios.EmptyEulerian | backend/graph_utils.py:84-85 | with no edges the Eulerian solver reports `Some([])`, not failure |
| Scenarios.EmptyHeuristic | backend/graph_utils.py:214-215 | with no edges the heuristic is stuck at its start and reports `None` |
| Scenarios.EmptyExact | backend/graph_utils.py:168-186 | with no edges the exact solver reports the empty list |

## Left out

- Reading the matrix from a file (`read_adj_matrix`), the command-line
  driver, printing, and the HTTP routes and front end are left out: they
  are I/O around the core.
- The commented-out `hamiltonian_pathfind` (a backtracking first version)
  is left out because it is dead code inside a string literal.
- Matrix rows are assumed square (`IsSquare`). The file reader rejects
  other shapes before a `Graph` is built.
- HamiltonianExact.HamiltonianExactPathfind requires at least one vertex.
  With zero vertices the code indexes `perm[0]` of the single empty
  permutation and raises. The model states that crash as a precondition.
- HamiltonianHeuristic.HamiltonianHeuristicPathfind requires
  `start < n`. A start with `start >= n` (and any start when `n == 0`)
  makes the code index `graph.nodes[start]` out of range, and it raises.
- HamiltonianHeuristic.HamiltonianHeuristicPathfind does not model
  negative starts, because `start` is a `nat`. The code does not raise for
  `-n <= start < 0`. Python's negative indexing starts the walk at vertex
  `n + start`, while `visited` and the path hold the negative number. The
  walk can then revisit vertex `n + start`, so it can return a vertex twice.
  The closing edge is never appended, because no vertex id equals a
  negative start. The HTTP route and the command line both accept such
  integers.
- HamiltonianExact.HamiltonianExactPathfind builds the whole list of
  permutations before filtering. `itertools.permutations` is lazy, so the
  memory profile differs, but the reported list is the same.
- Hierholzer.Construct takes the target end vertex `t` and the first
  non-isolated vertex as ghost parameters. They are the proof's view of
  what the degree scan and the search established, and the code does not
  compute them.
- The solvers' running time (factorial for the exact solver) is not
  modelled.
