# Parallel BFS / DFS traversal engine, modelled in Dafny

`bfs-dfs.cpp` keeps an undirected graph as adjacency lists over the node ids
1..n, plus a shared `visited` array. On top of these it runs two traversals
that print the nodes they reach.

- `parallel_bfs` is level-synchronous. Each round it drains the whole queue as
  the current level and prints it. It then expands every node of the level,
  checking and setting `visited` for each neighbour inside a critical
  section, and the nodes it claims form the next level.
- `parallel_dfs` pops one node and prints it. It claims all of that node's
  unvisited neighbours the same way and pushes the whole claimed batch.

`main` checks the edge count before reading edges. Each pass of its menu
reads the choice, and choice 3 quits at once. For any other choice it reads
the start node, clears the marks of 1..n, and runs BFS (choice 1) or DFS
(choice 2) from the start. It then sweeps the ids 1..n, restarting the
traversal from every node that is still unmarked but has an edge.

The model has five modules:

- `Graph` (graph.dfy): the graph value, `reset_visited`, the critical
  section shared by both traversals (`ClaimAll`), and `Concat`, which joins
  a sequence of outputs (BFS levels, sweep segments) into one.
- `Reach` (reach.dfy): the reference definitions.
  - Reachability and shortest distance are defined by walks that never step
    on a node that was already marked.
  - The k-step balls and their layers are a second definition, the one the
    BFS rounds compute. Lemmas show the two definitions agree.
- `Bfs` (bfs.dfy) and `Dfs` (dfs.dfy): the two traversals.
- `Driver` (driver.dfy): the edge-count check, the choice of traversal, the
  component sweep and one pass through the menu.

Modelling choices:

- `visited` is a `set<nat>` that is passed in and returned. Nodes marked on
  entry are the parameter `seen` (or `visited0`).
- What a traversal prints is the sequence `out`.
- Every `omp parallel for` runs sequentially in index order, which is one legal
  schedule. Since every read-modify-write of the shared state sits in a
  critical section, each check-and-set is atomic.
- The sweep restarts from every node that is unmarked and has an edge when the
  scan reaches it, not only from the first such node: after a restart the loop
  at lines 147-155 keeps scanning.

## Model

| member | source | states |
|---|---|---|
| Graph.ResetVisited | bfs-dfs.cpp:98-101 | afterwards an id is marked iff it was marked before and lies outside 1..n; marks are only cleared; a non-positive n clears nothing |
| Graph.ClaimAll | bfs-dfs.cpp:39-46 | the claimed nodes are exactly the candidates that were unmarked, each claimed once; afterwards every candidate is marked, so a node is queued or stacked only by the check that flips its mark |
| Reach.BallIsWithinDistance | bfs-dfs.cpp:19-53 | a node is discovered within k rounds iff some walk of at most k edges that avoids the marked nodes leads to it from the start |
| Reach.LayerIsDistance | bfs-dfs.cpp:19-53 | BFS level k is exactly the set of nodes whose shortest unmarked walk from the start has k edges |
| Reach.ClosedHoldsReachable | bfs-dfs.cpp:62-94 | a node set that holds the start and holds every unmarked neighbour of its members holds every reachable node; this is the completeness argument for both loops |
| Reach.ReachableShrinks | bfs-dfs.cpp:147-155 | marking more nodes can only remove reachable nodes, never add them |
| Reach.ReachableInRange | bfs-dfs.cpp:120-121 | in a graph whose edges join ids 1..n, every node reachable from an id is an id |
| Reach.ReachableIgnoresNonNodes | bfs-dfs.cpp:136 | marks that remain on ids outside 1..n after the reset change no node's reachability from a node |
| Reach.ReachedHasEdge | bfs-dfs.cpp:120-121 | when every edge is stored both ways, every node reached from a different node has a non-empty adjacency list |
| Bfs.ExpandLevel | bfs-dfs.cpp:34-48 | the next level holds exactly the neighbours of the current level that were unmarked, each once; the marks grow by exactly those nodes |
| Bfs.NextState | bfs-dfs.cpp:19-53 | one round keeps the invariant: the queue holds exactly the next level with no repeats, the emitted and queued nodes together are the ball of the next round, the marks are the pre-marked nodes plus that ball, and the level recorded for each emitted node is its level and never decreases |
| Bfs.OutBeforeQueue | bfs-dfs.cpp:19-53 | no node is both emitted and queued |
| Bfs.Round | bfs-dfs.cpp:20-52 | a round emits exactly the drained queue, in queue order, and re-establishes the loop invariant |
| Bfs.EmittedBound | bfs-dfs.cpp:19-53 | the emitted nodes are distinct ids in 1..n, so at most n are ever emitted and the loop ends |
| Bfs.FinishReach | bfs-dfs.cpp:14-54 | when the queue is empty, a node has been emitted iff it is reachable from the start avoiding the pre-marked nodes, and the marks are the pre-marked nodes plus the emitted ones |
| Bfs.FinishLevels | bfs-dfs.cpp:19-53 | each recorded level holds exactly the nodes at that shortest distance |
| Bfs.FinishOrder | bfs-dfs.cpp:24-29 | a node emitted earlier is never at a larger shortest distance than one emitted later |
| Bfs.ParallelBfs | bfs-dfs.cpp:14-54 | starts with the start node; emits each node at most once; emits exactly the nodes reachable from the start without crossing a node marked on entry, and no node marked on entry; marks exactly the emitted nodes in addition; emitted level k is the set of nodes at shortest distance k; emission order never decreases in distance |
| Dfs.Bound | bfs-dfs.cpp:62-94 | the emitted and stacked nodes are distinct ids in 1..n, so at most n are emitted and the loop ends |
| Dfs.PopPush | bfs-dfs.cpp:62-94 | one pop-and-push step keeps the invariant: the marks are the pre-marked nodes plus those emitted or stacked, nothing is emitted or stacked twice, everything emitted or stacked is reachable, and every unmarked neighbour of an emitted node is emitted or stacked |
| Dfs.DiscoveredStep | bfs-dfs.cpp:89-93 | the pushed batch consists of neighbours of the node just emitted, so every emitted node after the first is a neighbour of an earlier emitted node |
| Dfs.PopAndExpand | bfs-dfs.cpp:63-93 | emits the top of the stack, then replaces it with exactly those of its neighbours that were unmarked, each once, in claim order |
| Dfs.TraceSnoc | bfs-dfs.cpp:62-94 | one more pass extends the recorded stack history: the stack before each pop, the marks at that moment, and the pushed batch stay related as one pop-and-push step |
| Dfs.LevelOrderIsNoTrace | bfs-dfs.cpp:62-94 | on the graph with edges 1-2, 1-3 and 2-4, no stack history starting from [1] emits 1, 2, 3, 4: after 2 is popped, its neighbour 4 sits above 3 on the stack |
| Dfs.Finish | bfs-dfs.cpp:57-95 | when the stack is empty, a node has been emitted iff it is reachable from the start avoiding the pre-marked nodes |
| Dfs.ParallelDfs | bfs-dfs.cpp:57-95 | starts with the start node; emits each node at most once; emits exactly the nodes reachable from the start without crossing a node marked on entry, and no node marked on entry; marks exactly the emitted nodes in addition; every emitted node after the first is a neighbour of an earlier emitted node; the stack history starts as [start], ends empty, and in each pass the emitted node is the top of the stack, which is replaced by exactly its neighbours that were unmarked at that moment, each once |
| Driver.PairCountClosed | bfs-dfs.cpp:110 | the pair count of k nodes is k(k-1)/2 exactly |
| Driver.PairCountIsPairs | bfs-dfs.cpp:110 | the pair count of k nodes is the number of possible edges of a simple graph on 1..k |
| Driver.CheckEdgeCount | bfs-dfs.cpp:110-113 | for n >= 0, an edge count is accepted iff it is at most the number of possible edges on n nodes; for negative n the bound is that of 1 - n nodes |
| Driver.Traverse | bfs-dfs.cpp:150-153 | either traversal emits exactly the nodes reachable from the start past the current marks, each once, and marks exactly them; it emits the start first and then follows its strategy's order: breadth-first never emits a node after one farther from the start, and depth-first emits along a stack history that starts as [start], ends empty, and in each pass replaces the popped top by exactly its unmarked neighbours |
| Driver.PathBreadthOrder | bfs-dfs.cpp:24-29 | on the path 1-2-3 with nothing marked, a breadth-first output from 1 that holds all three nodes once is exactly 1, 2, 3 |
| Driver.SweepRestart | bfs-dfs.cpp:148-154 | a restart keeps the sweep invariant: the emitted set stays closed under unmarked-neighbour steps, every emitted node is reachable from a restart node, and nothing is emitted twice |
| Driver.SweepExact | bfs-dfs.cpp:147-155 | after the scan, a node has been emitted iff it is reachable, avoiding the nodes marked before the sweep, from some unmarked node that has an edge |
| Driver.ScanId | bfs-dfs.cpp:148-154 | scanning one id restarts the traversal exactly when the id is unmarked and has an edge, and keeps the sweep invariant with the new segment appended |
| Driver.ScanStep | bfs-dfs.cpp:148-149 | after scanning id i, an id up to i with an edge is a restart iff at its turn it was neither marked before the sweep nor emitted by an earlier restart |
| Driver.ComponentSweep | bfs-dfs.cpp:147-155 | every node 1..n with an edge ends marked; no node is emitted twice or was marked before the sweep; the emitted nodes are exactly those of `SweepExact`; the restarts increase, and an id with an edge is a restart iff at its turn it was neither marked before the sweep nor emitted by an earlier restart; the output is the restarts' outputs in restart order, each starting with its restart node, holding exactly the nodes reachable from it past the marks of that moment, and emitted in the order of the chosen strategy against those marks |
| Driver.FirstRestart | bfs-dfs.cpp:147-155 | the first restart is the smallest id that is unmarked and has an edge, and the sweep's output begins with it |
| Driver.SweepSkipsIsolated | bfs-dfs.cpp:147-155 | in an undirected graph the sweep emits no isolated node |
| Driver.MenuRound | bfs-dfs.cpp:130-155 | choice 3 quits; otherwise choice 1 or 2 first emits exactly the nodes reachable from the start in the whole graph, starting with the start and in the order of BFS (choice 1) or DFS (choice 2) against the cleared marks; the sweep then emits exactly the nodes reachable, past the marks left by the first traversal, from an unmarked node with an edge, and its restarts and their outputs are related to those marks as in `ComponentSweep`, each output in the order of BFS for choice 1 and of DFS otherwise; the two together emit no node twice, every node with an edge ends marked, and the marks are the leftovers outside 1..n plus everything emitted |

## Left out

- OpenMP threads, scheduling and the locks: each parallel loop runs in index
  order. The set-level contracts would hold for any order. The orders inside a
  BFS level and inside a pushed DFS batch are those of this one schedule.
- Console input and output: printing is the returned sequence, and the
  "disconnected components" message is the restart list of `ComponentSweep`.
- The menu loop's repetition: `MenuRound` is one pass. The next pass starts
  from the marks it returns.
- Edge input (lines 117-122): the graph is an input value. `Graph.Valid`
  requires every listed neighbour to be an id in 1..n. `Graph.Undirected`
  states that edges are stored both ways, where a lemma needs it. Edge ids
  outside 1..n, which the source would store without a check, are not modelled.
- The fixed `MAXN` arrays: the adjacency has exactly n + 1 entries, and ids
  above n have no list.
- 32-bit `int` overflow of `n * (n - 1)` and of ids: all arithmetic is on
  mathematical integers.
- The exit code of the edge check: `CheckEdgeCount` returns `TooManyEdges`
  instead of ending the process.
- Bfs.ParallelBfs: requires the start to be an id in 1..n that is unmarked on
  entry. The source marks and prints any start unconditionally; in the menu,
  after the reset, a start in 1..n is always unmarked.
- Dfs.ParallelDfs: same start requirement as `Bfs.ParallelBfs`.
- Driver.MenuRound: requires a start in 1..n when the choice is 1 or 2. A start
  outside the table is not modelled.
