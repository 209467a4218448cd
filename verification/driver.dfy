/**
 The pieces of the driver around the traversals: the edge-count check made
 before any edge is read, the choice between the two traversals, the sweep
 that restarts the chosen traversal from every node that is still unvisited
 but has an edge, and one round of the menu that ties them together.
*/
module Driver {
  import opened Graph
  import opened Reach
  import Bfs
  import Dfs

  /** The number of unordered pairs of distinct nodes among `k` nodes. */
  function PairCount(k: nat): nat {
    if k == 0 then 0 else PairCount(k - 1) + (k - 1)
  }

  lemma {:induction false} PairCountClosed(k: nat)
    ensures 2 * PairCount(k) == k * (k - 1)
  {
    if k > 0 {
      PairCountClosed(k - 1);
    }
  }

  /** The possible edges of a simple graph on the nodes 1..k, smaller end first. */
  ghost function Pairs(k: nat): set<(nat, nat)> {
    set i: nat, j: nat | 1 <= i < j <= k :: (i, j)
  }

  /** The possible edges whose larger end is `j`, with the smaller end below `h`. */
  ghost function PairsEndingAt(j: nat, h: nat): set<(nat, nat)> {
    set i: nat | 1 <= i < h :: (i, j)
  }

  lemma {:induction false} PairsEndingAtCount(j: nat, h: nat)
    ensures |PairsEndingAt(j, h)| == if h == 0 then 0 else h - 1
  {
    if h > 1 {
      PairsEndingAtCount(j, h - 1);
      assert PairsEndingAt(j, h) == PairsEndingAt(j, h - 1) + {(h - 1, j)};
    } else {
      assert PairsEndingAt(j, h) == {};
    }
  }

  /** `PairCount` counts exactly the possible edges of a simple graph. */
  lemma {:induction false} PairCountIsPairs(k: nat)
    ensures |Pairs(k)| == PairCount(k)
  {
    if k == 0 {
      assert Pairs(k) == {};
    } else {
      PairCountIsPairs(k - 1);
      PairsEndingAtCount(k, k);
      assert Pairs(k) == Pairs(k - 1) + PairsEndingAt(k, k);
      assert Pairs(k - 1) !! PairsEndingAt(k, k);
    }
  }

  datatype EdgeCheck = Accepted | TooManyEdges

  /**
   The check in `main` (bfs-dfs.cpp line 110), before any edge is read: more
   edges than a simple graph on `n` nodes can hold is an error. `n * (n - 1)` is
   never negative, so the truncating division in `main` agrees with `/`
   here. A negative node count is not rejected as such: its bound is the pair
   count of `1 - n` nodes.
   */
  function CheckEdgeCount(n: int, m: int): (r: EdgeCheck)
    ensures n >= 0 ==> (r == Accepted <==> m <= PairCount(n))
    ensures n < 0 ==> (r == Accepted <==> m <= PairCount(1 - n))
  {
    if n >= 0 then PairCountClosed(n); (if m > n * (n - 1) / 2 then TooManyEdges else Accepted)
    else PairCountClosed(1 - n); (if m > n * (n - 1) / 2 then TooManyEdges else Accepted)
  }

  /** The traversal the menu choice selects. */
  datatype Strategy = Breadth | Depth

  /**
   The order in which a traversal from `start`, past the marks `seen`, emits
   the nodes it reaches. Either traversal emits `start` first. Breadth-first
   never emits a node after one that is farther from `start`. Depth-first
   emits along a history of its stack, one pop per emitted node (`Dfs.Trace`),
   that begins as `[start]` and ends empty.
   */
  ghost predicate Ordered(g: Graph, strategy: Strategy, seen: set<nat>, start: nat, out: seq<nat>) {
    && out != [] && out[0] == start
    && match strategy
       case Breadth =>
         forall i, j, di, dj ::
           0 <= i < j < |out| && AtDistance(g, seen, start, out[i], di) && AtDistance(g, seen, start, out[j], dj)
           ==> di <= dj
       case Depth =>
         exists stacks :: Dfs.Trace(g, seen, out, stacks) && stacks[0] == [start] && stacks[|out|] == []
  }

  /** The path 1 - 2 - 3. */
  function Path(): (g: Graph)
    ensures g.Valid() && g.Undirected()
  {
    Graph(3, [[], [2], [1, 3], [2]])
  }

  /** On `Path`, 2 is one edge from 1 and 3 is two. */
  lemma PathDistances()
    ensures AtDistance(Path(), {}, 1, 2, 1)
    ensures AtDistance(Path(), {}, 1, 3, 2)
  {
    var g := Path();
    assert WalkFrom(g, {}, 1, 2, [1, 2]);
    assert WalkFrom(g, {}, 1, 3, [1, 2, 3]);
  }

  /**
   The breadth-first order pins down the output on `Path`: started at 1 with
   nothing marked, the three nodes come out as 1, 2, 3 and never as 1, 3, 2.
   */
  lemma PathBreadthOrder(out: seq<nat>)
    requires Ordered(Path(), Breadth, {}, 1, out)
    requires NoDup(out) && Elems(out) == {1, 2, 3}
    ensures out == [1, 2, 3]
  {
    NoDupElems(out);
    assert out[1] in Elems(out) && out[2] in Elems(out);
    PathDistances();
  }

  /** Either traversal: what it reaches, and the order of its strategy. */
  method Traverse(g: Graph, strategy: Strategy, seen: set<nat>, start: nat)
    returns (visited: set<nat>, out: seq<nat>)
    requires g.Valid()
    requires 1 <= start <= g.n
    requires start !in seen
    ensures visited == seen + Elems(out)
    ensures NoDup(out)
    ensures |out| >= 1 && out[0] == start
    ensures forall t :: t in out ==> t !in seen && 1 <= t <= g.n
    ensures forall t :: t in out <==> Reachable(g, seen, start, t)
    ensures Ordered(g, strategy, seen, start, out)
  {
    match strategy
    case Breadth =>
      ghost var levels;
      visited, out, levels := Bfs.ParallelBfs(g, seen, start);
    case Depth =>
      ghost var stacks;
      visited, out, stacks := Dfs.ParallelDfs(g, seen, start);
  }

  /** `t` is reachable, avoiding `seen`, from one of the nodes in `from`. */
  ghost predicate ReachableFromAny(g: Graph, seen: set<nat>, from: seq<nat>, t: nat) {
    exists r :: r in from && Reachable(g, seen, r, t)
  }

  /** `t` is reachable, avoiding `seen`, from some node 1..n outside `seen` that has an edge. */
  ghost predicate ReachableFromEdgeNode(g: Graph, seen: set<nat>, t: nat) {
    exists r :: 1 <= r <= g.n && g.NonIsolated(r) && r !in seen && Reachable(g, seen, r, t)
  }

  /**
   What holds after the sweep has scanned the ids below `i`: every node so far
   was emitted once, none was marked before the sweep, the emitted set is
   closed under neighbour steps that avoid the pre-marked nodes, every
   non-isolated node below `i` is marked, and every emitted node is reachable
   from one of the restart nodes.
   */
  ghost predicate SweepState(g: Graph, visited0: set<nat>, i: nat, visited: set<nat>, out: seq<nat>,
                             restarts: seq<nat>)
  {
    && visited == visited0 + Elems(out)
    && NoDup(out)
    && (forall t :: t in out ==> t !in visited0 && 1 <= t <= g.n)
    && Step(g, visited0, Elems(out)) <= Elems(out)
    && (forall v :: 1 <= v < i && g.NonIsolated(v) ==> v in visited)
    && (forall r :: r in restarts ==> 1 <= r <= g.n && g.NonIsolated(r) && r !in visited0)
    && (forall t :: t in out ==> ReachableFromAny(g, visited0, restarts, t))
  }

  /** A restart at `i` adds exactly the nodes reachable from `i` past the current marks. */
  lemma SweepRestart(g: Graph, visited0: set<nat>, i: nat, visited: set<nat>, out: seq<nat>,
                     restarts: seq<nat>, visited': set<nat>, found: seq<nat>)
    requires g.Valid()
    requires SweepState(g, visited0, i, visited, out, restarts)
    requires 1 <= i <= g.n && g.NonIsolated(i) && i !in visited
    requires visited' == visited + Elems(found)
    requires NoDup(found)
    requires forall t :: t in found ==> t !in visited && 1 <= t <= g.n
    requires forall t :: t in found <==> Reachable(g, visited, i, t)
    ensures SweepState(g, visited0, i + 1, visited', out + found, restarts + [i])
  {
    var o := out + found;
    var rs := restarts + [i];
    assert Elems(o) == Elems(out) + Elems(found);
    assert NoDup(o) by {
      forall x | x in out
        ensures x !in found
      {
        assert x in Elems(out);
      }
      NoDupAppend(out, found);
    }
    assert Step(g, visited0, Elems(o)) <= Elems(o) by {
      forall u | u in Step(g, visited0, Elems(o))
        ensures u in Elems(o)
      {
        var v := StepWitness(g, visited0, Elems(o), u);
        if v in found && u !in visited {
          ReachableStep(g, visited, i, v, u);
        } else if v in Elems(out) {
          assert u in Step(g, visited0, Elems(out));
        }
      }
    }
    assert i in found by {
      assert WalkFrom(g, visited, i, i, [i]);
    }
    assert forall t :: t in o ==> ReachableFromAny(g, visited0, rs, t) by {
      forall t | t in o
        ensures ReachableFromAny(g, visited0, rs, t)
      {
        if t in found {
          ReachableShrinks(g, visited0, visited, i, t);
          assert i in rs;
        } else {
          assert ReachableFromAny(g, visited0, restarts, t);
          var r :| r in restarts && Reachable(g, visited0, r, t);
          assert r in rs;
        }
      }
    }
  }

  /** Passing over an id that is marked or has no edge keeps the sweep invariant. */
  lemma SweepSkip(g: Graph, visited0: set<nat>, i: nat, visited: set<nat>, out: seq<nat>, restarts: seq<nat>)
    requires SweepState(g, visited0, i, visited, out, restarts)
    requires g.NonIsolated(i) ==> i in visited
    ensures SweepState(g, visited0, i + 1, visited, out, restarts)
  {
  }

  /**
   After the sweep, the emitted nodes are exactly those reachable, avoiding
   the nodes marked before it, from some unmarked node that has an edge.
   */
  lemma SweepExact(g: Graph, visited0: set<nat>, visited: set<nat>, out: seq<nat>, restarts: seq<nat>)
    requires g.Valid()
    requires SweepState(g, visited0, g.n + 1, visited, out, restarts)
    ensures forall t :: t in out <==> ReachableFromEdgeNode(g, visited0, t)
  {
    forall t
      ensures t in out <==> ReachableFromEdgeNode(g, visited0, t)
    {
      if t in out {
        assert ReachableFromAny(g, visited0, restarts, t);
        var r :| r in restarts && Reachable(g, visited0, r, t);
        assert 1 <= r <= g.n && g.NonIsolated(r) && r !in visited0;
      }
      if ReachableFromEdgeNode(g, visited0, t) {
        var r :| 1 <= r <= g.n && g.NonIsolated(r) && r !in visited0 && Reachable(g, visited0, r, t);
        assert r in Elems(out);
        ClosedHoldsReachable(g, visited0, r, Elems(out), t);
      }
    }
  }

  /**
   How the sweep's output splits by restart: `segments[k]` is what the
   traversal restarted at `restarts[k]` emitted. It holds exactly the nodes
   reachable from that node past the marks of that moment, which are `marks`
   plus everything the earlier restarts emitted, and emits them in the order of
   `strategy` against those marks. The restarts increase, as the scan does.
   */
  ghost predicate Segments(g: Graph, strategy: Strategy, marks: set<nat>, restarts: seq<nat>,
                           segments: seq<seq<nat>>)
  {
    && |segments| == |restarts|
    && (forall a, b :: 0 <= a < b < |restarts| ==> restarts[a] < restarts[b])
    && SegmentsOrdered(g, strategy, marks, restarts, segments)
    && (forall k, t :: 0 <= k < |restarts| ==>
          (t in segments[k] <==> Reachable(g, marks + Elems(Concat(segments[..k])), restarts[k], t)))
  }

  /** Each segment follows the order of `strategy` against the marks of its moment. */
  ghost predicate SegmentsOrdered(g: Graph, strategy: Strategy, marks: set<nat>, restarts: seq<nat>,
                                  segments: seq<seq<nat>>)
  {
    && |segments| == |restarts|
    && forall k :: 0 <= k < |restarts| ==>
         Ordered(g, strategy, marks + Elems(Concat(segments[..k])), restarts[k], segments[k])
  }

  /**
   The scan has passed the ids below `i`: every restart lies below `i`, and a
   non-isolated id below `i` is a restart exactly when, at its turn, it was
   neither in `marks` nor emitted by an earlier restart.
   */
  ghost predicate RestartsAreUnmarked(g: Graph, marks: set<nat>, i: nat, restarts: seq<nat>,
                                      segments: seq<seq<nat>>)
  {
    && |segments| == |restarts|
    && (forall k :: 0 <= k < |restarts| ==> restarts[k] < i)
    && forall j :: 1 <= j < i && g.NonIsolated(j) ==>
         (j in restarts <==> j !in marks && forall k :: 0 <= k < |restarts| && restarts[k] < j ==> j !in segments[k])
  }

  /** A new segment in the order of its strategy keeps every segment in order. */
  lemma SegmentsOrderedSnoc(g: Graph, strategy: Strategy, marks: set<nat>, restarts: seq<nat>,
                            segments: seq<seq<nat>>, i: nat, found: seq<nat>)
    requires SegmentsOrdered(g, strategy, marks, restarts, segments)
    requires Ordered(g, strategy, marks + Elems(Concat(segments)), i, found)
    ensures SegmentsOrdered(g, strategy, marks, restarts + [i], segments + [found])
  {
    var rs := restarts + [i];
    var ss := segments + [found];
    forall k | 0 <= k < |rs|
      ensures Ordered(g, strategy, marks + Elems(Concat(ss[..k])), rs[k], ss[k])
    {
      if k < |restarts| {
        assert ss[..k] == segments[..k];
      } else {
        assert ss[..k] == segments;
      }
    }
  }

  /** A restart at `i`, above every earlier restart, adds its own segment. */
  lemma SegmentsSnoc(g: Graph, strategy: Strategy, marks: set<nat>, restarts: seq<nat>,
                     segments: seq<seq<nat>>, i: nat, found: seq<nat>)
    requires Segments(g, strategy, marks, restarts, segments)
    requires forall k :: 0 <= k < |restarts| ==> restarts[k] < i
    requires Ordered(g, strategy, marks + Elems(Concat(segments)), i, found)
    requires forall t :: t in found <==> Reachable(g, marks + Elems(Concat(segments)), i, t)
    ensures Segments(g, strategy, marks, restarts + [i], segments + [found])
  {
    SegmentsOrderedSnoc(g, strategy, marks, restarts, segments, i, found);
    var rs := restarts + [i];
    var ss := segments + [found];
    forall k, t | 0 <= k < |rs|
      ensures t in ss[k] <==> Reachable(g, marks + Elems(Concat(ss[..k])), rs[k], t)
    {
      if k < |restarts| {
        assert ss[..k] == segments[..k];
      } else {
        assert ss[..k] == segments;
      }
    }
  }

  /** Scanning `i` keeps the restart rule, whether or not `i` is restarted. */
  lemma ScanStep(g: Graph, marks: set<nat>, i: nat, restarts: seq<nat>, segments: seq<seq<nat>>,
                 restarted: bool, found: seq<nat>)
    requires RestartsAreUnmarked(g, marks, i, restarts, segments)
    requires restarted ==> g.NonIsolated(i) && i !in marks + Elems(Concat(segments))
    requires !restarted ==> (g.NonIsolated(i) ==> i in marks + Elems(Concat(segments)))
    ensures restarted ==> RestartsAreUnmarked(g, marks, i + 1, restarts + [i], segments + [found])
    ensures !restarted ==> RestartsAreUnmarked(g, marks, i + 1, restarts, segments)
  {
    if restarted {
      var rs := restarts + [i];
      var ss := segments + [found];
      forall j | 1 <= j < i + 1 && g.NonIsolated(j)
        ensures j in rs <==> j !in marks && forall k :: 0 <= k < |rs| && rs[k] < j ==> j !in ss[k]
      {
        if j == i {
          forall k | 0 <= k < |rs| && rs[k] < j
            ensures j !in ss[k]
          {
            if j in ss[k] {
              ConcatHas(segments, k, j);
            }
          }
        } else {
          assert j in rs <==> j in restarts;
          forall k | 0 <= k < |rs| && rs[k] < j
            ensures k < |restarts| && ss[k] == segments[k]
          {
          }
        }
      }
    } else if g.NonIsolated(i) {
      forall j | 1 <= j < i + 1 && g.NonIsolated(j)
        ensures j in restarts <==> j !in marks && forall k :: 0 <= k < |restarts| && restarts[k] < j ==> j !in segments[k]
      {
        if j == i && i !in marks {
          var k := ConcatPart(segments, i);
          assert restarts[k] < i;
        }
      }
    }
  }

  /** The loop invariant of the sweep once the ids below `i` are scanned. */
  ghost predicate Scanned(g: Graph, strategy: Strategy, visited0: set<nat>, i: nat, visited: set<nat>,
                          out: seq<nat>, restarts: seq<nat>, segments: seq<seq<nat>>)
  {
    && SweepState(g, visited0, i, visited, out, restarts)
    && out == Concat(segments)
    && Segments(g, strategy, visited0, restarts, segments)
    && RestartsAreUnmarked(g, visited0, i, restarts, segments)
  }

  /**
   One turn of the sweep loop (bfs-dfs.cpp lines 148-154): if `i` is still
   unmarked and has an edge, restart the traversal from it and append what it
   emits as a new segment; otherwise move on. `next` is the id to scan next.
   */
  method ScanId(g: Graph, strategy: Strategy, ghost visited0: set<nat>, i: nat, visited: set<nat>,
                out: seq<nat>, restarts: seq<nat>, ghost segments: seq<seq<nat>>)
    returns (visited': set<nat>, out': seq<nat>, restarts': seq<nat>, ghost segments': seq<seq<nat>>, next: nat)
    requires g.Valid() && 1 <= i <= g.n
    requires Scanned(g, strategy, visited0, i, visited, out, restarts, segments)
    ensures next == i + 1
    ensures Scanned(g, strategy, visited0, next, visited', out', restarts', segments')
    ensures restarts' == restarts || restarts' == restarts + [i]
    ensures restarts' == restarts + [i] <==> i !in visited && g.NonIsolated(i)
  {
    next := i + 1;
    if i !in visited && g.adj[i] != [] {
      var found;
      visited', found := Traverse(g, strategy, visited, i);
      SweepRestart(g, visited0, i, visited, out, restarts, visited', found);
      SegmentsSnoc(g, strategy, visited0, restarts, segments, i, found);
      ScanStep(g, visited0, i, restarts, segments, true, found);
      ConcatSnoc(segments, found);
      out', restarts', segments' := out + found, restarts + [i], segments + [found];
    } else {
      SweepSkip(g, visited0, i, visited, out, restarts);
      ScanStep(g, visited0, i, restarts, segments, false, []);
      visited', out', restarts', segments' := visited, out, restarts, segments;
    }
    ScannedNext(g, strategy, visited0, i, next, visited', out', restarts', segments');
  }

  lemma ScannedNext(g: Graph, strategy: Strategy, visited0: set<nat>, i: nat, next: nat, visited: set<nat>, out: seq<nat>,
                    restarts: seq<nat>, segments: seq<seq<nat>>)
    requires next == i + 1
    requires Scanned(g, strategy, visited0, i + 1, visited, out, restarts, segments)
    ensures Scanned(g, strategy, visited0, next, visited, out, restarts, segments)
  {
  }

  /**
   The sweep loop in `main` (bfs-dfs.cpp lines 147-155): scan the ids 1..n in
   order and restart the traversal from every id that is still unmarked and has
   an edge. The marks are not cleared between restarts, so no node is emitted
   twice, and no node marked before the sweep is emitted. `restarts` lists the
   restart nodes, the ids the "disconnected components" message names, and
   `segments[k]` is what the restart at `restarts[k]` emitted.
   */
  method ComponentSweep(g: Graph, strategy: Strategy, visited0: set<nat>)
    returns (visited: set<nat>, out: seq<nat>, restarts: seq<nat>, ghost segments: seq<seq<nat>>)
    requires g.Valid()
    ensures visited == visited0 + Elems(out)
    ensures NoDup(out)
    ensures forall t :: t in out ==> t !in visited0 && 1 <= t <= g.n
    ensures forall v :: 1 <= v <= g.n && g.NonIsolated(v) ==> v in visited
    ensures forall r :: r in restarts ==> 1 <= r <= g.n && g.NonIsolated(r) && r !in visited0
    ensures forall t :: t in out <==> ReachableFromEdgeNode(g, visited0, t)
    ensures out == Concat(segments)
    ensures Segments(g, strategy, visited0, restarts, segments)
    ensures RestartsAreUnmarked(g, visited0, g.n + 1, restarts, segments)
  {
    visited := visited0;
    out := [];
    restarts := [];
    segments := [];
    var i := 1;
    while i <= g.n
      invariant 1 <= i <= g.n + 1
      invariant Scanned(g, strategy, visited0, i, visited, out, restarts, segments)
    {
      visited, out, restarts, segments, i := ScanId(g, strategy, visited0, i, visited, out, restarts, segments);
    }
    assert i == g.n + 1;
    SweepExact(g, visited0, visited, out, restarts);
  }

  /**
   The sweep's first restart is the smallest id that is unmarked and has an
   edge, and the sweep's output begins with it.
   */
  lemma FirstRestart(g: Graph, strategy: Strategy, marks: set<nat>, out: seq<nat>, restarts: seq<nat>, segments: seq<seq<nat>>, j: nat)
    requires RestartsAreUnmarked(g, marks, g.n + 1, restarts, segments)
    requires Segments(g, strategy, marks, restarts, segments)
    requires out == Concat(segments)
    requires forall r :: r in restarts ==> 1 <= r <= g.n && g.NonIsolated(r) && r !in marks
    requires 1 <= j <= g.n && g.NonIsolated(j) && j !in marks
    requires forall v :: 1 <= v < j && g.NonIsolated(v) ==> v in marks
    ensures restarts != [] && restarts[0] == j
    ensures out != [] && out[0] == j
  {
    forall k | 0 <= k < |restarts|
      ensures j <= restarts[k]
    {
      assert restarts[k] in restarts;
    }
    assert j in restarts;
    assert restarts[0] in restarts;
    ConcatHead(segments);
  }

  /** In an undirected graph the sweep emits no isolated node. */
  lemma SweepSkipsIsolated(g: Graph, visited0: set<nat>, out: seq<nat>)
    requires g.Valid() && g.Undirected()
    requires forall t :: t in out <==> ReachableFromEdgeNode(g, visited0, t)
    ensures forall t :: t in out ==> g.NonIsolated(t)
  {
    forall t | t in out
      ensures g.NonIsolated(t)
    {
      assert ReachableFromEdgeNode(g, visited0, t);
      var r :| 1 <= r <= g.n && g.NonIsolated(r) && r !in visited0 && Reachable(g, visited0, r, t);
      if t != r {
        ReachedHasEdge(g, visited0, r, t);
      }
    }
  }

  /** What one pass through the menu did. */
  datatype MenuResult = Quit | Ran(visited: set<nat>, first: seq<nat>, rest: seq<nat>, restarts: seq<nat>)

  /**
   One pass of the menu loop in `main` (bfs-dfs.cpp lines 125-158) once the
   choice is read: choice 3 quits before a start node is read; any other
   choice reads `start`, clears the marks of the nodes 1..n, runs BFS
   (choice 1) or DFS (choice 2) from `start` — any other choice runs neither —
   and then sweeps with BFS if the choice was 1 and with DFS otherwise. The
   sweep starts from the marks the first traversal left. `first` is what the
   chosen traversal emitted, `rest` what the sweep emitted, `r.restarts` the
   sweep's restart nodes and `segments` what each restart emitted.
   */
  method MenuRound(g: Graph, choice: int, start: nat, visited0: set<nat>)
    returns (r: MenuResult, ghost segments: seq<seq<nat>>)
    requires g.Valid()
    requires choice == 1 || choice == 2 ==> 1 <= start <= g.n
    ensures r.Quit? <==> choice == 3
    ensures r.Ran? ==> NoDup(r.first + r.rest)
    ensures r.Ran? ==> r.visited == (visited0 - g.Nodes()) + Elems(r.first + r.rest)
    ensures r.Ran? ==> forall t :: t in r.first <==> (choice == 1 || choice == 2) && Reachable(g, {}, start, t)
    ensures r.Ran? ==> forall v :: 1 <= v <= g.n && g.NonIsolated(v) ==> v in r.visited
    ensures r.Ran? ==> forall t :: t in r.rest <==>
              ReachableFromEdgeNode(g, (visited0 - g.Nodes()) + Elems(r.first), t)
    ensures r.Ran? ==> r.rest == Concat(segments)
    ensures r.Ran? ==> forall x :: x in r.restarts ==>
              1 <= x <= g.n && g.NonIsolated(x) && x !in (visited0 - g.Nodes()) + Elems(r.first)
    ensures r.Ran? && (choice == 1 || choice == 2) ==>
              Ordered(g, if choice == 1 then Breadth else Depth, visited0 - g.Nodes(), start, r.first)
    ensures r.Ran? ==> Segments(g, if choice == 1 then Breadth else Depth, (visited0 - g.Nodes()) + Elems(r.first),
                                r.restarts, segments)
    ensures r.Ran? ==> RestartsAreUnmarked(g, (visited0 - g.Nodes()) + Elems(r.first), g.n + 1, r.restarts, segments)
  {
    if choice == 3 {
      return Quit, [];
    }
    var cleared := ResetVisited(visited0, g.n);
    assert cleared == visited0 - g.Nodes();
    var visited := cleared;
    var first: seq<nat> := [];
    if choice == 1 || choice == 2 {
      var strategy := if choice == 1 then Breadth else Depth;
      visited, first := Traverse(g, strategy, cleared, start);
      forall t
        ensures Reachable(g, cleared, start, t) <==> Reachable(g, {}, start, t)
      {
        ReachableIgnoresNonNodes(g, cleared, start, t);
      }
    }
    assert visited == cleared + Elems(first);
    var visited', rest, restarts;
    visited', rest, restarts, segments := ComponentSweep(g, if choice == 1 then Breadth else Depth, visited);
    assert NoDup(first + rest) by {
      forall x | x in first
        ensures x !in rest
      {
        assert x in Elems(first);
      }
      NoDupAppend(first, rest);
    }
    assert Elems(first + rest) == Elems(first) + Elems(rest);
    r := Ran(visited', first, rest, restarts);
  }
}
