/**
 Level-synchronous breadth-first traversal. Each round drains the whole queue
 into the current level and emits it in queue order; then every neighbour of
 every node of the level is checked and claimed (in the critical section) and
 the claimed nodes form the next level, which refills the queue.
*/
module Bfs {
  import opened Graph
  import opened Reach

  /**
   Expanding one level (lines 35-48 of bfs-dfs.cpp, the parallel loop run in
   index order): every unvisited neighbour of a level node is claimed once and
   appended to `next`.
   */
  method ExpandLevel(g: Graph, visited: set<nat>, current: seq<nat>, ghost seen: set<nat>)
    returns (visited': set<nat>, next: seq<nat>)
    requires g.Valid()
    requires forall v :: v in current ==> v < |g.adj|
    requires seen <= visited
    ensures visited' == visited + Elems(next)
    ensures Elems(next) == Step(g, seen, Elems(current)) - visited
    ensures NoDup(next)
  {
    visited' := visited;
    next := [];
    var i := 0;
    while i < |current|
      invariant 0 <= i <= |current|
      invariant visited' == visited + Elems(next)
      invariant Elems(next) == Step(g, seen, Elems(current[..i])) - visited
      invariant NoDup(next)
    {
      var v := current[i];
      assert v in current;
      assert Elems(current[..i + 1]) == Elems(current[..i]) + {v} by {
        assert current[..i + 1] == current[..i] + [v];
      }
      StepAddOne(g, seen, Elems(current[..i]), v);
      var claimed;
      visited', claimed := ClaimAll(visited', g.adj[v]);
      NoDupAppend(next, claimed);
      next := next + claimed;
      i := i + 1;
    }
    assert current[..i] == current;
  }

  /** `n` copies of `x`. */
  function Repeat(x: nat, n: nat): (r: seq<nat>)
    ensures |r| == n && forall i :: 0 <= i < n ==> r[i] == x
  {
    if n == 0 then [] else Repeat(x, n - 1) + [x]
  }

  /** Level `k` holds exactly the nodes of `Layer(k)`, for every recorded level. */
  ghost predicate LevelsAreLayers(g: Graph, seen: set<nat>, start: nat, levels: seq<seq<nat>>) {
    forall k {:trigger levels[k]} :: 0 <= k < |levels| ==> Elems(levels[k]) == Layer(g, seen, start, k)
  }

  /** `dist[i]` is a level below `depth` that holds `out[i]`. */
  ghost predicate DistIsLevel(g: Graph, seen: set<nat>, start: nat, depth: nat, out: seq<nat>, dist: seq<nat>) {
    && |dist| == |out|
    && forall i {:trigger dist[i]} :: 0 <= i < |out| ==> dist[i] < depth && out[i] in Layer(g, seen, start, dist[i])
  }

  /** A non-decreasing sequence. */
  ghost predicate Ascending(dist: seq<nat>) {
    forall i, j :: 0 <= i < j < |dist| ==> dist[i] <= dist[j]
  }

  /**
   What holds at the top of the BFS loop after `depth` rounds: the queue holds
   exactly level `depth`, the earlier levels have been emitted one after the
   other, and the marked nodes are the pre-marked ones plus the `depth`-ball.
   `dist[i]` is the level `out[i]` was emitted in; it never decreases.
   */
  ghost predicate LoopState(g: Graph, seen: set<nat>, start: nat, depth: nat, queue: seq<nat>,
                            out: seq<nat>, levels: seq<seq<nat>>, dist: seq<nat>, visited: set<nat>)
  {
    && depth == |levels|
    && Elems(queue) == Layer(g, seen, start, depth)
    && NoDup(queue)
    && Elems(out) + Elems(queue) == Ball(g, seen, start, depth)
    && NoDup(out)
    && visited == seen + Ball(g, seen, start, depth)
    && out == Concat(levels)
    && LevelsAreLayers(g, seen, start, levels)
    && DistIsLevel(g, seen, start, depth, out, dist)
    && Ascending(dist)
    && (depth == 0 ==> queue == [start])
    && (depth > 0 ==> |out| >= 1 && out[0] == start)
  }

  lemma Init(g: Graph, seen: set<nat>, start: nat)
    ensures LoopState(g, seen, start, 0, [start], [], [], [], seen + {start})
  {
    assert Elems([start]) == {start};
  }

  lemma LevelsSnoc(g: Graph, seen: set<nat>, start: nat, levels: seq<seq<nat>>, queue: seq<nat>)
    requires LevelsAreLayers(g, seen, start, levels)
    requires Elems(queue) == Layer(g, seen, start, |levels|)
    ensures LevelsAreLayers(g, seen, start, levels + [queue])
  {
    var l := levels + [queue];
    forall k | 0 <= k < |l|
      ensures Elems(l[k]) == Layer(g, seen, start, k)
    {
      if k < |levels| {
        assert l[k] == levels[k];
      }
    }
  }

  lemma DistSnoc(g: Graph, seen: set<nat>, start: nat, depth: nat, out: seq<nat>, dist: seq<nat>,
                 queue: seq<nat>)
    requires DistIsLevel(g, seen, start, depth, out, dist)
    requires Elems(queue) == Layer(g, seen, start, depth)
    ensures DistIsLevel(g, seen, start, depth + 1, out + queue, dist + Repeat(depth, |queue|))
  {
    var o := out + queue;
    var d := dist + Repeat(depth, |queue|);
    forall i | 0 <= i < |o|
      ensures d[i] < depth + 1 && o[i] in Layer(g, seen, start, d[i])
    {
      if i < |out| {
        assert o[i] == out[i] && d[i] == dist[i];
      } else {
        assert o[i] == queue[i - |out|] && d[i] == depth;
        assert o[i] in Elems(queue);
      }
    }
  }

  lemma AscendingSnoc(dist: seq<nat>, depth: nat, count: nat)
    requires Ascending(dist)
    requires forall i :: 0 <= i < |dist| ==> dist[i] <= depth
    ensures Ascending(dist + Repeat(depth, count))
  {
    var d := dist + Repeat(depth, count);
    forall i, j | 0 <= i < j < |d|
      ensures d[i] <= d[j]
    {
      if j >= |dist| {
        assert d[j] == depth;
        if i < |dist| {
          assert d[i] == dist[i];
        }
      } else {
        assert d[i] == dist[i] && d[j] == dist[j];
      }
    }
  }

  /** Emitting the current level and queueing the next one re-establishes the loop state. */
  lemma NextState(g: Graph, seen: set<nat>, start: nat, depth: nat, queue: seq<nat>,
                  out: seq<nat>, levels: seq<seq<nat>>, dist: seq<nat>, visited: set<nat>,
                  next: seq<nat>)
    requires LoopState(g, seen, start, depth, queue, out, levels, dist, visited)
    requires queue != []
    requires Elems(next) == Step(g, seen, Elems(queue)) - visited
    requires NoDup(next)
    ensures LoopState(g, seen, start, depth + 1, next, out + queue, levels + [queue],
                      dist + Repeat(depth, |queue|), visited + Elems(next))
  {
    NextIsLayer(g, seen, start, depth, queue, out, levels, dist, visited, next);
    var o := out + queue;
    assert Elems(o) + Elems(next) == Ball(g, seen, start, depth + 1) by {
      BallLayers(g, seen, start, depth + 1);
      assert Elems(o) == Elems(out) + Elems(queue);
    }
    assert visited + Elems(next) == seen + Ball(g, seen, start, depth + 1) by {
      BallLayers(g, seen, start, depth + 1);
    }
    assert NoDup(o) by {
      OutBeforeQueue(g, seen, start, depth, queue, out, levels, dist, visited);
      NoDupAppend(out, queue);
    }
    ConcatSnoc(levels, queue);
    LevelsSnoc(g, seen, start, levels, queue);
    DistSnoc(g, seen, start, depth, out, dist, queue);
    assert forall i :: 0 <= i < |dist| ==> dist[i] <= depth by {
      forall i | 0 <= i < |dist|
        ensures dist[i] <= depth
      {
        assert DistIsLevel(g, seen, start, depth, out, dist);
      }
    }
    AscendingSnoc(dist, depth, |queue|);
    assert |o| >= 1 && o[0] == start by {
      if depth == 0 {
        assert o == [start];
      } else {
        assert o[0] == out[0];
      }
    }
  }

  /** Every emitted node lies in an earlier level than the queued ones. */
  lemma OutBeforeQueue(g: Graph, seen: set<nat>, start: nat, depth: nat, queue: seq<nat>,
                       out: seq<nat>, levels: seq<seq<nat>>, dist: seq<nat>, visited: set<nat>)
    requires LoopState(g, seen, start, depth, queue, out, levels, dist, visited)
    ensures forall x :: x in out ==> x !in queue
  {
    forall x | x in out
      ensures x !in queue
    {
      var i :| 0 <= i < |out| && out[i] == x;
      var k := dist[i];
      BallLayers(g, seen, start, k);
      BallGrows(g, seen, start, k, depth - 1);
      BallLayers(g, seen, start, depth);
      assert x in Before(g, seen, start, depth);
      assert x !in Elems(queue);
    }
  }

  /**
   One round of the loop of `parallel_bfs` (bfs-dfs.cpp lines 19-53): drain and
   emit the queue as the current level (lines 24-29), expand it, and refill the
   queue with the next level (lines 51-52).
   */
  method Round(g: Graph, seen: set<nat>, start: nat, ghost depth: nat, queue: seq<nat>,
               out: seq<nat>, ghost levels: seq<seq<nat>>, ghost dist: seq<nat>, visited: set<nat>)
    returns (queue': seq<nat>, out': seq<nat>, ghost levels': seq<seq<nat>>, ghost dist': seq<nat>,
             visited': set<nat>, ghost depth': nat)
    requires g.Valid() && 1 <= start <= g.n && start !in seen
    requires LoopState(g, seen, start, depth, queue, out, levels, dist, visited)
    requires queue != []
    ensures depth' == depth + 1
    ensures LoopState(g, seen, start, depth', queue', out', levels', dist', visited')
    ensures out' == out + queue
  {
    depth' := depth + 1;
    var current := queue;
    QueueInRange(g, seen, start, depth, queue, out, levels, dist, visited);
    var next;
    visited', next := ExpandLevel(g, visited, current, seen);
    NextState(g, seen, start, depth, queue, out, levels, dist, visited, next);
    out' := out + current;
    levels' := levels + [current];
    dist' := dist + Repeat(depth, |current|);
    queue' := next;
  }

  lemma QueueInRange(g: Graph, seen: set<nat>, start: nat, depth: nat, queue: seq<nat>,
                     out: seq<nat>, levels: seq<seq<nat>>, dist: seq<nat>, visited: set<nat>)
    requires g.Valid() && 1 <= start <= g.n && start !in seen
    requires LoopState(g, seen, start, depth, queue, out, levels, dist, visited)
    ensures forall v :: v in queue ==> v < |g.adj|
  {
    forall v | v in queue
      ensures v < |g.adj|
    {
      BallInNodes(g, seen, start, depth);
      BallLayers(g, seen, start, depth);
      assert v in Elems(queue);
      assert v in g.Nodes();
    }
  }

  lemma NextIsLayer(g: Graph, seen: set<nat>, start: nat, depth: nat, queue: seq<nat>,
                    out: seq<nat>, levels: seq<seq<nat>>, dist: seq<nat>, visited: set<nat>,
                    next: seq<nat>)
    requires LoopState(g, seen, start, depth, queue, out, levels, dist, visited)
    requires Elems(next) == Step(g, seen, Elems(queue)) - visited
    ensures Elems(next) == Layer(g, seen, start, depth + 1)
  {
    NextLayer(g, seen, start, depth);
    BallLayers(g, seen, start, depth + 1);
  }

  /** The emitted nodes are distinct node ids, so there are at most n of them. */
  lemma EmittedBound(g: Graph, seen: set<nat>, start: nat, depth: nat, queue: seq<nat>, out: seq<nat>)
    requires g.Valid() && 1 <= start <= g.n && start !in seen
    requires Elems(out) + Elems(queue) == Ball(g, seen, start, depth)
    requires NoDup(out)
    ensures |out| <= g.n
  {
    BallInNodes(g, seen, start, depth);
    forall x | x in out
      ensures 1 <= x <= g.n
    {
      assert x in Elems(out) + Elems(queue);
    }
    NoDupBound(out, g.n);
  }

  /** When the queue runs dry, the emitted nodes are the whole reachable set. */
  lemma FinishReach(g: Graph, seen: set<nat>, start: nat, depth: nat,
                    out: seq<nat>, levels: seq<seq<nat>>, dist: seq<nat>, visited: set<nat>)
    requires g.Valid() && 1 <= start <= g.n && start !in seen
    requires LoopState(g, seen, start, depth, [], out, levels, dist, visited)
    ensures visited == seen + Elems(out)
    ensures NoDup(out)
    ensures forall t :: t in out ==> t !in seen && 1 <= t <= g.n
    ensures forall t :: t in out <==> Reachable(g, seen, start, t)
  {
    assert depth > 0;
    BallLayers(g, seen, start, depth);
    BallInNodes(g, seen, start, depth);
    var reached := Ball(g, seen, start, depth - 1);
    assert Step(g, seen, reached) <= reached;
    forall t
      ensures t in out <==> Reachable(g, seen, start, t)
    {
      if Reachable(g, seen, start, t) {
        ClosedHoldsReachable(g, seen, start, reached, t);
        assert t in Elems(out);
      }
      if t in out {
        assert t in Elems(out);
        BallHasWalk(g, seen, start, t, depth - 1);
      }
    }
    forall t | t in out
      ensures t !in seen && 1 <= t <= g.n
    {
      assert t in Elems(out);
    }
  }

  /** The levels, read back as shortest distances. */
  lemma FinishLevels(g: Graph, seen: set<nat>, start: nat, levels: seq<seq<nat>>)
    requires start !in seen
    requires LevelsAreLayers(g, seen, start, levels)
    ensures forall k, t :: 0 <= k < |levels| ==> (t in levels[k] <==> AtDistance(g, seen, start, t, k))
  {
    forall k, t | 0 <= k < |levels|
      ensures t in levels[k] <==> AtDistance(g, seen, start, t, k)
    {
      assert t in levels[k] <==> t in Elems(levels[k]);
      LayerIsDistance(g, seen, start, t, k);
    }
  }

  /** Emission order, read back as shortest distances, never decreases. */
  lemma FinishOrder(g: Graph, seen: set<nat>, start: nat, depth: nat, out: seq<nat>, dist: seq<nat>)
    requires start !in seen
    requires DistIsLevel(g, seen, start, depth, out, dist)
    requires Ascending(dist)
    ensures forall i, j, di, dj :: 0 <= i < j < |out|
              && AtDistance(g, seen, start, out[i], di) && AtDistance(g, seen, start, out[j], dj)
              ==> di <= dj
  {
    forall i, j, di, dj | 0 <= i < j < |out|
        && AtDistance(g, seen, start, out[i], di) && AtDistance(g, seen, start, out[j], dj)
      ensures di <= dj
    {
      LayerIsDistance(g, seen, start, out[i], dist[i]);
      LayerIsDistance(g, seen, start, out[j], dist[j]);
      DistanceUnique(g, seen, start, out[i], di, dist[i]);
      DistanceUnique(g, seen, start, out[j], dj, dist[j]);
    }
  }

  /** Everything the traversal promises, read off the loop state once the queue is empty. */
  lemma Finish(g: Graph, seen: set<nat>, start: nat, depth: nat,
               out: seq<nat>, levels: seq<seq<nat>>, dist: seq<nat>, visited: set<nat>)
    requires g.Valid() && 1 <= start <= g.n && start !in seen
    requires LoopState(g, seen, start, depth, [], out, levels, dist, visited)
    ensures visited == seen + Elems(out)
    ensures NoDup(out)
    ensures |out| >= 1 && out[0] == start
    ensures forall t :: t in out ==> t !in seen && 1 <= t <= g.n
    ensures forall t :: t in out <==> Reachable(g, seen, start, t)
    ensures out == Concat(levels)
    ensures forall k, t :: 0 <= k < |levels| ==> (t in levels[k] <==> AtDistance(g, seen, start, t, k))
    ensures forall i, j, di, dj :: 0 <= i < j < |out|
              && AtDistance(g, seen, start, out[i], di) && AtDistance(g, seen, start, out[j], dj)
              ==> di <= dj
  {
    FinishReach(g, seen, start, depth, out, levels, dist, visited);
    FinishLevels(g, seen, start, levels);
    FinishOrder(g, seen, start, depth, out, dist);
  }

  /**
   `parallel_bfs` (bfs-dfs.cpp lines 14-54). `seen` is the visited set on entry;
   `start` is marked unconditionally, so it must be unmarked on entry. On return
   the emitted nodes are exactly the nodes reachable from `start` without
   touching a node that was already marked, each emitted once; the k-th level is
   exactly the set of nodes at shortest distance k, and emission order never
   decreases in shortest distance.
   */
  method ParallelBfs(g: Graph, seen: set<nat>, start: nat)
    returns (visited: set<nat>, out: seq<nat>, ghost levels: seq<seq<nat>>)
    requires g.Valid()
    requires 1 <= start <= g.n
    requires start !in seen
    ensures visited == seen + Elems(out)
    ensures NoDup(out)
    ensures |out| >= 1 && out[0] == start
    ensures forall t :: t in out ==> t !in seen && 1 <= t <= g.n
    ensures forall t :: t in out <==> Reachable(g, seen, start, t)
    ensures out == Concat(levels)
    ensures forall k, t :: 0 <= k < |levels| ==> (t in levels[k] <==> AtDistance(g, seen, start, t, k))
    ensures forall i, j, di, dj :: 0 <= i < j < |out|
              && AtDistance(g, seen, start, out[i], di) && AtDistance(g, seen, start, out[j], dj)
              ==> di <= dj
  {
    visited := seen + {start};
    var queue := [start];
    out := [];
    levels := [];
    ghost var dist := [];
    ghost var depth: nat := 0;
    Init(g, seen, start);
    while queue != []
      invariant LoopState(g, seen, start, depth, queue, out, levels, dist, visited)
      invariant |out| <= g.n
      decreases g.n - |out|
    {
      queue, out, levels, dist, visited, depth := Round(g, seen, start, depth, queue, out, levels, dist, visited);
      EmittedBound(g, seen, start, depth, queue, out);
    }
    Finish(g, seen, start, depth, out, levels, dist, visited);
  }
}
