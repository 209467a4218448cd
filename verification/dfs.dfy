/**
 Batch-expand depth-first traversal. Each step pops the top of the stack and
 emits it, claims (in the critical section) every unvisited neighbour of it,
 and pushes the claimed batch, so the last claimed neighbour is explored next.
 The stack is a sequence whose last element is the top.
*/
module Dfs {
  import opened Graph
  import opened Reach

  /**
   What holds at the top of the DFS loop: the marked nodes are the pre-marked
   ones plus the emitted and the stacked ones, nothing is emitted or stacked
   twice, everything emitted or stacked is reachable, and every unmarked
   neighbour of an emitted node is on the stack.
   */
  ghost predicate LoopState(g: Graph, seen: set<nat>, start: nat, stack: seq<nat>, out: seq<nat>,
                            visited: set<nat>)
  {
    && visited == seen + Elems(out) + Elems(stack)
    && seen !! (Elems(out) + Elems(stack))
    && NoDup(out)
    && NoDup(stack)
    && (forall x :: x in out ==> x !in stack)
    && (forall x :: x in Elems(out) + Elems(stack) ==> Reachable(g, seen, start, x))
    && Step(g, seen, Elems(out)) <= Elems(out) + Elems(stack)
    && (out == [] ==> stack == [start])
    && (out != [] ==> out[0] == start)
  }

  /**
   Depth-first discovery: every emitted node but the first, and every stacked
   node once something is emitted, is a neighbour of an earlier emitted node.
   */
  ghost predicate Discovered(g: Graph, stack: seq<nat>, out: seq<nat>) {
    && (forall i :: 0 < i < |out| ==> exists j :: 0 <= j < i && Edge(g, out[j], out[i]))
    && (out != [] ==> forall k :: 0 <= k < |stack| ==> exists j :: 0 <= j < |out| && Edge(g, out[j], stack[k]))
  }

  lemma DiscoveredStep(g: Graph, stack: seq<nat>, out: seq<nat>, v: nat, rest: seq<nat>, claimed: seq<nat>)
    requires Discovered(g, stack, out)
    requires stack == rest + [v]
    requires out == [] ==> |stack| == 1
    requires forall u :: u in claimed ==> Edge(g, v, u)
    ensures Discovered(g, rest + claimed, out + [v])
  {
    var o := out + [v];
    var s := rest + claimed;
    forall i | 0 < i < |o|
      ensures exists j :: 0 <= j < i && Edge(g, o[j], o[i])
    {
      if i < |out| {
        var j :| 0 <= j < i && Edge(g, out[j], out[i]);
        assert o[j] == out[j] && o[i] == out[i];
      } else {
        assert stack[|stack| - 1] == v;
        var j :| 0 <= j < |out| && Edge(g, out[j], stack[|stack| - 1]);
        assert o[j] == out[j];
      }
    }
    forall k | 0 <= k < |s|
      ensures exists j :: 0 <= j < |o| && Edge(g, o[j], s[k])
    {
      if k < |rest| {
        assert s[k] == stack[k];
        assert out != [];
        var j :| 0 <= j < |out| && Edge(g, out[j], stack[k]);
        assert o[j] == out[j];
      } else {
        assert s[k] in claimed;
        assert o[|out|] == v;
      }
    }
  }

  /**
   One pass of the DFS loop as a relation between stacks: `v` is the top of
   `before`, and `after` is `before` with `v` popped and a batch pushed that
   holds, once each, exactly the neighbours of `v` outside `marked`.
   */
  ghost predicate PopStep(g: Graph, marked: set<nat>, before: seq<nat>, v: nat, after: seq<nat>) {
    && before != []
    && v == before[|before| - 1]
    && |before| - 1 <= |after|
    && after[..|before| - 1] == before[..|before| - 1]
    && NoDup(after[|before| - 1..])
    && forall u :: u in after[|before| - 1..] <==> u in g.Neighbours(v) && u !in marked
  }

  /**
   The stack before each pass: `stacks[i]` is the stack from which `out[i]` is
   popped, and the marks at that moment are the pre-marked nodes plus those
   emitted or stacked so far.
   */
  ghost predicate Trace(g: Graph, seen: set<nat>, out: seq<nat>, stacks: seq<seq<nat>>) {
    && |stacks| == |out| + 1
    && forall i :: 0 <= i < |out| ==>
         PopStep(g, seen + Elems(out[..i]) + Elems(stacks[i]), stacks[i], out[i], stacks[i + 1])
  }

  lemma {:induction false} TraceSnoc(g: Graph, seen: set<nat>, out: seq<nat>, stacks: seq<seq<nat>>,
                                     visited: set<nat>, v: nat, next: seq<nat>)
    requires Trace(g, seen, out, stacks)
    requires visited == seen + Elems(out) + Elems(stacks[|out|])
    requires PopStep(g, visited, stacks[|out|], v, next)
    ensures Trace(g, seen, out + [v], stacks + [next])
  {
    var o := out + [v];
    var st := stacks + [next];
    forall i | 0 <= i < |o|
      ensures PopStep(g, seen + Elems(o[..i]) + Elems(st[i]), st[i], o[i], st[i + 1])
    {
      assert o[..i] == out[..i];
      assert st[i] == stacks[i];
      if i < |out| {
        assert st[i + 1] == stacks[i + 1];
      } else {
        assert out[..i] == out;
      }
    }
  }

  lemma TraceAt(g: Graph, seen: set<nat>, out: seq<nat>, stacks: seq<seq<nat>>, i: nat)
    requires Trace(g, seen, out, stacks)
    requires i < |out|
    ensures PopStep(g, seen + Elems(out[..i]) + Elems(stacks[i]), stacks[i], out[i], stacks[i + 1])
  {
  }

  lemma Init(g: Graph, seen: set<nat>, start: nat)
    requires start !in seen
    ensures LoopState(g, seen, start, [start], [], seen + {start})
  {
    assert Elems([start]) == {start};
    assert WalkFrom(g, seen, start, start, [start]);
  }

  /** The emitted and stacked nodes are distinct nodes, so fewer than n + 1 of them. */
  lemma Bound(g: Graph, seen: set<nat>, start: nat, stack: seq<nat>, out: seq<nat>, visited: set<nat>)
    requires g.Valid() && 1 <= start <= g.n
    requires LoopState(g, seen, start, stack, out, visited)
    ensures |out| + |stack| <= g.n
  {
    forall x | x in out + stack
      ensures 1 <= x <= g.n
    {
      assert x in Elems(out) + Elems(stack);
      ReachableInRange(g, seen, start, x);
    }
    NoDupAppend(out, stack);
    NoDupBound(out + stack, g.n);
  }

  /**
   One iteration of the loop of `parallel_dfs` (bfs-dfs.cpp lines 62-94): pop
   and emit the top node (lines 63-65), claim its unvisited neighbours in index
   order (lines 70-88) and push the claimed batch in claim order (lines 92-93).
   */
  method PopAndExpand(g: Graph, seen: set<nat>, start: nat, stack: seq<nat>, out: seq<nat>, visited: set<nat>)
    returns (stack': seq<nat>, out': seq<nat>, visited': set<nat>, claimed: seq<nat>)
    requires g.Valid() && 1 <= start <= g.n
    requires LoopState(g, seen, start, stack, out, visited)
    requires Discovered(g, stack, out)
    requires stack != []
    ensures LoopState(g, seen, start, stack', out', visited')
    ensures Discovered(g, stack', out')
    ensures out' == out + [stack[|stack| - 1]]
    ensures stack' == stack[..|stack| - 1] + claimed
    ensures forall u :: u in claimed <==> u in g.Neighbours(stack[|stack| - 1]) && u !in visited
    ensures PopStep(g, visited, stack, stack[|stack| - 1], stack')
  {
    var v := stack[|stack| - 1];
    var rest := stack[..|stack| - 1];
    SplitLast(stack);
    assert v in Elems(stack);
    ReachableInRange(g, seen, start, v);
    visited', claimed := ClaimAll(visited, g.adj[v]);
    out' := out + [v];
    stack' := rest + claimed;
    PopPush(g, seen, start, stack, out, visited, v, rest, claimed, visited');
    assert Discovered(g, stack', out') by {
      assert forall u :: u in claimed ==> Edge(g, v, u);
      DiscoveredStep(g, stack, out, v, rest, claimed);
    }
    PopStepOf(g, visited, stack, v, claimed);
  }

  lemma PopStepOf(g: Graph, marked: set<nat>, stack: seq<nat>, v: nat, claimed: seq<nat>)
    requires stack != [] && v == stack[|stack| - 1]
    requires NoDup(claimed)
    requires forall u :: u in claimed <==> u in g.Neighbours(v) && u !in marked
    ensures PopStep(g, marked, stack, v, stack[..|stack| - 1] + claimed)
  {
  }

  lemma PopPush(g: Graph, seen: set<nat>, start: nat, stack: seq<nat>, out: seq<nat>, visited: set<nat>,
                v: nat, rest: seq<nat>, claimed: seq<nat>, visited': set<nat>)
    requires g.Valid()
    requires LoopState(g, seen, start, stack, out, visited)
    requires stack == rest + [v]
    requires v < |g.adj|
    requires visited' == visited + Elems(g.adj[v])
    requires forall u :: u in claimed <==> u in g.adj[v] && u !in visited
    requires NoDup(claimed)
    ensures LoopState(g, seen, start, rest + claimed, out + [v], visited')
  {
    var o := out + [v];
    var s := rest + claimed;
    NoDupParts(rest, [v]);
    assert Elems(o) + Elems(s) == Elems(out) + Elems(stack) + Elems(claimed) by {
      assert Elems(o) == Elems(out) + {v};
      assert Elems(s) == Elems(rest) + Elems(claimed);
      assert Elems(stack) == Elems(rest) + {v};
    }
    assert visited' == seen + Elems(o) + Elems(s);
    assert NoDup(o) by {
      assert v in stack;
      NoDupAppend(out, [v]);
    }
    assert NoDup(s) by {
      forall x | x in rest
        ensures x !in claimed
      {
        assert x in Elems(stack);
      }
      NoDupAppend(rest, claimed);
    }
    assert forall x :: x in o ==> x !in s by {
      forall x | x in o
        ensures x !in s
      {
        if x != v {
          assert x in out;
          assert x !in rest;
        }
        assert x in Elems(out) + Elems(stack);
      }
    }
    assert forall x :: x in Elems(o) + Elems(s) ==> Reachable(g, seen, start, x) by {
      forall x | x in Elems(claimed)
        ensures Reachable(g, seen, start, x)
      {
        assert v in Elems(out) + Elems(stack);
        ReachableStep(g, seen, start, v, x);
      }
    }
    assert Step(g, seen, Elems(o)) <= Elems(o) + Elems(s) by {
      assert Elems(o) == Elems(out) + {v};
      StepAddOne(g, seen, Elems(out), v);
    }
  }

  /** When the stack runs dry, the emitted nodes are the whole reachable set. */
  lemma Finish(g: Graph, seen: set<nat>, start: nat, out: seq<nat>, visited: set<nat>)
    requires g.Valid() && 1 <= start <= g.n
    requires LoopState(g, seen, start, [], out, visited)
    ensures forall t :: t in out ==> t !in seen && 1 <= t <= g.n
    ensures forall t :: t in out <==> Reachable(g, seen, start, t)
  {
    assert Elems<nat>([]) == {};
    forall t
      ensures t in out <==> Reachable(g, seen, start, t)
    {
      if Reachable(g, seen, start, t) {
        assert start in Elems(out);
        ClosedHoldsReachable(g, seen, start, Elems(out), t);
      }
      if t in out {
        assert t in Elems(out);
      }
    }
    forall t | t in out
      ensures t !in seen && 1 <= t <= g.n
    {
      assert t in Elems(out);
      ReachableInRange(g, seen, start, t);
    }
  }

  /**
   `parallel_dfs` (bfs-dfs.cpp lines 57-95). `seen` is the visited set on entry;
   `start` is marked unconditionally, so it must be unmarked on entry. On return
   the emitted nodes are exactly the nodes reachable from `start` without
   touching a node that was already marked, each emitted once. `stacks`
   records the stack before each pop: it starts as [start], ends empty, and
   each pass pops the node it emits and pushes exactly its unmarked
   neighbours.
   */
  method ParallelDfs(g: Graph, seen: set<nat>, start: nat)
    returns (visited: set<nat>, out: seq<nat>, ghost stacks: seq<seq<nat>>)
    requires g.Valid()
    requires 1 <= start <= g.n
    requires start !in seen
    ensures visited == seen + Elems(out)
    ensures NoDup(out)
    ensures |out| >= 1 && out[0] == start
    ensures forall t :: t in out ==> t !in seen && 1 <= t <= g.n
    ensures forall t :: t in out <==> Reachable(g, seen, start, t)
    ensures forall i :: 0 < i < |out| ==> exists j :: 0 <= j < i && Edge(g, out[j], out[i])
    ensures Trace(g, seen, out, stacks)
    ensures stacks[0] == [start] && stacks[|out|] == []
  {
    visited := seen + {start};
    var stack := [start];
    out := [];
    stacks := [[start]];
    Init(g, seen, start);
    while stack != []
      invariant LoopState(g, seen, start, stack, out, visited)
      invariant Discovered(g, stack, out)
      invariant Trace(g, seen, out, stacks)
      invariant stacks[0] == [start] && stacks[|out|] == stack
      decreases g.n - |out|
    {
      Bound(g, seen, start, stack, out, visited);
      var stack', out', visited', claimed := PopAndExpand(g, seen, start, stack, out, visited);
      TraceSnoc(g, seen, out, stacks, visited, stack[|stack| - 1], stack');
      stack, out, visited, stacks := stack', out', visited', stacks + [stack'];
      Bound(g, seen, start, stack, out, visited);
    }
    Finish(g, seen, start, out, visited);
    assert Elems(out) + Elems<nat>([]) == Elems(out);
  }

  /** The graph with edges 1-2, 1-3 and 2-4. */
  function Kite(): (g: Graph)
    ensures g.Valid() && g.Undirected()
  {
    Graph(4, [[], [2, 3], [1, 4], [1], [2]])
  }

  lemma KiteFirstPop(marked: set<nat>, after: seq<nat>)
    requires marked == {1}
    requires PopStep(Kite(), marked, [1], 1, after)
    ensures after == [2, 3] || after == [3, 2]
  {
    assert after[0..] == after;
    assert Kite().Neighbours(1) == [2, 3];
    assert Elems(after) == {2, 3} by {
      forall u
        ensures u in Elems(after) <==> u in {2, 3}
      {
        assert u in after <==> u in [2, 3] && u !in marked;
      }
    }
    NoDupElems(after);
    assert after[0] in Elems(after) && after[1] in Elems(after);
  }

  lemma KiteSecondPop(marked: set<nat>, after: seq<nat>)
    requires marked == {1, 2, 3}
    requires PopStep(Kite(), marked, [3, 2], 2, after)
    ensures after == [3, 4]
  {
    var batch := after[1..];
    assert Kite().Neighbours(2) == [1, 4];
    assert Elems(batch) == {4} by {
      forall u
        ensures u in Elems(batch) <==> u in {4}
      {
        assert u in batch <==> u in [1, 4] && u !in marked;
      }
    }
    NoDupElems(batch);
    assert after == [3] + batch;
  }

  /**
   The trace pins down the depth-first order. On the graph `Kite`, popping 2
   second leaves 3 below the batch [4], so 4 is popped before 3 and the
   breadth-first order 1, 2, 3, 4 is no DFS trace.
   */
  lemma LevelOrderIsNoTrace(stacks: seq<seq<nat>>)
    ensures !(Trace(Kite(), {}, [1, 2, 3, 4], stacks) && stacks[0] == [1])
  {
    var out: seq<nat> := [1, 2, 3, 4];
    if Trace(Kite(), {}, out, stacks) && stacks[0] == [1] {
      TraceAt(Kite(), {}, out, stacks, 0);
      assert {} + Elems(out[..0]) + Elems(stacks[0]) == {1};
      KiteFirstPop({1}, stacks[1]);
      TraceAt(Kite(), {}, out, stacks, 1);
      assert stacks[1] == [3, 2];
      assert {} + Elems(out[..1]) + Elems(stacks[1]) == {1, 2, 3};
      KiteSecondPop({1, 2, 3}, stacks[2]);
      TraceAt(Kite(), {}, out, stacks, 2);
      assert false;
    }
  }
}
