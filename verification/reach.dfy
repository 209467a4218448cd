/**
 Reachability in the graph store, stated twice: once by walks (the reference
 definition: a sequence of nodes, each a listed neighbour of the one before),
 and once by balls — the nodes within k steps, built up one neighbour step at a
 time, which is how a level-synchronous BFS discovers them. The lemmas here
 show the two agree, and that the layers of the balls are exactly the nodes at
 each shortest-walk distance.

 Every notion is relative to a set `seen` of nodes that were already marked
 visited when a traversal started: the traversals never step onto them.
*/
module Reach {
  import opened Graph

  /** `u` is listed as a neighbour of `v`. */
  ghost predicate Edge(g: Graph, v: nat, u: nat) {
    v < |g.adj| && u in g.adj[v]
  }

  /** `p` follows adjacency lists and never touches a node of `seen`. */
  ghost predicate IsWalk(g: Graph, seen: set<nat>, p: seq<nat>) {
    && |p| >= 1
    && (forall i :: 0 <= i < |p| ==> p[i] !in seen)
    && (forall i :: 0 <= i < |p| - 1 ==> Edge(g, p[i], p[i + 1]))
  }

  /** `p` is a walk from `s` to `t`. */
  ghost predicate WalkFrom(g: Graph, seen: set<nat>, s: nat, t: nat, p: seq<nat>) {
    IsWalk(g, seen, p) && p[0] == s && p[|p| - 1] == t
  }

  /** `t` can be reached from `s` without touching `seen`. */
  ghost predicate Reachable(g: Graph, seen: set<nat>, s: nat, t: nat) {
    exists p :: WalkFrom(g, seen, s, t, p)
  }

  /** Some walk from `s` to `t` takes at most `k` edges. */
  ghost predicate WithinDistance(g: Graph, seen: set<nat>, s: nat, t: nat, k: nat) {
    exists p :: WalkFrom(g, seen, s, t, p) && |p| <= k + 1
  }

  /** The shortest walk from `s` to `t` takes exactly `k` edges. */
  ghost predicate AtDistance(g: Graph, seen: set<nat>, s: nat, t: nat, k: nat) {
    && WithinDistance(g, seen, s, t, k)
    && forall p :: WalkFrom(g, seen, s, t, p) ==> |p| >= k + 1
  }

  /** A node has at most one shortest distance. */
  lemma DistanceUnique(g: Graph, seen: set<nat>, s: nat, t: nat, a: nat, b: nat)
    requires AtDistance(g, seen, s, t, a) && AtDistance(g, seen, s, t, b)
    ensures a == b
  {
    var p :| WalkFrom(g, seen, s, t, p) && |p| <= a + 1;
    var q :| WalkFrom(g, seen, s, t, q) && |q| <= b + 1;
  }

  /** Extending a walk by one edge to an unseen node. */
  lemma WalkSnoc(g: Graph, seen: set<nat>, s: nat, v: nat, u: nat, p: seq<nat>)
    requires WalkFrom(g, seen, s, v, p)
    requires Edge(g, v, u) && u !in seen
    ensures WalkFrom(g, seen, s, u, p + [u])
  {
    var q := p + [u];
    forall i | 0 <= i < |q| - 1
      ensures Edge(g, q[i], q[i + 1])
    {
      if i < |p| - 1 {
        assert q[i] == p[i] && q[i + 1] == p[i + 1];
      }
    }
  }

  /** The neighbours of the nodes of `S` that lie outside `seen`. */
  ghost function Step(g: Graph, seen: set<nat>, S: set<nat>): set<nat> {
    set v, u | v in S && v < |g.adj| && u in g.adj[v] && u !in seen :: u
  }

  /** The nodes discovered within `k` neighbour steps of `s`. */
  ghost function Ball(g: Graph, seen: set<nat>, s: nat, k: nat): set<nat>
    decreases k
  {
    if k == 0 then {s} else Ball(g, seen, s, k - 1) + Step(g, seen, Ball(g, seen, s, k - 1))
  }

  /** The nodes first discovered at step `k`: BFS level `k`. */
  ghost function Layer(g: Graph, seen: set<nat>, s: nat, k: nat): set<nat> {
    if k == 0 then {s} else Ball(g, seen, s, k) - Ball(g, seen, s, k - 1)
  }

  /** The nodes discovered before step `k`. */
  ghost function Before(g: Graph, seen: set<nat>, s: nat, k: nat): set<nat> {
    if k == 0 then {} else Ball(g, seen, s, k - 1)
  }

  lemma BallLayers(g: Graph, seen: set<nat>, s: nat, k: nat)
    ensures Ball(g, seen, s, k) == Before(g, seen, s, k) + Layer(g, seen, s, k)
    ensures Before(g, seen, s, k) !! Layer(g, seen, s, k)
  {
    if k > 0 {
      BallGrows(g, seen, s, k - 1, k);
    }
  }

  lemma {:induction false} BallGrows(g: Graph, seen: set<nat>, s: nat, i: nat, j: nat)
    requires i <= j
    ensures Ball(g, seen, s, i) <= Ball(g, seen, s, j)
    decreases j - i
  {
    if i < j {
      BallGrows(g, seen, s, i, j - 1);
      assert Ball(g, seen, s, j) == Ball(g, seen, s, j - 1) + Step(g, seen, Ball(g, seen, s, j - 1));
    }
  }

  lemma StepGrows(g: Graph, seen: set<nat>, S: set<nat>, T: set<nat>)
    requires S <= T
    ensures Step(g, seen, S) <= Step(g, seen, T)
  {
  }

  /** Membership in one step, without the comprehension. */
  lemma StepMember(g: Graph, seen: set<nat>, S: set<nat>, v: nat, u: nat)
    requires v in S && v < |g.adj| && u in g.adj[v] && u !in seen
    ensures u in Step(g, seen, S)
  {
  }

  /** Expanding one more node adds exactly its unseen neighbours. */
  lemma StepAddOne(g: Graph, seen: set<nat>, S: set<nat>, v: nat)
    requires v < |g.adj|
    ensures Step(g, seen, S + {v}) == Step(g, seen, S) + (Elems(g.adj[v]) - seen)
  {
    forall u | u in Step(g, seen, S + {v})
      ensures u in Step(g, seen, S) + (Elems(g.adj[v]) - seen)
    {
      var w := StepWitness(g, seen, S + {v}, u);
      if w != v {
        StepMember(g, seen, S, w, u);
      }
    }
    forall u | u in Elems(g.adj[v]) - seen
      ensures u in Step(g, seen, S + {v})
    {
      StepMember(g, seen, S + {v}, v, u);
    }
    StepGrows(g, seen, S, S + {v});
  }

  lemma StepWitness(g: Graph, seen: set<nat>, S: set<nat>, u: nat)
    returns (v: nat)
    requires u in Step(g, seen, S)
    ensures v in S && v < |g.adj| && u in g.adj[v] && u !in seen
  {
    v :| v in S && v < |g.adj| && u in g.adj[v] && u !in seen;
  }

  /** A valid graph's balls stay inside its node ids and outside `seen`. */
  lemma {:induction false} BallInNodes(g: Graph, seen: set<nat>, s: nat, k: nat)
    requires g.Valid() && 1 <= s <= g.n && s !in seen
    ensures Ball(g, seen, s, k) <= g.Nodes()
    ensures Ball(g, seen, s, k) !! seen
  {
    if k > 0 {
      BallInNodes(g, seen, s, k - 1);
      forall u | u in Step(g, seen, Ball(g, seen, s, k - 1))
        ensures u in g.Nodes() && u !in seen
      {
        var v := StepWitness(g, seen, Ball(g, seen, s, k - 1), u);
      }
    }
  }

  /** A walk of `k` edges ends inside the `k`-ball. */
  lemma {:induction false} WalkInBall(g: Graph, seen: set<nat>, s: nat, t: nat, p: seq<nat>)
    requires WalkFrom(g, seen, s, t, p)
    ensures t in Ball(g, seen, s, |p| - 1)
    decreases |p|
  {
    if |p| > 1 {
      var q := p[..|p| - 1];
      var v := q[|q| - 1];
      assert WalkFrom(g, seen, s, v, q);
      WalkInBall(g, seen, s, v, q);
      StepMember(g, seen, Ball(g, seen, s, |q| - 1), v, t);
    }
  }

  /** Every node of the `k`-ball is at the end of a walk of at most `k` edges. */
  lemma {:induction false} BallHasWalk(g: Graph, seen: set<nat>, s: nat, t: nat, k: nat)
    requires s !in seen
    requires t in Ball(g, seen, s, k)
    ensures WithinDistance(g, seen, s, t, k)
    decreases k
  {
    if k == 0 {
      assert WalkFrom(g, seen, s, t, [s]);
    } else if t in Ball(g, seen, s, k - 1) {
      BallHasWalk(g, seen, s, t, k - 1);
    } else {
      var v := StepWitness(g, seen, Ball(g, seen, s, k - 1), t);
      BallHasWalk(g, seen, s, v, k - 1);
      var p :| WalkFrom(g, seen, s, v, p) && |p| <= k;
      WalkSnoc(g, seen, s, v, t, p);
    }
  }

  /** The `k`-ball is exactly the set of nodes within distance `k`. */
  lemma BallIsWithinDistance(g: Graph, seen: set<nat>, s: nat, t: nat, k: nat)
    requires s !in seen
    ensures t in Ball(g, seen, s, k) <==> WithinDistance(g, seen, s, t, k)
  {
    if t in Ball(g, seen, s, k) {
      BallHasWalk(g, seen, s, t, k);
    }
    if WithinDistance(g, seen, s, t, k) {
      var p :| WalkFrom(g, seen, s, t, p) && |p| <= k + 1;
      WalkInBall(g, seen, s, t, p);
      BallGrows(g, seen, s, |p| - 1, k);
    }
  }

  /** Layer `k` is exactly the set of nodes whose shortest walk has `k` edges. */
  lemma LayerIsDistance(g: Graph, seen: set<nat>, s: nat, t: nat, k: nat)
    requires s !in seen
    ensures t in Layer(g, seen, s, k) <==> AtDistance(g, seen, s, t, k)
  {
    BallLayers(g, seen, s, k);
    BallIsWithinDistance(g, seen, s, t, k);
    if t in Layer(g, seen, s, k) {
      forall p | WalkFrom(g, seen, s, t, p)
        ensures |p| >= k + 1
      {
        if |p| < k + 1 {
          WalkInBall(g, seen, s, t, p);
          BallGrows(g, seen, s, |p| - 1, k - 1);
        }
      }
    }
    if AtDistance(g, seen, s, t, k) && k > 0 && t in Ball(g, seen, s, k - 1) {
      BallHasWalk(g, seen, s, t, k - 1);
    }
  }

  /** Level `k + 1` is what expanding level `k` finds outside the `k`-ball. */
  lemma NextLayer(g: Graph, seen: set<nat>, s: nat, k: nat)
    ensures Layer(g, seen, s, k + 1)
         == Step(g, seen, Layer(g, seen, s, k)) - Ball(g, seen, s, k)
  {
    BallLayers(g, seen, s, k);
    var B := Ball(g, seen, s, k);
    var L := Layer(g, seen, s, k);
    var P := Before(g, seen, s, k);
    forall u | u in Step(g, seen, B) && u !in B
      ensures u in Step(g, seen, L)
    {
      var v := StepWitness(g, seen, B, u);
      if v in P {
        StepMember(g, seen, P, v, u);
      } else {
        StepMember(g, seen, L, v, u);
      }
    }
    StepGrows(g, seen, L, B);
  }

  /** A set that holds `s` and is closed under neighbour steps holds every ball. */
  lemma {:induction false} ClosedHoldsBall(g: Graph, seen: set<nat>, s: nat, E: set<nat>, k: nat)
    requires s in E
    requires Step(g, seen, E) <= E
    ensures Ball(g, seen, s, k) <= E
  {
    if k > 0 {
      ClosedHoldsBall(g, seen, s, E, k - 1);
      StepGrows(g, seen, Ball(g, seen, s, k - 1), E);
    }
  }

  /** A set that holds `s` and is closed under neighbour steps holds every reachable node. */
  lemma ClosedHoldsReachable(g: Graph, seen: set<nat>, s: nat, E: set<nat>, t: nat)
    requires s in E
    requires Step(g, seen, E) <= E
    requires Reachable(g, seen, s, t)
    ensures t in E
  {
    var p :| WalkFrom(g, seen, s, t, p);
    WalkInBall(g, seen, s, t, p);
    ClosedHoldsBall(g, seen, s, E, |p| - 1);
  }

  /** A reachable node's unvisited neighbours are reachable too. */
  lemma ReachableStep(g: Graph, seen: set<nat>, s: nat, v: nat, u: nat)
    requires Reachable(g, seen, s, v)
    requires v < |g.adj| && u in g.adj[v] && u !in seen
    ensures Reachable(g, seen, s, u)
  {
    var p :| WalkFrom(g, seen, s, v, p);
    WalkSnoc(g, seen, s, v, u, p);
  }

  /** Marking more nodes can only cut walks, never create them. */
  lemma ReachableShrinks(g: Graph, seen: set<nat>, more: set<nat>, s: nat, t: nat)
    requires seen <= more
    requires Reachable(g, more, s, t)
    ensures Reachable(g, seen, s, t)
  {
    var p :| WalkFrom(g, more, s, t, p);
    assert WalkFrom(g, seen, s, t, p);
  }

  /** Marks on ids that are not nodes cannot block a walk from a node. */
  lemma ReachableIgnoresNonNodes(g: Graph, seen: set<nat>, s: nat, t: nat)
    requires g.Valid() && 1 <= s <= g.n
    requires seen !! g.Nodes()
    ensures Reachable(g, seen, s, t) <==> Reachable(g, {}, s, t)
  {
    if Reachable(g, {}, s, t) {
      var p :| WalkFrom(g, {}, s, t, p);
      forall i | 0 <= i < |p|
        ensures p[i] in g.Nodes()
      {
        if i > 0 {
          assert Edge(g, p[i - 1], p[i]);
        }
      }
      assert WalkFrom(g, seen, s, t, p);
    }
    if Reachable(g, seen, s, t) {
      var p :| WalkFrom(g, seen, s, t, p);
      assert WalkFrom(g, {}, s, t, p);
    }
  }

  /** In a valid graph every node reached from a node id is a node id. */
  lemma ReachableInRange(g: Graph, seen: set<nat>, s: nat, t: nat)
    requires g.Valid() && 1 <= s <= g.n
    requires Reachable(g, seen, s, t)
    ensures 1 <= t <= g.n
  {
    var p :| WalkFrom(g, seen, s, t, p);
    if |p| > 1 {
      assert Edge(g, p[|p| - 2], p[|p| - 1]);
    }
  }

  /** In an undirected graph, every node reached from another node has an edge. */
  lemma ReachedHasEdge(g: Graph, seen: set<nat>, s: nat, t: nat)
    requires g.Valid() && g.Undirected()
    requires Reachable(g, seen, s, t) && t != s
    ensures 1 <= t <= g.n && g.NonIsolated(t)
  {
    var p :| WalkFrom(g, seen, s, t, p);
    var v := p[|p| - 2];
    assert t in g.adj[v];
    assert v in g.adj[t];
  }
}
