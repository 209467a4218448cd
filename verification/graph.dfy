/**
 The graph store of the traversal engine: an undirected adjacency list over the
 node ids 1..n, the set of nodes marked visited, and the two operations on
 `visited` that the traversals and the driver use — clearing it, and the
 critical-section check-and-set that claims a node exactly once.
*/
module Graph {

  /** `adj[v]` lists the neighbours of `v` in insertion order. Index 0 exists
      but is unused, as in the fixed-size global array it models. */
  datatype Graph = Graph(n: nat, adj: seq<seq<nat>>) {

    /** Every node 1..n has a list and every listed neighbour is a node id. */
    predicate Valid() {
      && |adj| == n + 1
      && forall v, u :: 0 <= v < |adj| && u in adj[v] ==> 1 <= u <= n
    }

    /** Edges were inserted in both directions. */
    predicate Undirected()
      requires Valid()
    {
      forall v, u :: 0 <= v < |adj| && u in adj[v] ==> v in adj[u]
    }

    /** The node ids 1..n. */
    function Nodes(): (r: set<nat>)
      ensures forall i :: i in r <==> 1 <= i <= n
    {
      IdsUpTo(n)
    }

    /** The adjacency list of `v`; ids past the table have none. */
    function Neighbours(v: nat): seq<nat> {
      if v < |adj| then adj[v] else []
    }

    /** A node with at least one incident edge. */
    predicate NonIsolated(v: nat) {
      v < |adj| && adj[v] != []
    }
  }

  /** The ids 1..k. */
  function IdsUpTo(k: nat): (r: set<nat>)
    ensures forall i :: i in r <==> 1 <= i <= k
    ensures |r| == k
  {
    if k == 0 then {} else IdsUpTo(k - 1) + {k}
  }

  /** The elements of a sequence, as a set. */
  function Elems<T>(s: seq<T>): set<T> {
    set x | x in s
  }

  /** No element occurs twice. */
  predicate NoDup<T(==)>(s: seq<T>) {
    forall i, j :: 0 <= i < j < |s| ==> s[i] != s[j]
  }

  lemma NoDupAppend<T>(a: seq<T>, b: seq<T>)
    requires NoDup(a) && NoDup(b)
    requires forall x :: x in a ==> x !in b
    ensures NoDup(a + b)
  {
    forall i, j | 0 <= i < j < |a + b|
      ensures (a + b)[i] != (a + b)[j]
    {
      if j < |a| {
        assert (a + b)[i] == a[i] && (a + b)[j] == a[j];
      } else if i < |a| {
        assert (a + b)[i] == a[i] && (a + b)[j] == b[j - |a|];
        assert a[i] in a;
      } else {
        assert (a + b)[i] == b[i - |a|] && (a + b)[j] == b[j - |a|];
      }
    }
  }

  /** A non-empty sequence is its front followed by its last element. */
  lemma SplitLast<T>(s: seq<T>)
    requires s != []
    ensures s == s[..|s| - 1] + [s[|s| - 1]]
  {
  }

  lemma NoDupParts<T>(a: seq<T>, b: seq<T>)
    requires NoDup(a + b)
    ensures NoDup(a) && NoDup(b)
    ensures forall x :: x in a ==> x !in b
  {
    assert forall i :: 0 <= i < |a| ==> (a + b)[i] == a[i];
    assert forall i :: 0 <= i < |b| ==> (a + b)[|a| + i] == b[i];
  }

  lemma {:induction false} SubsetNoLarger<T>(a: set<T>, b: set<T>)
    requires a <= b
    ensures |a| <= |b|
    decreases |a|
  {
    if a != {} {
      var x :| x in a;
      SubsetNoLarger(a - {x}, b - {x});
    }
  }

  /** A duplicate-free sequence has as many distinct elements as positions. */
  lemma {:induction false} NoDupElems<T>(s: seq<T>)
    requires NoDup(s)
    ensures |Elems(s)| == |s|
  {
    if s != [] {
      var p := s[..|s| - 1];
      assert s == p + [s[|s| - 1]];
      assert NoDup(p);
      assert Elems(s) == Elems(p) + {s[|s| - 1]};
      NoDupElems(p);
    }
  }

  /** A duplicate-free sequence of node ids 1..n has at most n entries. */
  lemma NoDupBound(s: seq<nat>, n: nat)
    requires NoDup(s)
    requires forall x :: x in s ==> 1 <= x <= n
    ensures |s| <= n
  {
    NoDupElems(s);
    SubsetNoLarger(Elems(s), IdsUpTo(n));
  }

  /**
   Clearing the marks before a fresh run: `visited[i]` becomes false for every
   `1 <= i <= n` and every other entry keeps its value. A non-positive `n`
   clears nothing, as the loop never runs.
   */
  method ResetVisited(visited: set<nat>, n: int) returns (r: set<nat>)
    ensures forall i :: i in r <==> i in visited && !(1 <= i <= n)
    ensures r <= visited
  {
    r := visited;
    var i := 1;
    while i <= n
      invariant 1 <= i
      invariant i <= n + 1 || i == 1
      invariant forall j :: j in r <==> j in visited && !(1 <= j < i)
    {
      r := r - {i};
      i := i + 1;
    }
  }

  /**
   The critical section of both traversals. The candidates are scanned in
   order; each one not yet visited is marked visited and claimed by this
   scan. A node is claimed only by the scan that flips its mark from false to
   true, so it is claimed at most once, and no candidate is lost.
   */
  method ClaimAll(visited: set<nat>, candidates: seq<nat>)
    returns (visited': set<nat>, claimed: seq<nat>)
    ensures visited' == visited + Elems(candidates)
    ensures forall u :: u in claimed <==> u in candidates && u !in visited
    ensures NoDup(claimed)
  {
    visited' := visited;
    claimed := [];
    var i := 0;
    while i < |candidates|
      invariant 0 <= i <= |candidates|
      invariant visited' == visited + Elems(candidates[..i])
      invariant forall u :: u in claimed <==> u in candidates[..i] && u !in visited
      invariant NoDup(claimed)
    {
      var u := candidates[i];
      assert candidates[..i + 1] == candidates[..i] + [u];
      if u !in visited' {
        visited' := visited' + {u};
        claimed := claimed + [u];
      }
      i := i + 1;
    }
    assert candidates[..i] == candidates;
  }

  /** The parts (levels, or segments of a sweep) emitted one after the other. */
  function Concat(levels: seq<seq<nat>>): seq<nat> {
    if levels == [] then [] else Concat(levels[..|levels| - 1]) + levels[|levels| - 1]
  }

  lemma ConcatSnoc(levels: seq<seq<nat>>, level: seq<nat>)
    ensures Concat(levels + [level]) == Concat(levels) + level
  {
    assert (levels + [level])[..|levels|] == levels;
  }

  /** Every element of one part is an element of the concatenation. */
  lemma {:induction false} ConcatHas(segments: seq<seq<nat>>, k: nat, x: nat)
    requires k < |segments| && x in segments[k]
    ensures x in Concat(segments)
  {
    var last := |segments| - 1;
    if k < last {
      ConcatHas(segments[..last], k, x);
    }
  }

  /** An element of the concatenation lies in one of the parts. */
  lemma {:induction false} ConcatPart(segments: seq<seq<nat>>, x: nat) returns (k: nat)
    requires x in Concat(segments)
    ensures k < |segments| && x in segments[k]
  {
    var last := |segments| - 1;
    if x in segments[last] {
      k := last;
    } else {
      k := ConcatPart(segments[..last], x);
    }
  }

  /** The concatenation starts with the first element of its first part. */
  lemma {:induction false} ConcatHead(segments: seq<seq<nat>>)
    requires segments != [] && segments[0] != []
    ensures Concat(segments) != [] && Concat(segments)[0] == segments[0][0]
  {
    var last := |segments| - 1;
    if last > 0 {
      ConcatHead(segments[..last]);
    }
  }
}
