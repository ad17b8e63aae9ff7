/**
  The path the search reads back from the predecessor map, and why it is a
  shortest route: following recorded predecessors backwards from the finish
  always stops, repeats no node, and yields a walk from the start whose cost
  is at most the finish's distance.
 */
module Chains {
  import opened Graph
  import opened SearchState

  /** `path` follows the predecessor map: each element is the recorded
      predecessor of the next one, and the first has no predecessor. */
  ghost predicate IsChain(prev: map<Code, Code>, path: seq<Code>)
  {
    |path| > 0 && path[0] !in prev &&
    forall k :: 0 < k < |path| ==> path[k] in prev && prev[path[k]] == path[k - 1]
  }

  /** Every predecessor link goes strictly up in the order (distance, stamp). */
  ghost predicate Acyclic(dist: map<Code, Dist>, prev: map<Code, Code>, stamp: map<Code, nat>)
  {
    forall v :: v in prev ==> Ranked(dist, stamp, prev[v], v)
  }

  lemma LinkedIsAcyclic(nodes: seq<Node>, start: Code, finish: Code, dist: map<Code, Dist>,
                        prev: map<Code, Code>, visited: set<Code>, stamp: map<Code, nat>)
    requires Linked(nodes, start, finish, dist, prev, visited, stamp)
    ensures Acyclic(dist, prev, stamp)
  {
    forall v | v in prev
      ensures Ranked(dist, stamp, prev[v], v)
    {
      assert Link(nodes, start, finish, dist, prev, visited, stamp, v);
    }
  }

  /** Dropping the last element of a chain leaves a chain. */
  lemma ChainPrefix(prev: map<Code, Code>, path: seq<Code>)
    requires IsChain(prev, path) && |path| > 1
    ensures IsChain(prev, path[..|path| - 1])
  {
    var p := path[..|path| - 1];
    forall k | 0 < k < |p|
      ensures p[k] in prev && prev[p[k]] == p[k - 1]
    {
      assert p[k] == path[k] && p[k - 1] == path[k - 1];
    }
  }

  /** Two chains that end at the same node are the same chain: the path read
      back from the predecessor map is determined by its last node. */
  lemma {:induction false} ChainsAgree(prev: map<Code, Code>, p1: seq<Code>, p2: seq<Code>)
    requires IsChain(prev, p1) && IsChain(prev, p2)
    requires p1[|p1| - 1] == p2[|p2| - 1]
    ensures p1 == p2
    decreases |p1|
  {
    if |p1| > 1 && |p2| > 1 {
      ChainPrefix(prev, p1);
      ChainPrefix(prev, p2);
      assert p1[|p1| - 2] == prev[p1[|p1| - 1]] == p2[|p2| - 2];
      ChainsAgree(prev, p1[..|p1| - 1], p2[..|p2| - 1]);
      assert p1 == p1[..|p1| - 1] + [p1[|p1| - 1]];
      assert p2 == p2[..|p2| - 1] + [p2[|p2| - 1]];
    }
  }

  /** Along a chain of an acyclic predecessor map every node is strictly below
      each later one, so no node repeats. */
  lemma {:induction false} ChainRises(dist: map<Code, Dist>, prev: map<Code, Code>, stamp: map<Code, nat>,
                                      path: seq<Code>, i: nat, j: nat)
    requires IsChain(prev, path) && Acyclic(dist, prev, stamp)
    requires i < j < |path|
    ensures Ranked(dist, stamp, path[i], path[j])
    decreases j - i
  {
    assert Ranked(dist, stamp, prev[path[i + 1]], path[i + 1]);
    if i + 1 < j {
      ChainRises(dist, prev, stamp, path, i + 1, j);
    }
  }

  lemma ChainDistinct(dist: map<Code, Dist>, prev: map<Code, Code>, stamp: map<Code, nat>, path: seq<Code>)
    requires IsChain(prev, path) && Acyclic(dist, prev, stamp)
    ensures Distinct(path)
  {
    forall i, j | 0 <= i < j < |path|
      ensures path[i] != path[j]
    {
      ChainRises(dist, prev, stamp, path, i, j);
    }
  }

  /** A chain that ends at a reached node starts at the start, is a walk the
      search may follow, and costs no more than the distance of its last node. */
  lemma {:induction false} ChainIsWalk(nodes: seq<Node>, start: Code, finish: Code, dist: map<Code, Dist>,
                                       prev: map<Code, Code>, visited: set<Code>,
                                       stamp: map<Code, nat>, clock: nat, path: seq<Code>)
    requires Shape(nodes, start, dist, prev, visited, stamp, clock)
    requires Reached(start, dist, prev, visited)
    requires Linked(nodes, start, finish, dist, prev, visited, stamp)
    requires IsChain(prev, path)
    requires path[|path| - 1] in dist && dist[path[|path| - 1]].Finite?
    ensures path[0] == start
    ensures IsWalk(nodes, start, finish, path)
    ensures Cost(nodes, path) <= dist[path[|path| - 1]].d
    decreases |path|
  {
    if |path| > 1 {
      var p := path[..|path| - 1];
      var u, v := path[|path| - 2], path[|path| - 1];
      assert Link(nodes, start, finish, dist, prev, visited, stamp, v);
      ChainPrefix(prev, path);
      ChainIsWalk(nodes, start, finish, dist, prev, visited, stamp, clock, p);
      assert path == p + [v];
      CostSnoc(nodes, p, v);
      forall k | 0 <= k < |path| - 1
        ensures Step(nodes, start, finish, path[k], path[k + 1])
      {
        if k < |path| - 2 {
          assert Step(nodes, start, finish, p[k], p[k + 1]);
        }
      }
    }
  }
}
