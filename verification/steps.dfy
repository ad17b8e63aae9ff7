/**
  How each step of the search keeps its invariants, and what the invariants
  give once the search stops: the distance of the finish is no more than the
  cost of any route, or there is no route at all.
 */
module SearchSteps {
  import opened Graph
  import opened SearchState

  /** Polling an entry whose node is already visited changes nothing that matters. */
  lemma SkipKeeps(nodes: seq<Node>, start: Code, finish: Code, dist: map<Code, Dist>,
                  prev: map<Code, Code>, visited: set<Code>, queue: seq<nat>,
                  stamp: map<Code, nat>, clock: nat, m: nat)
    requires Consistent(nodes, start, finish, dist, prev, visited, queue, stamp, clock)
    requires m < |queue| && queue[m] < |nodes| && nodes[queue[m]].code in visited
    ensures Consistent(nodes, start, finish, dist, prev, visited, Remove(queue, m), stamp, clock)
  {
    EntriesRemove(nodes, dist, queue, m);
    WaitingRemove(nodes, dist, visited, visited, queue, m);
  }

  /** Polling the nearest entry of a node not yet visited and marking it visited
      keeps the invariants and makes that node the furthest visited one. */
  lemma VisitKeeps(nodes: seq<Node>, start: Code, finish: Code, dist: map<Code, Dist>,
                   prev: map<Code, Code>, visited: set<Code>, queue: seq<nat>,
                   stamp: map<Code, nat>, clock: nat, level: nat, m: nat)
    requires Consistent(nodes, start, finish, dist, prev, visited, queue, stamp, clock)
    requires Layered(dist, visited, level)
    requires m < |queue| && queue[m] < |nodes| && nodes[queue[m]].code !in visited
    requires forall k :: 0 <= k < |queue| && queue[k] < |nodes| ==>
      nodes[queue[m]].code in dist && nodes[queue[k]].code in dist &&
      dist[nodes[queue[m]].code].d <= dist[nodes[queue[k]].code].d
    ensures Consistent(nodes, start, finish, dist, prev, visited + {nodes[queue[m]].code}, Remove(queue, m), stamp, clock)
    ensures Layered(dist, visited + {nodes[queue[m]].code}, dist[nodes[queue[m]].code].d)
  {
    var x := nodes[queue[m]].code;
    var visited' := visited + {x};
    EntriesRemove(nodes, dist, queue, m);
    WaitingRemove(nodes, dist, visited, visited', queue, m);
    LinkedMoreVisited(nodes, start, finish, dist, prev, visited, visited', stamp);
    LayeredVisit(nodes, dist, visited, queue, level, m);
    assert Shape(nodes, start, dist, prev, visited', stamp, clock);
  }

  /** Relaxing slot i of the node being expanded, at position n, into a node it
      may enter, with a strictly shorter distance, keeps every invariant, only
      lowers distances, and leaves the visited nodes' distances as they were. */
  lemma RelaxKeeps(nodes: seq<Node>, start: Code, finish: Code, dist: map<Code, Dist>,
                   prev: map<Code, Code>, visited: set<Code>, queue: seq<nat>,
                   stamp: map<Code, nat>, clock: nat, level: nat, n: nat, i: nat, e: Edge)
    requires Consistent(nodes, start, finish, dist, prev, visited, queue, stamp, clock)
    requires Layered(dist, visited, level)
    requires n < |nodes| && Lookup(nodes, nodes[n].code) == Some(n)
    requires nodes[n].code in visited && nodes[n].code != finish
    requires nodes[n].code in dist && dist[nodes[n].code] == Finite(level)
    requires i < SlotCount && nodes[n].slots[i] == Some(e) && Allowed(nodes, start, finish, nodes[n].code, e.target)
    requires Shorter(dist[nodes[n].code].d + e.weight, dist[e.target])
    ensures Consistent(nodes, start, finish, dist[e.target := Finite(dist[nodes[n].code].d + e.weight)],
                       prev[e.target := nodes[n].code], visited, queue + [Lookup(nodes, e.target).value],
                       stamp[e.target := clock], clock + 1)
    ensures Layered(dist[e.target := Finite(dist[nodes[n].code].d + e.weight)], visited, level)
    ensures NoLarger(dist[e.target := Finite(dist[nodes[n].code].d + e.weight)], dist)
    ensures e.target !in visited
  {
    LayeredRelax(dist, visited, level, e.target, dist[nodes[n].code].d + e.weight);
    LinkedRelax(nodes, start, finish, dist, prev, visited, stamp, clock, n, i, e);
    QueueRelax(nodes, dist, visited, queue, e.target, dist[nodes[n].code].d + e.weight);
    MapsRelax(nodes, start, dist, prev, visited, stamp, clock, nodes[n].code, e.target, dist[nodes[n].code].d + e.weight);
  }

  /** While the search runs, every walk either ends at a visited node no closer
      than that node's distance, or costs at least as much as some queued entry. */
  lemma {:induction false} WalkBound(nodes: seq<Node>, start: Code, finish: Code, dist: map<Code, Dist>,
                                     prev: map<Code, Code>, visited: set<Code>, queue: seq<nat>,
                                     stamp: map<Code, nat>, clock: nat, q: seq<Code>)
    requires Consistent(nodes, start, finish, dist, prev, visited, queue, stamp, clock)
    requires Settled(nodes, start, finish, dist, visited)
    requires IsWalk(nodes, start, finish, q)
    ensures (q[|q| - 1] in visited && dist[q[|q| - 1]].d <= Cost(nodes, q)) ||
            (exists k :: 0 <= k < |queue| && dist[nodes[queue[k]].code].d <= Cost(nodes, q))
    decreases |q|
  {
    if |q| == 1 {
      if start !in visited {
        assert InQueue(nodes, queue, start);
      }
    } else {
      var p := q[..|q| - 1];
      var y, z := q[|q| - 2], q[|q| - 1];
      assert IsWalk(nodes, start, finish, p) by {
        forall k | 0 <= k < |p| - 1
          ensures Step(nodes, start, finish, p[k], p[k + 1])
        {
          assert p[k] == q[k] && p[k + 1] == q[k + 1];
        }
      }
      WalkBound(nodes, start, finish, dist, prev, visited, queue, stamp, clock, p);
      assert p + [z] == q;
      CostSnoc(nodes, p, z);
      if y in visited && dist[y].d <= Cost(nodes, p) {
        assert Step(nodes, start, finish, y, z);
        var n := Lookup(nodes, y).value;
        var i := LightestSlot(nodes[n].slots, z, 0);
        assert Relaxed(nodes, start, finish, dist, y, SlotCount);
        assert SlotRelaxed(nodes, start, finish, dist, y, i);
        if z !in visited {
          assert InQueue(nodes, queue, z);
          var k :| 0 <= k < |queue| && queue[k] < |nodes| && nodes[queue[k]].code == z;
        }
      }
    }
  }

  /** When the queue runs empty before the finish is visited, no route reaches the finish. */
  lemma ExhaustedMeansNoRoute(nodes: seq<Node>, start: Code, finish: Code, dist: map<Code, Dist>,
                              prev: map<Code, Code>, visited: set<Code>,
                              stamp: map<Code, nat>, clock: nat, q: seq<Code>)
    requires Consistent(nodes, start, finish, dist, prev, visited, [], stamp, clock)
    requires Settled(nodes, start, finish, dist, visited)
    requires finish !in visited
    ensures !IsRoute(nodes, start, finish, q)
  {
    if IsRoute(nodes, start, finish, q) {
      WalkBound(nodes, start, finish, dist, prev, visited, [], stamp, clock, q);
    }
  }

  /** When the nearest entry is the finish, its distance is no more than the cost
      of any route. */
  lemma NearestFinishIsOptimal(nodes: seq<Node>, start: Code, finish: Code, dist: map<Code, Dist>,
                               prev: map<Code, Code>, visited: set<Code>, queue: seq<nat>,
                               stamp: map<Code, nat>, clock: nat, m: nat, q: seq<Code>)
    requires Consistent(nodes, start, finish, dist, prev, visited, queue, stamp, clock)
    requires Settled(nodes, start, finish, dist, visited)
    requires m < |queue| && queue[m] < |nodes| && nodes[queue[m]].code == finish && finish !in visited
    requires forall k :: 0 <= k < |queue| && queue[k] < |nodes| ==>
      finish in dist && nodes[queue[k]].code in dist &&
      dist[finish].d <= dist[nodes[queue[k]].code].d
    requires IsRoute(nodes, start, finish, q)
    ensures finish in dist && dist[finish].Finite? && dist[finish].d <= Cost(nodes, q)
  {
    WalkBound(nodes, start, finish, dist, prev, visited, queue, stamp, clock, q);
  }
}
