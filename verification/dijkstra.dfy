/**
  The path search itself, step by step as the search method performs it:
  the distance table is filled, the start is queued, nodes are polled nearest
  first and their eight slots relaxed until the finish is polled or the queue
  runs empty, and the path is then read back from the predecessor map and
  reversed.

  The queue holds positions in the node array; a position stands for the
  node reference that was offered.
 */
module Dijkstra {
  import opened Graph
  import opened SearchState
  import opened SearchSteps
  import opened Chains

  /** getNodeByCode: scans the array in order and stops at the first node
      carrying `code`; None when no node carries it. */
  method GetNodeByCode(nodes: seq<Node>, code: Code) returns (r: Option<nat>)
    ensures r == Lookup(nodes, code)
    ensures r.None? ==> forall j :: 0 <= j < |nodes| ==> nodes[j].code != code
    ensures r.Some? ==> r.value < |nodes| && nodes[r.value].code == code &&
                        forall j :: 0 <= j < r.value ==> nodes[j].code != code
  {
    LookupSpec(nodes, code);
    var i := 0;
    while i < |nodes|
      invariant i <= |nodes|
      invariant forall j :: 0 <= j < i ==> nodes[j].code != code
    {
      if nodes[i].code == code {
        LookupIsFirstMatch(nodes, code, i);
        return Some(i);
      }
      i := i + 1;
    }
    return None;
  }

  /** The distance table before the search: every node's code at infinity,
      then the start's code at 0. */
  method InitDistances(nodes: seq<Node>, start: Code) returns (dist: map<Code, Dist>)
    ensures dist.Keys == Codes(nodes) + {start}
    ensures dist[start] == Finite(0)
    ensures forall c :: c in dist && c != start ==> dist[c] == Infinity
  {
    dist := map[];
    var i := 0;
    while i < |nodes|
      invariant i <= |nodes|
      invariant dist.Keys == set j | 0 <= j < i :: nodes[j].code
      invariant forall c :: c in dist ==> dist[c] == Infinity
    {
      assert (set j | 0 <= j < i + 1 :: nodes[j].code) == (set j | 0 <= j < i :: nodes[j].code) + {nodes[i].code};
      dist := dist[nodes[i].code := Infinity];
      i := i + 1;
    }
    dist := dist[start := Finite(0)];
  }

  /** The distance the queue's comparator reads for the entry at position p:
      the current distance of that node's code. */
  function Key(nodes: seq<Node>, dist: map<Code, Dist>, p: nat): (r: nat)
    ensures r == 0 || (p < |nodes| && nodes[p].code in dist && dist[nodes[p].code] == Finite(r))
    ensures p < |nodes| && nodes[p].code in dist && dist[nodes[p].code].Finite? ==> r == dist[nodes[p].code].d
  {
    if p < |nodes| && nodes[p].code in dist && dist[nodes[p].code].Finite?
    then dist[nodes[p].code].d else 0
  }

  /** The index of the entry poll() removes: the first entry with the smallest key. */
  function Nearest(nodes: seq<Node>, dist: map<Code, Dist>, queue: seq<nat>): (m: nat)
    requires |queue| > 0
    ensures m < |queue|
  {
    if |queue| == 1 then 0
    else
      var m := Nearest(nodes, dist, queue[..|queue| - 1]);
      if Key(nodes, dist, queue[|queue| - 1]) < Key(nodes, dist, queue[m]) then |queue| - 1 else m
  }

  /** No entry has a smaller key than the polled one, and every entry before it
      has a larger one. */
  lemma {:induction false} NearestIsFirstMinimal(nodes: seq<Node>, dist: map<Code, Dist>, queue: seq<nat>, k: nat)
    requires k < |queue|
    ensures Key(nodes, dist, queue[Nearest(nodes, dist, queue)]) <= Key(nodes, dist, queue[k])
    ensures k < Nearest(nodes, dist, queue) ==>
      Key(nodes, dist, queue[Nearest(nodes, dist, queue)]) < Key(nodes, dist, queue[k])
    decreases |queue|
  {
    if |queue| > 1 {
      var p := queue[..|queue| - 1];
      if k < |queue| - 1 {
        NearestIsFirstMinimal(nodes, dist, p, k);
        assert p[k] == queue[k];
      } else {
        NearestIsFirstMinimal(nodes, dist, p, Nearest(nodes, dist, p));
      }
      assert p[Nearest(nodes, dist, p)] == queue[Nearest(nodes, dist, p)];
    }
  }

  /** Whether slot i of the node at position n leads to a node it may enter and
      offers that node a strictly shorter distance. */
  predicate Improves(nodes: seq<Node>, start: Code, finish: Code, dist: map<Code, Dist>, n: nat, i: nat)
    ensures Improves(nodes, start, finish, dist, n, i) ==>
      n < |nodes| && i < SlotCount && nodes[n].slots[i].Some? &&
      nodes[n].slots[i].value.target != nodes[n].code && Lookup(nodes, nodes[n].slots[i].value.target).Some?
  {
    n < |nodes| && i < SlotCount && nodes[n].slots[i].Some? &&
    var e := nodes[n].slots[i].value;
    e.target in dist && Allowed(nodes, start, finish, nodes[n].code, e.target) &&
    nodes[n].code in dist && dist[nodes[n].code].Finite? &&
    Shorter(dist[nodes[n].code].d + e.weight, dist[e.target])
  }

  /** Code c keeps its distance and its predecessor entry. */
  ghost predicate Kept(dist: map<Code, Dist>, prev: map<Code, Code>, dist': map<Code, Dist>, prev': map<Code, Code>, c: Code)
  {
    c in dist && c in dist' && dist'[c] == dist[c] &&
    (c in prev' <==> c in prev) && (c in prev ==> prev'[c] == prev[c])
  }

  /** Code c was re-parented to the node at position n: its predecessor is now
      that node's code, and its distance dropped strictly, to that node's
      distance plus the weight of one of its slots leading to c. */
  ghost predicate Renewed(nodes: seq<Node>, n: nat, dist: map<Code, Dist>, dist': map<Code, Dist>,
                          prev': map<Code, Code>, c: Code)
  {
    n < |nodes| && c in prev' && prev'[c] == nodes[n].code &&
    c in dist && c in dist' && nodes[n].code in dist && dist[nodes[n].code].Finite? && dist'[c].Finite? &&
    Shorter(dist'[c].d, dist[c]) &&
    exists i :: 0 <= i < SlotCount && Targets(nodes[n].slots[i], c) &&
      dist'[c].d == dist[nodes[n].code].d + nodes[n].slots[i].value.weight
  }

  /** From (dist, prev) to (dist', prev') only targets of the slots of the node
      at position n changed, each of them re-parented to that node. */
  ghost predicate ExpandedFrom(nodes: seq<Node>, n: nat, dist: map<Code, Dist>, prev: map<Code, Code>,
                               dist': map<Code, Dist>, prev': map<Code, Code>)
  {
    dist'.Keys == dist.Keys &&
    forall c {:trigger Kept(dist, prev, dist', prev', c)} ::
      c in dist ==> Kept(dist, prev, dist', prev', c) || Renewed(nodes, n, dist, dist', prev', c)
  }

  /** queue' is queue followed by entries whose codes now have the node at
      position n as predecessor. */
  ghost predicate Offered(nodes: seq<Node>, n: nat, queue: seq<nat>, queue': seq<nat>, prev': map<Code, Code>)
  {
    n < |nodes| && |queue| <= |queue'| && queue'[..|queue|] == queue &&
    forall k :: |queue| <= k < |queue'| ==>
      queue'[k] < |nodes| && nodes[queue'[k]].code in prev' && prev'[nodes[queue'[k]].code] == nodes[n].code
  }

  /** Relaxing one more slot of the node at position n keeps ExpandedFrom and Offered. */
  lemma ExpandStep(nodes: seq<Node>, start: Code, finish: Code, n: nat, i: nat,
                   dist: map<Code, Dist>, prev: map<Code, Code>, queue: seq<nat>,
                   d1: map<Code, Dist>, p1: map<Code, Code>, q1: seq<nat>,
                   d2: map<Code, Dist>, p2: map<Code, Code>, q2: seq<nat>)
    requires n < |nodes| && i < SlotCount
    requires ExpandedFrom(nodes, n, dist, prev, d1, p1) && Offered(nodes, n, queue, q1, p1)
    requires NoLarger(d1, dist)
    requires nodes[n].code in dist && nodes[n].code in d1 && d1[nodes[n].code] == dist[nodes[n].code]
    requires Improves(nodes, start, finish, d1, n, i) ==>
      var e := nodes[n].slots[i].value;
      d2 == d1[e.target := Finite(d1[nodes[n].code].d + e.weight)] &&
      p2 == p1[e.target := nodes[n].code] &&
      q2 == q1 + [Lookup(nodes, e.target).value]
    requires !Improves(nodes, start, finish, d1, n, i) ==> d2 == d1 && p2 == p1 && q2 == q1
    ensures ExpandedFrom(nodes, n, dist, prev, d2, p2) && Offered(nodes, n, queue, q2, p2)
  {
    if Improves(nodes, start, finish, d1, n, i) {
      var e := nodes[n].slots[i].value;
      forall c | c in dist
        ensures Kept(dist, prev, d2, p2, c) || Renewed(nodes, n, dist, d2, p2, c)
      {
        assert Kept(dist, prev, d1, p1, c) || Renewed(nodes, n, dist, d1, p1, c);
        if c == e.target {
          assert AtMost(d1[c], dist[c]);
          assert Targets(nodes[n].slots[i], c);
        } else if !Kept(dist, prev, d1, p1, c) {
          var j :| 0 <= j < SlotCount && Targets(nodes[n].slots[j], c) &&
            d1[c].d == dist[nodes[n].code].d + nodes[n].slots[j].value.weight;
        }
      }
      forall k | |queue| <= k < |q2|
        ensures q2[k] < |nodes| && nodes[q2[k]].code in p2 && p2[nodes[q2[k]].code] == nodes[n].code
      {
        if k < |q1| {
          assert q2[k] == q1[k];
        }
      }
      assert q2[..|queue|] == q1[..|queue|];
    }
  }

  /** One pass of the inner loop body: relax slot i of the node at position n. */
  method RelaxSlot(nodes: seq<Node>, start: Code, finish: Code, n: nat, i: nat,
                   dist: map<Code, Dist>, prev: map<Code, Code>, queue: seq<nat>,
                   ghost visited: set<Code>, ghost stamp: map<Code, nat>, ghost clock: nat, ghost level: nat)
    returns (dist': map<Code, Dist>, prev': map<Code, Code>, queue': seq<nat>,
             ghost stamp': map<Code, nat>, ghost clock': nat)
    requires Consistent(nodes, start, finish, dist, prev, visited, queue, stamp, clock)
    requires Layered(dist, visited, level)
    requires n < |nodes| && Lookup(nodes, nodes[n].code) == Some(n)
    requires nodes[n].code in visited && nodes[n].code != finish
    requires nodes[n].code in dist && dist[nodes[n].code] == Finite(level)
    requires i < SlotCount
    ensures Improves(nodes, start, finish, dist, n, i) ==>
      var e := nodes[n].slots[i].value;
      dist' == dist[e.target := Finite(dist[nodes[n].code].d + e.weight)] &&
      prev' == prev[e.target := nodes[n].code] &&
      queue' == queue + [Lookup(nodes, e.target).value]
    ensures !Improves(nodes, start, finish, dist, n, i) ==> dist' == dist && prev' == prev && queue' == queue
    ensures Consistent(nodes, start, finish, dist', prev', visited, queue', stamp', clock')
    ensures Layered(dist', visited, level)
    ensures NoLarger(dist', dist)
    ensures forall u :: u in visited ==> u in dist && dist'[u] == dist[u]
    ensures SlotRelaxed(nodes, start, finish, dist', nodes[n].code, i)
  {
    dist', prev', queue', stamp', clock' := dist, prev, queue, stamp, clock;
    var slot := nodes[n].slots[i];
    if slot.None? || slot.value.target !in dist {
      return;
    }
    var e := slot.value;
    var neighbor := GetNodeByCode(nodes, e.target);
    if neighbor.Some? && nodes[neighbor.value].central {
      if e.target != finish && nodes[n].code != start {
        return;
      }
    }
    var newDistance := dist[nodes[n].code].d + e.weight;
    if Shorter(newDistance, dist[e.target]) {
      RelaxKeeps(nodes, start, finish, dist, prev, visited, queue, stamp, clock, level, n, i, e);
      dist' := dist[e.target := Finite(newDistance)];
      prev' := prev[e.target := nodes[n].code];
      queue' := queue + [neighbor.value];
      stamp' := stamp[e.target := clock];
      clock' := clock + 1;
    }
  }

  /** The inner loop: relax all eight slots of the node at position n, which
      has just been marked visited. */
  method Expand(nodes: seq<Node>, start: Code, finish: Code, n: nat,
                dist: map<Code, Dist>, prev: map<Code, Code>, queue: seq<nat>,
                ghost visited: set<Code>, ghost stamp: map<Code, nat>, ghost clock: nat, ghost level: nat)
    returns (dist': map<Code, Dist>, prev': map<Code, Code>, queue': seq<nat>,
             ghost stamp': map<Code, nat>, ghost clock': nat)
    requires Consistent(nodes, start, finish, dist, prev, visited, queue, stamp, clock)
    requires Layered(dist, visited, level)
    requires n < |nodes| && Lookup(nodes, nodes[n].code) == Some(n)
    requires nodes[n].code in visited && nodes[n].code != finish
    requires nodes[n].code in dist && dist[nodes[n].code] == Finite(level)
    requires Settled(nodes, start, finish, dist, visited - {nodes[n].code})
    ensures Consistent(nodes, start, finish, dist', prev', visited, queue', stamp', clock')
    ensures Layered(dist', visited, level)
    ensures Settled(nodes, start, finish, dist', visited)
    ensures NoLarger(dist', dist)
    ensures ExpandedFrom(nodes, n, dist, prev, dist', prev')
    ensures Offered(nodes, n, queue, queue', prev')
  {
    dist', prev', queue', stamp', clock' := dist, prev, queue, stamp, clock;
    assert queue'[..|queue|] == queue;
    for i := 0 to SlotCount
      invariant Consistent(nodes, start, finish, dist', prev', visited, queue', stamp', clock')
      invariant Layered(dist', visited, level)
      invariant nodes[n].code in dist' && dist'[nodes[n].code] == Finite(level)
      invariant Relaxed(nodes, start, finish, dist', nodes[n].code, i)
      invariant Settled(nodes, start, finish, dist', visited - {nodes[n].code})
      invariant NoLarger(dist', dist)
      invariant ExpandedFrom(nodes, n, dist, prev, dist', prev')
      invariant Offered(nodes, n, queue, queue', prev')
    {
      ghost var before, p1, q1 := dist', prev', queue';
      dist', prev', queue', stamp', clock' :=
        RelaxSlot(nodes, start, finish, n, i, dist', prev', queue', visited, stamp', clock', level);
      ExpandStep(nodes, start, finish, n, i, dist, prev, queue, before, p1, q1, dist', prev', queue');
      RelaxedMonotone(nodes, start, finish, before, dist', nodes[n].code, i);
      RelaxedExtend(nodes, start, finish, dist', nodes[n].code, i);
      SettledLower(nodes, start, finish, before, dist', visited - {nodes[n].code});
      NoLargerTransitive(dist, before, dist');
    }
  }

  /** Adding an unvisited code to the visited set leaves fewer codes unvisited. */
  lemma FewerUnvisited(keys: set<Code>, visited: set<Code>, x: Code)
    requires x in keys && x !in visited
    ensures |keys - (visited + {x})| < |keys - visited|
  {
    assert keys - visited == (keys - (visited + {x})) + {x};
  }

  /** The set-up before the search loop: every node at infinity but the start
      at 0, no predecessors, nothing visited, and the start node queued. */
  method Initialize(nodes: seq<Node>, start: Code, finish: Code)
    returns (dist: map<Code, Dist>, prev: map<Code, Code>, visited: set<Code>, queue: seq<nat>,
             ghost stamp: map<Code, nat>, ghost clock: nat)
    requires start in Codes(nodes)
    ensures forall c :: c in dist ==> dist[c] == if c == start then Finite(0) else Infinity
    ensures prev == map[] && visited == {} && |queue| == 1 && Lookup(nodes, start) == Some(queue[0])
    ensures Consistent(nodes, start, finish, dist, prev, visited, queue, stamp, clock)
    ensures Layered(dist, visited, 0)
    ensures Settled(nodes, start, finish, dist, visited)
  {
    dist := InitDistances(nodes, start);
    prev := map[];
    visited := {};
    stamp := map c | c in dist :: 0;
    clock := 1;
    var first := GetNodeByCode(nodes, start);
    queue := [first.value];
    forall c
      ensures c in dist <==> Lookup(nodes, c).Some?
    {
      LookupSpec(nodes, c);
    }
    assert nodes[queue[0]].code == start;
    assert InQueue(nodes, queue, start);
  }

  /** One pass of the search loop: poll the nearest entry; skip it when its
      node is already visited; otherwise mark it visited, and stop (`done`)
      when it is the finish or expand it. */
  method Poll(nodes: seq<Node>, start: Code, finish: Code,
              dist: map<Code, Dist>, prev: map<Code, Code>, visited: set<Code>, queue: seq<nat>,
              ghost stamp: map<Code, nat>, ghost clock: nat, ghost level: nat)
    returns (dist': map<Code, Dist>, prev': map<Code, Code>, visited': set<Code>, queue': seq<nat>,
             ghost stamp': map<Code, nat>, ghost clock': nat, ghost level': nat, done: bool)
    requires queue != []
    requires Consistent(nodes, start, finish, dist, prev, visited, queue, stamp, clock)
    requires Layered(dist, visited, level) && Settled(nodes, start, finish, dist, visited)
    requires finish !in visited
    ensures Consistent(nodes, start, finish, dist', prev', visited', queue', stamp', clock')
    ensures Layered(dist', visited', level')
    ensures !done ==> Settled(nodes, start, finish, dist', visited')
    ensures NoLarger(dist', dist)
    ensures var x := nodes[queue[Nearest(nodes, dist, queue)]].code;
      if x in visited then
        !done && dist' == dist && prev' == prev && visited' == visited &&
        queue' == Remove(queue, Nearest(nodes, dist, queue))
      else
        visited' == visited + {x} && (done <==> x == finish) &&
        |dist.Keys - visited'| < |dist.Keys - visited| &&
        (done ==> prev' == prev && queue' == Remove(queue, Nearest(nodes, dist, queue))) &&
        (!done ==> ExpandedFrom(nodes, queue[Nearest(nodes, dist, queue)], dist, prev, dist', prev') &&
                   Offered(nodes, queue[Nearest(nodes, dist, queue)], Remove(queue, Nearest(nodes, dist, queue)), queue', prev'))
    ensures done ==> finish in visited' && dist' == dist &&
                     forall q :: IsRoute(nodes, start, finish, q) ==> dist[finish].d <= Cost(nodes, q)
    ensures !done ==> finish !in visited'
  {
    var m := Nearest(nodes, dist, queue);
    var current := queue[m];
    var code := nodes[current].code;
    forall k | 0 <= k < |queue| && queue[k] < |nodes|
      ensures code in dist && nodes[queue[k]].code in dist && dist[code].d <= dist[nodes[queue[k]].code].d
    {
      NearestIsFirstMinimal(nodes, dist, queue, k);
    }
    if code in visited {
      SkipKeeps(nodes, start, finish, dist, prev, visited, queue, stamp, clock, m);
      dist', prev', visited', queue', stamp', clock', level', done := dist, prev, visited, Remove(queue, m), stamp, clock, level, false;
      return;
    }
    if code == finish {
      forall q | IsRoute(nodes, start, finish, q)
        ensures dist[finish].d <= Cost(nodes, q)
      {
        NearestFinishIsOptimal(nodes, start, finish, dist, prev, visited, queue, stamp, clock, m, q);
      }
    }
    VisitKeeps(nodes, start, finish, dist, prev, visited, queue, stamp, clock, level, m);
    FewerUnvisited(dist.Keys, visited, code);
    queue' := Remove(queue, m);
    visited' := visited + {code};
    level' := dist[code].d;
    dist', prev', stamp', clock' := dist, prev, stamp, clock;
    done := code == finish;
    if !done {
      dist', prev', queue', stamp', clock' := Expand(nodes, start, finish, current, dist, prev, queue', visited', stamp, clock, level');
    }
  }

  /** The search loop: poll until the finish is polled or the queue runs
      empty. Returns the distance table, the predecessor map and the visited
      set, with the relaxation stamps as ghost results. When it stops, either
      the finish was polled at a distance no route beats, or no route reaches
      the finish at all. */
  method Search(nodes: seq<Node>, start: Code, finish: Code)
    returns (dist: map<Code, Dist>, prev: map<Code, Code>, visited: set<Code>,
             ghost stamp: map<Code, nat>, ghost clock: nat)
    requires start in Codes(nodes)
    ensures Shape(nodes, start, dist, prev, visited, stamp, clock)
    ensures Reached(start, dist, prev, visited)
    ensures Linked(nodes, start, finish, dist, prev, visited, stamp)
    ensures (finish in visited && forall q :: IsRoute(nodes, start, finish, q) ==> dist[finish].d <= Cost(nodes, q)) ||
            (finish != start && finish !in prev && forall q :: !IsRoute(nodes, start, finish, q))
  {
    var queue;
    dist, prev, visited, queue, stamp, clock := Initialize(nodes, start, finish);
    ghost var level := 0;
    ghost var keys := dist.Keys;
    while queue != []
      invariant Consistent(nodes, start, finish, dist, prev, visited, queue, stamp, clock)
      invariant Layered(dist, visited, level)
      invariant Settled(nodes, start, finish, dist, visited)
      invariant finish !in visited
      invariant dist.Keys == keys
      decreases |keys - visited|, |queue|
    {
      var done;
      dist, prev, visited, queue, stamp, clock, level, done :=
        Poll(nodes, start, finish, dist, prev, visited, queue, stamp, clock, level);
      if done {
        return;
      }
    }
    forall q
      ensures !IsRoute(nodes, start, finish, q)
    {
      ExhaustedMeansNoRoute(nodes, start, finish, dist, prev, visited, stamp, clock, q);
    }
    assert !InQueue(nodes, queue, finish);
    assert finish in prev ==> Link(nodes, start, finish, dist, prev, visited, stamp, finish);
  }

  /** Collections.reverse. */
  function Reversed(s: seq<Code>): (r: seq<Code>)
    ensures |r| == |s|
    ensures forall k :: 0 <= k < |s| ==> r[k] == s[|s| - 1 - k]
  {
    if s == [] then [] else Reversed(s[1..]) + [s[0]]
  }

  /** The path loop: collect the finish and its predecessors one by one until a
      code has none, then reverse. The result is the chain of recorded
      predecessors that ends at the finish. */
  method Reconstruct(prev: map<Code, Code>, finish: Code, ghost dist: map<Code, Dist>, ghost stamp: map<Code, nat>)
    returns (path: seq<Code>)
    requires Acyclic(dist, prev, stamp)
    ensures IsChain(prev, path) && path[|path| - 1] == finish
  {
    var collected: seq<Code> := [];
    var current: Option<Code> := Some(finish);
    while current.Some?
      invariant |collected| == 0 ==> current == Some(finish)
      invariant |collected| > 0 ==> collected[0] == finish
      invariant |collected| > 0 ==>
        current == (if collected[|collected| - 1] in prev then Some(prev[collected[|collected| - 1]]) else None)
      invariant forall k :: 0 <= k < |collected| - 1 ==>
        collected[k] in prev && prev[collected[k]] == collected[k + 1]
      decreases current.Some?,
        if current.Some? && current.value in dist && dist[current.value].Finite? then dist[current.value].d else 0,
        if current.Some? && current.value in stamp then stamp[current.value] else 0
    {
      var c := current.value;
      collected := collected + [c];
      current := if c in prev then Some(prev[c]) else None;
      if c in prev {
        assert Ranked(dist, stamp, prev[c], c);
      }
    }
    path := Reversed(collected);
    forall k | 0 < k < |path|
      ensures path[k] in prev && prev[path[k]] == path[k - 1]
    {
      assert path[k] == collected[|collected| - 1 - k];
    }
  }

  /** findShortestPath: the search followed by the path loop. The result ends
      at the finish. When a route from the start reaches the finish, the result
      is such a route, none is cheaper, no node repeats on it, and a central
      node stands on it only as the finish or right after the start. When no
      route does (the finish names no node, say), the result is just the finish. */
  method FindShortestPath(nodes: seq<Node>, start: Code, finish: Code) returns (path: seq<Code>)
    requires start in Codes(nodes)
    ensures |path| > 0 && path[|path| - 1] == finish
    ensures IsRoute(nodes, start, finish, path) || (path == [finish] && forall q :: !IsRoute(nodes, start, finish, q))
    ensures IsRoute(nodes, start, finish, path) ==>
      forall q :: IsRoute(nodes, start, finish, q) ==> Cost(nodes, path) <= Cost(nodes, q)
    ensures start == finish ==> path == [start]
    ensures finish !in Codes(nodes) ==> path == [finish]
    ensures Distinct(path)
    ensures forall k :: 0 < k < |path| - 1 && Central(nodes, path[k]) ==> k == 1
  {
    var dist, prev, visited, stamp, clock := Search(nodes, start, finish);
    LinkedIsAcyclic(nodes, start, finish, dist, prev, visited, stamp);
    path := Reconstruct(prev, finish, dist, stamp);
    ChainDistinct(dist, prev, stamp, path);
    if finish in visited {
      ChainIsWalk(nodes, start, finish, dist, prev, visited, stamp, clock, path);
      forall k | 0 < k < |path| - 1 && Central(nodes, path[k])
        ensures k == 1
      {
        CentralOnlyNextToEnds(nodes, start, finish, path, k);
      }
    } else {
      assert path[|path| - 1] !in prev;
    }
    if finish !in Codes(nodes) {
      NoRouteToUnknownFinish(nodes, start, finish, path);
    }
  }
}
