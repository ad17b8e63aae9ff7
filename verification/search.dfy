/**
  The working state of one path search and the invariants the search keeps
  over it. The state is the four local variables of the search:
  distanceMap (`dist`), previousNodeMap (`prev`), visitedNodes (`visited`) and
  the entries of the priority queue (`queue`, as positions in the node array).
 */
module SearchState {
  import opened Graph

  /** A tentative distance: infinite until the node is first reached. */
  datatype Dist = Infinity | Finite(d: nat)

  /** The relaxation test `newDistance < neighborDistance`: the new distance
      is strictly below the old one, so an equal distance never replaces it. */
  predicate Shorter(a: nat, b: Dist)
    ensures Shorter(a, b) <==> !AtMost(b, Finite(a))
  {
    b.Infinity? || a < b.d
  }

  /** `a` is no larger than `b`, with infinity above every finite distance. */
  predicate AtMost(a: Dist, b: Dist)
  {
    b.Infinity? || (a.Finite? && a.d <= b.d)
  }

  /** The queue after the entry at index m has been polled. */
  function Remove(queue: seq<nat>, m: nat): (r: seq<nat>)
    requires m < |queue|
    ensures |r| == |queue| - 1
    ensures forall k :: 0 <= k < m ==> r[k] == queue[k]
    ensures forall k :: m <= k < |r| ==> r[k] == queue[k + 1]
  {
    queue[..m] + queue[m + 1..]
  }

  /** Some entry of the queue is a node with code v. */
  ghost predicate InQueue(nodes: seq<Node>, queue: seq<nat>, v: Code)
  {
    exists k :: 0 <= k < |queue| && queue[k] < |nodes| && nodes[queue[k]].code == v
  }

  /** Every distance of d2 is no larger than the one in d1, and both have the same keys. */
  ghost predicate NoLarger(d2: map<Code, Dist>, d1: map<Code, Dist>)
  {
    d2.Keys == d1.Keys && forall c :: c in d1 ==> AtMost(d2[c], d1[c])
  }

  /** u is strictly below v in the order (distance, time of last relaxation).
      Every predecessor link goes strictly upwards in this order, which is what
      makes the predecessor map acyclic even with zero-weight links. */
  ghost predicate Ranked(dist: map<Code, Dist>, stamp: map<Code, nat>, u: Code, v: Code)
  {
    u in dist && v in dist && u in stamp && v in stamp &&
    dist[u].Finite? && dist[v].Finite? &&
    (dist[u].d < dist[v].d || (dist[u].d == dist[v].d && stamp[u] < stamp[v]))
  }

  /** The keys of the maps are the codes of the nodes, the start keeps distance 0
      and no predecessor, and `clock` is later than every stamp. */
  ghost predicate Shape(nodes: seq<Node>, start: Code, dist: map<Code, Dist>, prev: map<Code, Code>,
                        visited: set<Code>, stamp: map<Code, nat>, clock: nat)
  {
    (forall c {:trigger Lookup(nodes, c)} :: c in dist <==> Lookup(nodes, c).Some?) &&
    stamp.Keys == dist.Keys && start in dist &&
    dist[start] == Finite(0) && start !in prev &&
    (forall v :: v in stamp ==> stamp[v] < clock)
  }

  /** A distance is finite exactly for the start and the nodes with a
      predecessor; visited nodes have finite distances. */
  ghost predicate Reached(start: Code, dist: map<Code, Dist>, prev: map<Code, Code>, visited: set<Code>)
  {
    (forall v :: v in dist ==> (dist[v].Finite? <==> v == start || v in prev)) &&
    (forall u :: u in visited ==> u in dist && dist[u].Finite?)
  }

  /** The predecessor link recorded for v: it comes from an expanded node other
      than the finish, along a link the search may follow, and v's distance is at
      least its predecessor's plus that link's weight. */
  ghost predicate Link(nodes: seq<Node>, start: Code, finish: Code, dist: map<Code, Dist>,
                       prev: map<Code, Code>, visited: set<Code>, stamp: map<Code, nat>, v: Code)
  {
    v in prev &&
    var u := prev[v];
    u in visited && u != finish && Step(nodes, start, finish, u, v) &&
    Ranked(dist, stamp, u, v) &&
    dist[u].d + Weight(nodes, u, v) <= dist[v].d
  }

  ghost predicate Linked(nodes: seq<Node>, start: Code, finish: Code, dist: map<Code, Dist>,
                         prev: map<Code, Code>, visited: set<Code>, stamp: map<Code, nat>)
  {
    forall v {:trigger Link(nodes, start, finish, dist, prev, visited, stamp, v)} :: v in prev ==> Link(nodes, start, finish, dist, prev, visited, stamp, v)
  }

  /** Every queue entry is the first node carrying its code, at a finite distance. */
  ghost predicate Entries(nodes: seq<Node>, dist: map<Code, Dist>, queue: seq<nat>)
  {
    forall k :: 0 <= k < |queue| ==>
      queue[k] < |nodes| && Lookup(nodes, nodes[queue[k]].code) == Some(queue[k]) &&
      nodes[queue[k]].code in dist && dist[nodes[queue[k]].code].Finite?
  }

  /** Every reached node not yet visited has an entry in the queue. */
  ghost predicate Waiting(nodes: seq<Node>, dist: map<Code, Dist>, visited: set<Code>, queue: seq<nat>)
  {
    forall v {:trigger InQueue(nodes, queue, v)} :: v in dist && dist[v].Finite? && v !in visited ==> InQueue(nodes, queue, v)
  }

  /** The invariant of the search. Polling keeps it in any order; a relaxation
      keeps it because the node it improves is not visited, which the layers of
      an extract-min search guarantee (LayeredRelax).
      `stamp` gives for each node the time of its last relaxation and `clock` the
      next time; both are proof devices only. */
  ghost predicate Consistent(nodes: seq<Node>, start: Code, finish: Code, dist: map<Code, Dist>,
                             prev: map<Code, Code>, visited: set<Code>, queue: seq<nat>,
                             stamp: map<Code, nat>, clock: nat)
  {
    Shape(nodes, start, dist, prev, visited, stamp, clock) &&
    Reached(start, dist, prev, visited) &&
    Linked(nodes, start, finish, dist, prev, visited, stamp) &&
    Entries(nodes, dist, queue) &&
    Waiting(nodes, dist, visited, queue)
  }

  /** The visited nodes lie no further away than `level`, and the reached nodes
      not yet visited no closer. */
  ghost predicate Layered(dist: map<Code, Dist>, visited: set<Code>, level: nat)
  {
    (forall u :: u in visited ==> u in dist && dist[u].Finite? && dist[u].d <= level) &&
    (forall v :: v in dist && v !in visited && dist[v].Finite? ==> level <= dist[v].d)
  }

  /** Slot i of u has been relaxed: if it leads to a node u may enter, that node's
      distance is at most u's plus the slot's weight. */
  ghost predicate SlotRelaxed(nodes: seq<Node>, start: Code, finish: Code, dist: map<Code, Dist>, u: Code, i: nat)
  {
    var n := Lookup(nodes, u);
    n.Some? && i < SlotCount && nodes[n.value].slots[i].Some? &&
    Allowed(nodes, start, finish, u, nodes[n.value].slots[i].value.target)
    ==>
    var e := nodes[n.value].slots[i].value;
    u in dist && e.target in dist && dist[u].Finite? && dist[e.target].Finite? &&
    dist[e.target].d <= dist[u].d + e.weight
  }

  ghost predicate Relaxed(nodes: seq<Node>, start: Code, finish: Code, dist: map<Code, Dist>, u: Code, upto: nat)
  {
    forall i :: 0 <= i < upto ==> SlotRelaxed(nodes, start, finish, dist, u, i)
  }

  /** Every slot of every expanded node has been relaxed. */
  ghost predicate Settled(nodes: seq<Node>, start: Code, finish: Code, dist: map<Code, Dist>, visited: set<Code>)
  {
    forall u :: u in visited ==> Relaxed(nodes, start, finish, dist, u, SlotCount)
  }

  /** A relaxed slot stays relaxed while distances only shrink and u's stays put. */
  lemma RelaxedMonotone(nodes: seq<Node>, start: Code, finish: Code,
                        d1: map<Code, Dist>, d2: map<Code, Dist>, u: Code, upto: nat)
    requires NoLarger(d2, d1) && u in d1 && d2[u] == d1[u]
    requires Relaxed(nodes, start, finish, d1, u, upto)
    ensures Relaxed(nodes, start, finish, d2, u, upto)
  {
    forall i | 0 <= i < upto
      ensures SlotRelaxed(nodes, start, finish, d2, u, i)
    {
      assert SlotRelaxed(nodes, start, finish, d1, u, i);
      var n := Lookup(nodes, u);
      if n.Some? && i < SlotCount && nodes[n.value].slots[i].Some? {
        var e := nodes[n.value].slots[i].value;
        if e.target in d1 {
          assert AtMost(d2[e.target], d1[e.target]);
        }
      }
    }
  }

  /** Relaxing one more slot extends the relaxed prefix of u's slots. */
  lemma RelaxedExtend(nodes: seq<Node>, start: Code, finish: Code, dist: map<Code, Dist>, u: Code, i: nat)
    requires Relaxed(nodes, start, finish, dist, u, i) && SlotRelaxed(nodes, start, finish, dist, u, i)
    ensures Relaxed(nodes, start, finish, dist, u, i + 1)
  {
  }

  lemma NoLargerTransitive(d1: map<Code, Dist>, d2: map<Code, Dist>, d3: map<Code, Dist>)
    requires NoLarger(d2, d1) && NoLarger(d3, d2)
    ensures NoLarger(d3, d1)
  {
  }

  /** Expanded nodes stay settled while distances only shrink and theirs stay put. */
  lemma SettledLower(nodes: seq<Node>, start: Code, finish: Code,
                     d1: map<Code, Dist>, d2: map<Code, Dist>, visited: set<Code>)
    requires NoLarger(d2, d1) && Settled(nodes, start, finish, d1, visited)
    requires forall u :: u in visited ==> u in d1 && d2[u] == d1[u]
    ensures Settled(nodes, start, finish, d2, visited)
  {
    forall u | u in visited
      ensures Relaxed(nodes, start, finish, d2, u, SlotCount)
    {
      RelaxedMonotone(nodes, start, finish, d1, d2, u, SlotCount);
    }
  }

  /** Polling an entry keeps every other entry valid. */
  lemma EntriesRemove(nodes: seq<Node>, dist: map<Code, Dist>, queue: seq<nat>, m: nat)
    requires m < |queue| && Entries(nodes, dist, queue)
    ensures Entries(nodes, dist, Remove(queue, m))
  {
    var r := Remove(queue, m);
    forall k | 0 <= k < |r|
      ensures r[k] < |nodes| && Lookup(nodes, nodes[r[k]].code) == Some(r[k]) &&
              nodes[r[k]].code in dist && dist[nodes[r[k]].code].Finite?
    {
      if k < m { assert r[k] == queue[k]; } else { assert r[k] == queue[k + 1]; }
    }
  }

  /** Polling an entry of a node that is (now) visited keeps every waiting node queued. */
  lemma WaitingRemove(nodes: seq<Node>, dist: map<Code, Dist>, visited: set<Code>, visited': set<Code>,
                      queue: seq<nat>, m: nat)
    requires m < |queue| && queue[m] < |nodes| && Waiting(nodes, dist, visited, queue)
    requires visited <= visited' && nodes[queue[m]].code in visited'
    ensures Waiting(nodes, dist, visited', Remove(queue, m))
  {
    var r := Remove(queue, m);
    forall v | v in dist && dist[v].Finite? && v !in visited'
      ensures InQueue(nodes, r, v)
    {
      assert InQueue(nodes, queue, v);
      var k :| 0 <= k < |queue| && queue[k] < |nodes| && nodes[queue[k]].code == v;
      if k < m { assert r[k] == queue[k]; } else { assert r[k - 1] == queue[k]; }
    }
  }

  /** Marking more nodes visited keeps the predecessor links. */
  lemma LinkedMoreVisited(nodes: seq<Node>, start: Code, finish: Code, dist: map<Code, Dist>,
                          prev: map<Code, Code>, visited: set<Code>, visited': set<Code>, stamp: map<Code, nat>)
    requires Linked(nodes, start, finish, dist, prev, visited, stamp) && visited <= visited'
    ensures Linked(nodes, start, finish, dist, prev, visited', stamp)
  {
    forall v | v in prev
      ensures Link(nodes, start, finish, dist, prev, visited', stamp, v)
    {
      assert Link(nodes, start, finish, dist, prev, visited, stamp, v);
    }
  }

  /** The nearest entry's node, once visited, lifts the level to its own distance. */
  lemma LayeredVisit(nodes: seq<Node>, dist: map<Code, Dist>, visited: set<Code>, queue: seq<nat>,
                     level: nat, m: nat)
    requires Layered(dist, visited, level) && Waiting(nodes, dist, visited, queue)
    requires Entries(nodes, dist, queue)
    requires m < |queue| && nodes[queue[m]].code !in visited
    requires forall k :: 0 <= k < |queue| ==> dist[nodes[queue[m]].code].d <= dist[nodes[queue[k]].code].d
    ensures Layered(dist, visited + {nodes[queue[m]].code}, dist[nodes[queue[m]].code].d)
  {
    var x := nodes[queue[m]].code;
    forall v | v in dist && v !in visited && dist[v].Finite?
      ensures dist[x].d <= dist[v].d
    {
      assert InQueue(nodes, queue, v);
      var k :| 0 <= k < |queue| && queue[k] < |nodes| && nodes[queue[k]].code == v;
    }
  }

  /** The links after relaxing slot i of the node at position n into its target:
      the target's new link is valid, and the links into the target, whose
      distance only dropped, stay valid. */
  lemma LinkedRelax(nodes: seq<Node>, start: Code, finish: Code, dist: map<Code, Dist>,
                    prev: map<Code, Code>, visited: set<Code>, stamp: map<Code, nat>, clock: nat,
                    n: nat, i: nat, e: Edge)
    requires Linked(nodes, start, finish, dist, prev, visited, stamp)
    requires n < |nodes| && Lookup(nodes, nodes[n].code) == Some(n)
    requires nodes[n].code in stamp && stamp[nodes[n].code] < clock
    requires nodes[n].code in visited && nodes[n].code != finish && e.target !in visited
    requires nodes[n].code in dist && dist[nodes[n].code].Finite?
    requires i < SlotCount && nodes[n].slots[i] == Some(e) && Allowed(nodes, start, finish, nodes[n].code, e.target)
    requires e.target in dist && Shorter(dist[nodes[n].code].d + e.weight, dist[e.target])
    ensures Linked(nodes, start, finish, dist[e.target := Finite(dist[nodes[n].code].d + e.weight)],
                   prev[e.target := nodes[n].code], visited, stamp[e.target := clock])
  {
    var u, v := nodes[n].code, e.target;
    var dist', prev', stamp' := dist[v := Finite(dist[u].d + e.weight)], prev[v := u], stamp[v := clock];
    SlotBoundsWeight(nodes, n, i, e);
    assert Link(nodes, start, finish, dist', prev', visited, stamp', v);
    forall y | y in prev' && y != v
      ensures Link(nodes, start, finish, dist', prev', visited, stamp', y)
    {
      assert Link(nodes, start, finish, dist, prev, visited, stamp, y);
    }
  }

  /** Appending the entry of a node that just got a finite distance keeps the
      queue's entries valid and every waiting node queued. */
  lemma QueueRelax(nodes: seq<Node>, dist: map<Code, Dist>, visited: set<Code>, queue: seq<nat>,
                   v: Code, nd: nat)
    requires Entries(nodes, dist, queue) && Waiting(nodes, dist, visited, queue)
    requires v in dist && Lookup(nodes, v).Some?
    ensures Entries(nodes, dist[v := Finite(nd)], queue + [Lookup(nodes, v).value])
    ensures Waiting(nodes, dist[v := Finite(nd)], visited, queue + [Lookup(nodes, v).value])
  {
    var dist', queue' := dist[v := Finite(nd)], queue + [Lookup(nodes, v).value];
    forall k | 0 <= k < |queue'|
      ensures queue'[k] < |nodes| && Lookup(nodes, nodes[queue'[k]].code) == Some(queue'[k]) &&
              nodes[queue'[k]].code in dist' && dist'[nodes[queue'[k]].code].Finite?
    {
      if k < |queue| { assert queue'[k] == queue[k]; }
    }
    forall w | w in dist' && dist'[w].Finite? && w !in visited
      ensures InQueue(nodes, queue', w)
    {
      if w == v {
        assert nodes[queue'[|queue|]].code == v;
      } else {
        assert InQueue(nodes, queue, w);
        var k :| 0 <= k < |queue| && queue[k] < |nodes| && nodes[queue[k]].code == w;
        assert queue'[k] == queue[k];
      }
    }
  }

  /** Lowering a waiting node's distance to no less than the level keeps the
      layers, and only lowers distances. */
  lemma LayeredRelax(dist: map<Code, Dist>, visited: set<Code>, level: nat, v: Code, nd: nat)
    requires Layered(dist, visited, level)
    requires v in dist && level <= nd && Shorter(nd, dist[v])
    ensures v !in visited
    ensures Layered(dist[v := Finite(nd)], visited, level)
    ensures NoLarger(dist[v := Finite(nd)], dist)
  {
  }

  /** Giving v, which is not the start, a finite distance and a predecessor keeps
      the shape of the maps and the finite-exactly-when-reached rule. */
  lemma MapsRelax(nodes: seq<Node>, start: Code, dist: map<Code, Dist>, prev: map<Code, Code>,
                  visited: set<Code>, stamp: map<Code, nat>, clock: nat, u: Code, v: Code, nd: nat)
    requires Shape(nodes, start, dist, prev, visited, stamp, clock) && Reached(start, dist, prev, visited)
    requires v in dist && v != start
    ensures Shape(nodes, start, dist[v := Finite(nd)], prev[v := u], visited, stamp[v := clock], clock + 1)
    ensures Reached(start, dist[v := Finite(nd)], prev[v := u], visited)
  {
  }
}
