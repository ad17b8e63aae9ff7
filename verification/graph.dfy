/**
  The road graph that the path search runs over: an array of locations
  ("nodes"), each with eight directed, weighted neighbour slots and a marker
  that flags it as a restricted ("central") location.

  A node is referred to the way the search refers to it: by its position in
  the array, which stands for the object reference the array holds.
 */
module Graph {

  datatype Option<T> = None | Some(value: T)

  /** A node's code. Codes are only ever compared for equality and used as
      keys, so their text is left abstract. */
  type Code(==, !new)

  /** Every node carries exactly this many neighbour slots, nearNode0 .. nearNode7. */
  const SlotCount: nat := 8

  /** A filled neighbour slot: the neighbour's code and the weight of the link. */
  datatype Edge = Edge(target: Code, weight: nat)

  type Slots = s: seq<Option<Edge>> | |s| == SlotCount
    witness [None, None, None, None, None, None, None, None]

  /** A location: its code, its eight neighbour slots (an empty slot is None),
      and whether its centralNode marker is "O". */
  datatype Node = Node(code: Code, slots: Slots, central: bool)

  /** The codes of all nodes of the array. */
  ghost function Codes(nodes: seq<Node>): set<Code>
  {
    set i | 0 <= i < |nodes| :: nodes[i].code
  }

  /** The position of the first node at or after `from` whose code is `code`,
      or |nodes| when there is none. */
  function IndexOfCode(nodes: seq<Node>, code: Code, from: nat): (i: nat)
    requires from <= |nodes|
    ensures from <= i <= |nodes|
    ensures i < |nodes| ==> nodes[i].code == code
    decreases |nodes| - from
  {
    if from == |nodes| then from
    else if nodes[from].code == code then from
    else IndexOfCode(nodes, code, from + 1)
  }

  /** IndexOfCode skips only nodes with other codes. */
  lemma {:induction false} IndexOfCodeIsFirst(nodes: seq<Node>, code: Code, from: nat, j: nat)
    requires from <= |nodes| && from <= j < IndexOfCode(nodes, code, from)
    ensures nodes[j].code != code
    decreases |nodes| - from
  {
    if j > from {
      IndexOfCodeIsFirst(nodes, code, from + 1, j);
    }
  }

  /** The node a code stands for, as the position of the first node in array
      order carrying it; None when no node carries it. */
  function Lookup(nodes: seq<Node>, code: Code): (r: Option<nat>)
    ensures r.Some? ==> r.value < |nodes| && nodes[r.value].code == code
  {
    var i := IndexOfCode(nodes, code, 0);
    if i < |nodes| then Some(i) else None
  }

  /** Lookup finds a node exactly for the codes of the array, and the one it
      finds is the first carrying the code. */
  lemma LookupSpec(nodes: seq<Node>, code: Code)
    ensures Lookup(nodes, code).None? <==> code !in Codes(nodes)
    ensures Lookup(nodes, code).Some? ==>
      forall j :: 0 <= j < Lookup(nodes, code).value ==> nodes[j].code != code
  {
    var i := IndexOfCode(nodes, code, 0);
    if code in Codes(nodes) {
      var k :| 0 <= k < |nodes| && nodes[k].code == code;
      if i == |nodes| {
        IndexOfCodeIsFirst(nodes, code, 0, k);
      }
    }
    forall j | 0 <= j < i {
      IndexOfCodeIsFirst(nodes, code, 0, j);
    }
  }

  /** The first node carrying a code is the one Lookup finds, whatever the later nodes. */
  lemma LookupIsFirstMatch(nodes: seq<Node>, code: Code, i: nat)
    requires i < |nodes| && nodes[i].code == code
    requires forall j :: 0 <= j < i ==> nodes[j].code != code
    ensures Lookup(nodes, code) == Some(i)
  {
    var k := IndexOfCode(nodes, code, 0);
    if k > i {
      IndexOfCodeIsFirst(nodes, code, 0, i);
    }
  }

  /** Whether a code names a node that is marked central; an unknown code is not. */
  predicate Central(nodes: seq<Node>, code: Code)
    ensures Central(nodes, code) ==> code in Codes(nodes)
  {
    var r := Lookup(nodes, code);
    r.Some? && nodes[r.value].central
  }

  predicate Targets(slot: Option<Edge>, v: Code)
  {
    slot.Some? && slot.value.target == v
  }

  /** The index of a lightest slot at or after `from` that leads to `v`, or |slots| when none does. */
  function LightestSlot(slots: seq<Option<Edge>>, v: Code, from: nat): (i: nat)
    requires from <= |slots|
    ensures from <= i <= |slots|
    ensures i < |slots| ==> Targets(slots[i], v)
    decreases |slots| - from
  {
    if from == |slots| then from
    else
      var rest := LightestSlot(slots, v, from + 1);
      if Targets(slots[from], v) && (rest == |slots| || slots[from].value.weight <= slots[rest].value.weight)
      then from
      else rest
  }

  /** LightestSlot finds a slot whenever one leads to `v`, and none lighter leads there. */
  lemma {:induction false} LightestSlotIsLightest(slots: seq<Option<Edge>>, v: Code, from: nat, j: nat)
    requires from <= j < |slots| && Targets(slots[j], v)
    ensures LightestSlot(slots, v, from) < |slots|
    ensures slots[LightestSlot(slots, v, from)].value.weight <= slots[j].value.weight
    decreases |slots| - from
  {
    if j > from {
      LightestSlotIsLightest(slots, v, from + 1, j);
    }
  }

  /** The weight of the lightest link from node `u` to `v`, if `u` has any. */
  function EdgeWeight(nodes: seq<Node>, u: Code, v: Code): (r: Option<nat>)
  {
    match Lookup(nodes, u)
    case None => None
    case Some(n) =>
      var i := LightestSlot(nodes[n].slots, v, 0);
      if i < SlotCount then Some(nodes[n].slots[i].value.weight) else None
  }

  function Weight(nodes: seq<Node>, u: Code, v: Code): nat
  {
    match EdgeWeight(nodes, u, v)
    case None => 0
    case Some(w) => w
  }

  /** A filled slot of a node gives a link to its target no heavier than the slot. */
  lemma SlotBoundsWeight(nodes: seq<Node>, n: nat, i: nat, e: Edge)
    requires n < |nodes| && Lookup(nodes, nodes[n].code) == Some(n)
    requires i < SlotCount && nodes[n].slots[i] == Some(e)
    ensures EdgeWeight(nodes, nodes[n].code, e.target).Some?
    ensures Weight(nodes, nodes[n].code, e.target) <= e.weight
  {
    LightestSlotIsLightest(nodes[n].slots, e.target, 0, i);
  }

  /** The restricted-node rule: a link from `u` may enter `v` only when `v` is a
      node, and a central `v` only when it is the finish or `u` is the start. */
  predicate Allowed(nodes: seq<Node>, start: Code, finish: Code, u: Code, v: Code)
    ensures Lookup(nodes, v).Some? && (u == start || v == finish) ==> Allowed(nodes, start, finish, u, v)
    ensures Allowed(nodes, start, finish, u, v) && u != start && v != finish ==> !Central(nodes, v)
    ensures Lookup(nodes, v).Some? && !Central(nodes, v) ==> Allowed(nodes, start, finish, u, v)
    ensures Allowed(nodes, start, finish, u, v) ==> Lookup(nodes, v).Some?
  {
    Lookup(nodes, v).Some? && (Central(nodes, v) ==> v == finish || u == start)
  }

  /** A link the search may follow from `u` to `v`. */
  predicate Step(nodes: seq<Node>, start: Code, finish: Code, u: Code, v: Code)
  {
    EdgeWeight(nodes, u, v).Some? && Allowed(nodes, start, finish, u, v)
  }

  /** A walk from the start along links the search may follow. */
  ghost predicate IsWalk(nodes: seq<Node>, start: Code, finish: Code, q: seq<Code>)
  {
    |q| > 0 && q[0] == start &&
    forall k :: 0 <= k < |q| - 1 ==> Step(nodes, start, finish, q[k], q[k + 1])
  }

  /** A walk from the start that ends at the finish. */
  ghost predicate IsRoute(nodes: seq<Node>, start: Code, finish: Code, q: seq<Code>)
  {
    IsWalk(nodes, start, finish, q) && q[|q| - 1] == finish
  }

  /** The total weight of a walk, each hop taken over its lightest link. */
  function Cost(nodes: seq<Node>, q: seq<Code>): nat
  {
    if |q| < 2 then 0 else Weight(nodes, q[0], q[1]) + Cost(nodes, q[1..])
  }

  predicate Distinct(q: seq<Code>)
  {
    forall i, j :: 0 <= i < j < |q| ==> q[i] != q[j]
  }

  /** Extending a walk by one hop adds that hop's weight to its cost. */
  lemma {:induction false} CostSnoc(nodes: seq<Node>, q: seq<Code>, z: Code)
    requires |q| > 0
    ensures Cost(nodes, q + [z]) == Cost(nodes, q) + Weight(nodes, q[|q| - 1], z)
    decreases |q|
  {
    if |q| > 1 {
      CostSnoc(nodes, q[1..], z);
      assert (q + [z])[1..] == q[1..] + [z];
    }
  }

  /** A code is central exactly when the first node carrying it is marked. */
  lemma CentralIsFirstMarked(nodes: seq<Node>, code: Code)
    ensures Central(nodes, code) <==>
      exists j :: 0 <= j < |nodes| && nodes[j].code == code && nodes[j].central &&
                  forall i :: 0 <= i < j ==> nodes[i].code != code
  {
    LookupSpec(nodes, code);
    if j :| 0 <= j < |nodes| && nodes[j].code == code && nodes[j].central &&
            forall i :: 0 <= i < j ==> nodes[i].code != code {
      LookupIsFirstMatch(nodes, code, j);
    }
  }

  /** Every node of a walk is a node of the array. */
  lemma WalkStaysInGraph(nodes: seq<Node>, start: Code, finish: Code, q: seq<Code>, k: nat)
    requires start in Codes(nodes) && IsWalk(nodes, start, finish, q) && k < |q|
    ensures q[k] in Codes(nodes)
  {
    if k > 0 {
      assert Step(nodes, start, finish, q[k - 1], q[k]);
      LookupSpec(nodes, q[k]);
    }
  }

  /** No route can end at a code that names no node. */
  lemma NoRouteToUnknownFinish(nodes: seq<Node>, start: Code, finish: Code, q: seq<Code>)
    requires start in Codes(nodes) && finish !in Codes(nodes)
    ensures !IsRoute(nodes, start, finish, q)
  {
    if IsWalk(nodes, start, finish, q) {
      WalkStaysInGraph(nodes, start, finish, q, |q| - 1);
    }
  }

  /** On a route that repeats no node, a central node stands only at the end
      or right after the start. */
  lemma CentralOnlyNextToEnds(nodes: seq<Node>, start: Code, finish: Code, q: seq<Code>, k: nat)
    requires IsRoute(nodes, start, finish, q) && Distinct(q)
    requires 0 < k < |q| - 1 && Central(nodes, q[k])
    ensures k == 1
  {
    assert Step(nodes, start, finish, q[k - 1], q[k]);
  }
}
