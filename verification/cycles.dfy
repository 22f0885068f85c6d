/**
  Cycle detection by depth-first search (`findActionCycle` and
  `validateSynchronizationPlan` in src/domain/synchronization.ts;
  `findDependencyCycle` in src/domain/profile.ts is the same search).

  The finder keeps the active path and the set of finished nodes. It is sound and
  complete: a reported cycle is a real one, and no report means the graph has
  none, witnessed by a linear order that respects every edge.
 */
module Cycles {
  import opened Options

  type Graph = map<string, seq<string>>

  /** An edge between known nodes; references to unknown nodes are skipped. */
  predicate Edge(graph: Graph, from: string, to: string) {
    from in graph && to in graph[from] && to in graph
  }

  /** A closed walk along edges, with its first node repeated at the end. */
  ghost predicate IsCycle(graph: Graph, walk: seq<string>) {
    && |walk| >= 2 && walk[0] == walk[|walk| - 1]
    && forall i :: 0 <= i < |walk| - 1 ==> Edge(graph, walk[i], walk[i + 1])
  }

  ghost predicate Acyclic(graph: Graph) {
    forall walk :: !IsCycle(graph, walk)
  }

  ghost predicate Distinct(nodes: seq<string>) {
    forall i, j :: 0 <= i < j < |nodes| ==> nodes[i] != nodes[j]
  }

  /** `order` lists every node once, the target of each edge before its source. */
  ghost predicate IsPostorder(graph: Graph, order: seq<string>) {
    && Distinct(order) && (forall n :: n in order <==> n in graph)
    && forall i, to :: 0 <= i < |order| && Edge(graph, order[i], to) ==> to in order[..i]
  }

  /** `order` lists every node once, the source of each edge before its target. */
  ghost predicate IsLinearOrder(graph: Graph, order: seq<string>) {
    && Distinct(order) && (forall n :: n in order <==> n in graph)
    && forall i, j :: 0 <= i < |order| && 0 <= j < |order| && Edge(graph, order[i], order[j]) ==> i < j
  }

  /** The active nodes form one path without repetition. */
  ghost predicate IsPath(graph: Graph, active: seq<string>) {
    && Distinct(active) && (forall n :: n in active ==> n in graph)
    && forall i :: 0 <= i < |active| - 1 ==> Edge(graph, active[i], active[i + 1])
  }

  /** The finished nodes are closed under edges and listed targets first. */
  ghost predicate IsFinished(graph: Graph, complete: set<string>, finished: seq<string>) {
    && Distinct(finished) && (forall n :: n in finished <==> n in complete) && complete <= graph.Keys
    && forall i, to :: 0 <= i < |finished| && Edge(graph, finished[i], to) ==> to in finished[..i]
  }

  lemma PushNode(graph: Graph, active: seq<string>, id: string)
    requires IsPath(graph, active) && id in graph && id !in active
    requires |active| > 0 ==> Edge(graph, active[|active| - 1], id)
    ensures IsPath(graph, active + [id])
  {
  }

  lemma FinishNode(graph: Graph, complete: set<string>, finished: seq<string>, id: string)
    requires IsFinished(graph, complete, finished) && id in graph && id !in complete
    requires forall to :: to in graph[id] && to in graph ==> to in complete
    ensures IsFinished(graph, complete + {id}, finished + [id])
  {
    var all := finished + [id];
    forall i, to | 0 <= i < |all| && Edge(graph, all[i], to)
      ensures to in all[..i]
    {
      if i < |finished| {
        assert all[..i] == finished[..i];
      } else {
        assert all[..i] == finished;
      }
    }
  }

  /** Meeting an active node again closes a cycle. */
  lemma ClosesCycle(graph: Graph, active: seq<string>, index: nat)
    requires IsPath(graph, active) && index < |active| && Edge(graph, active[|active| - 1], active[index])
    ensures IsCycle(graph, active[index..] + [active[index]]) && Distinct((active[index..] + [active[index]])[1..])
  {
    var walk := active[index..] + [active[index]];
    assert forall i :: 0 <= i < |walk| - 1 ==> walk[i] == active[index + i];
  }

  // ----- the search -----

  class CycleFinder {
    const graph: Graph
    var active: seq<string>
    var complete: set<string>
    /** The finished nodes in the order they finished. */
    ghost var finished: seq<string>

    constructor (graph: Graph)
      ensures Valid() && this.graph == graph && active == [] && complete == {}
    {
      this.graph := graph;
      active, complete, finished := [], {}, [];
    }

    ghost predicate Valid()
      reads this
    {
      IsPath(graph, active) && IsFinished(graph, complete, finished) && forall n :: n in active ==> n !in complete
    }

    ghost function Unfinished(): set<string>
      reads this
    {
      graph.Keys - complete - (set n | n in active)
    }

    method ActiveIndex(id: string) returns (index: int)
      ensures index == -1 ==> id !in active
      ensures index != -1 ==> 0 <= index < |active| && active[index] == id
    {
      for i := 0 to |active|
        invariant id !in active[..i]
      {
        if active[i] == id {
          return i;
        }
        assert active[..i + 1] == active[..i] + [active[i]];
      }
      assert active[..|active|] == active;
      return -1;
    }

    method Visit(id: string) returns (cycle: Option<seq<string>>)
      requires Valid() && id in graph
      requires |active| > 0 ==> Edge(graph, active[|active| - 1], id)
      modifies this
      ensures cycle.Some? ==> IsCycle(graph, cycle.value) && Distinct(cycle.value[1..])
      ensures cycle.None? ==> Valid() && active == old(active) && id in complete && old(complete) <= complete
      decreases Unfinished()
    {
      if id in complete {
        return None;
      }
      var index := ActiveIndex(id);
      if index >= 0 {
        ClosesCycle(graph, active, index);
        return Some(active[index..] + [id]);
      }
      ghost var path, before := active, complete;
      PushNode(graph, active, id);
      active := active + [id];
      assert Unfinished() < old(Unfinished()) by {
        assert id in old(Unfinished()) && id !in Unfinished();
      }
      for k := 0 to |graph[id]|
        invariant Valid() && active == path + [id] && before <= complete
        invariant forall to :: to in graph[id][..k] && to in graph ==> to in complete
      {
        var next := graph[id][k];
        assert graph[id][..k + 1] == graph[id][..k] + [next];
        if next in graph {
          cycle := Visit(next);
          if cycle.Some? {
            return;
          }
        }
      }
      assert graph[id][..|graph[id]|] == graph[id];
      FinishNode(graph, complete, finished, id);
      active := active[..|active| - 1];
      complete := complete + {id};
      finished := finished + [id];
      return None;
    }

    /** Visit every node until a cycle turns up. */
    method Search(ids: seq<string>) returns (cycle: Option<seq<string>>)
      requires Valid() && active == [] && complete == {}
      requires forall n :: n in ids <==> n in graph
      modifies this
      ensures cycle.Some? ==> IsCycle(graph, cycle.value) && Distinct(cycle.value[1..])
      ensures cycle.None? ==> IsPostorder(graph, finished)
    {
      for k := 0 to |ids|
        invariant Valid() && active == [] && forall n :: n in ids[..k] ==> n in complete
      {
        assert ids[..k + 1] == ids[..k] + [ids[k]];
        cycle := Visit(ids[k]);
        if cycle.Some? {
          return;
        }
      }
      assert ids[..|ids|] == ids;
      return None;
    }
  }

  // ----- orders and cycles exclude each other -----

  function Position(order: seq<string>, n: string): (i: nat)
    requires n in order
    ensures i < |order| && order[i] == n
  {
    if order[0] == n then 0 else 1 + Position(order[1..], n)
  }

  lemma DistinctPosition(order: seq<string>, i: nat)
    requires Distinct(order) && i < |order|
    ensures Position(order, order[i]) == i
  {
    var j := Position(order, order[i]);
    assert order[j] == order[i];
  }

  /** Along a walk the position in a postorder falls at every edge. */
  lemma {:induction false} WalkDescends(graph: Graph, order: seq<string>, walk: seq<string>, i: nat)
    requires IsPostorder(graph, order) && IsCycle(graph, walk) && i < |walk|
    ensures walk[i] in order && walk[0] in order && Position(order, walk[i]) + i <= Position(order, walk[0])
  {
    if i == 0 {
      assert Edge(graph, walk[0], walk[1]);
    } else {
      WalkDescends(graph, order, walk, i - 1);
      assert Edge(graph, walk[i - 1], walk[i]);
      var from := Position(order, walk[i - 1]);
      assert walk[i] in order[..from];
      var to :| 0 <= to < from && order[to] == walk[i];
      DistinctPosition(order, to);
    }
  }

  lemma PostorderIsAcyclic(graph: Graph, order: seq<string>)
    requires IsPostorder(graph, order)
    ensures Acyclic(graph)
  {
    forall walk | IsCycle(graph, walk)
      ensures false
    {
      WalkDescends(graph, order, walk, |walk| - 1);
    }
  }

  function Reverse(nodes: seq<string>): (reversed: seq<string>)
    ensures |reversed| == |nodes| && forall i :: 0 <= i < |nodes| ==> reversed[i] == nodes[|nodes| - 1 - i]
  {
    if nodes == [] then [] else Reverse(nodes[1..]) + [nodes[0]]
  }

  /** Reading a postorder backwards runs every action before those it precedes. */
  lemma ReversedPostorder(graph: Graph, order: seq<string>)
    requires IsPostorder(graph, order)
    ensures IsLinearOrder(graph, Reverse(order))
  {
    var linear := Reverse(order);
    forall n
      ensures n in linear <==> n in order
    {
      if n in order {
        assert linear[|order| - 1 - Position(order, n)] == n;
      }
    }
    forall i, j | 0 <= i < |linear| && 0 <= j < |linear| && Edge(graph, linear[i], linear[j])
      ensures i < j
    {
      var from := |order| - 1 - i;
      assert linear[j] in order[..from];
      var to :| 0 <= to < from && order[to] == linear[j];
      assert order[|order| - 1 - j] == order[to];
    }
  }

  // ----- the two entry points -----

  datatype Node = Node(id: string, edges: seq<string>)

  /** Later nodes of the same id replace earlier ones. */
  function GraphOf(nodes: seq<Node>): (graph: Graph)
    ensures forall id :: id in graph <==> id in Ids(nodes)
  {
    if nodes == [] then map[]
    else
      var last := nodes[|nodes| - 1];
      GraphOf(nodes[..|nodes| - 1])[last.id := last.edges]
  }

  function Ids(nodes: seq<Node>): (ids: seq<string>)
    ensures |ids| == |nodes| && forall i :: 0 <= i < |nodes| ==> ids[i] == nodes[i].id
  {
    if nodes == [] then [] else Ids(nodes[..|nodes| - 1]) + [nodes[|nodes| - 1].id]
  }

  // ----- the graph, read off the nodes -----

  /** Position `i` is the last with this id. */
  ghost predicate IsLast(nodes: seq<Node>, i: nat, id: string) {
    i < |nodes| && nodes[i].id == id && forall j :: i < j < |nodes| ==> nodes[j].id != id
  }

  /** The last node called `from` lists `to`, and some node is called `to`. */
  ghost predicate Points(nodes: seq<Node>, from: string, to: string) {
    (exists i: nat :: IsLast(nodes, i, from) && to in nodes[i].edges) && exists n :: n in nodes && n.id == to
  }

  /** A closed walk from node to listed node. */
  ghost predicate IsClosedWalk(nodes: seq<Node>, walk: seq<string>) {
    && |walk| >= 2 && walk[0] == walk[|walk| - 1]
    && forall i :: 0 <= i < |walk| - 1 ==> Points(nodes, walk[i], walk[i + 1])
  }

  /** Every id once, each before the ids its node lists. */
  ghost predicate IsOrderOf(nodes: seq<Node>, order: seq<string>) {
    && Distinct(order) && (forall id :: id in order <==> exists n :: n in nodes && n.id == id)
    && forall i, j :: 0 <= i < |order| && 0 <= j < |order| && Points(nodes, order[i], order[j]) ==> i < j
  }

  lemma KnownIffNamed(nodes: seq<Node>, id: string)
    ensures id in GraphOf(nodes) <==> exists n :: n in nodes && n.id == id
  {
    if id in GraphOf(nodes) {
      var i :| 0 <= i < |nodes| && Ids(nodes)[i] == id;
      assert nodes[i] in nodes;
    }
    if n :| n in nodes && n.id == id {
      var i :| 0 <= i < |nodes| && nodes[i] == n;
      assert Ids(nodes)[i] == id;
    }
  }

  lemma {:induction false} GraphListsLast(nodes: seq<Node>, i: nat, id: string)
    requires IsLast(nodes, i, id)
    ensures id in GraphOf(nodes) && GraphOf(nodes)[id] == nodes[i].edges
  {
    var rest := nodes[..|nodes| - 1];
    if i < |rest| {
      assert nodes[|nodes| - 1].id != id;
      assert IsLast(rest, i, id);
      GraphListsLast(rest, i, id);
    }
  }

  lemma LastIsKnown(nodes: seq<Node>, i: nat, id: string)
    ensures IsLast(nodes, i, id) ==> exists n :: n in nodes && n.id == id
  {
    if IsLast(nodes, i, id) {
      assert nodes[i] in nodes;
    }
  }

  lemma {:induction false} LastExists(nodes: seq<Node>, id: string) returns (i: nat)
    requires exists n :: n in nodes && n.id == id
    ensures IsLast(nodes, i, id)
  {
    var rest := nodes[..|nodes| - 1];
    assert nodes == rest + [nodes[|nodes| - 1]];
    if nodes[|nodes| - 1].id == id {
      i := |nodes| - 1;
    } else {
      i := LastExists(rest, id);
    }
  }

  lemma EdgeIffPoints(nodes: seq<Node>, from: string, to: string)
    ensures Edge(GraphOf(nodes), from, to) <==> Points(nodes, from, to)
  {
    KnownIffNamed(nodes, from);
    KnownIffNamed(nodes, to);
    if from in GraphOf(nodes) {
      var i := LastExists(nodes, from);
      GraphListsLast(nodes, i, from);
      forall j: nat | IsLast(nodes, j, from) ensures j == i {
        assert i < j || j <= i;
      }
    } else {
      forall j: nat ensures !IsLast(nodes, j, from) {
        LastIsKnown(nodes, j, from);
      }
    }
  }

  lemma GraphIsOfNodes(nodes: seq<Node>)
    ensures forall walk :: IsCycle(GraphOf(nodes), walk) <==> IsClosedWalk(nodes, walk)
    ensures forall order :: IsLinearOrder(GraphOf(nodes), order) <==> IsOrderOf(nodes, order)
  {
    forall from, to ensures Edge(GraphOf(nodes), from, to) <==> Points(nodes, from, to) {
      EdgeIffPoints(nodes, from, to);
    }
    forall id ensures id in GraphOf(nodes) <==> exists n :: n in nodes && n.id == id {
      KnownIffNamed(nodes, id);
    }
  }

  /** With ids used once, the node called `from` is the only one to look at. */
  lemma PointsWhenDistinct(nodes: seq<Node>, n: Node, to: string)
    requires n in nodes && forall i, j :: 0 <= i < j < |nodes| ==> nodes[i].id != nodes[j].id
    ensures Points(nodes, n.id, to) <==> to in n.edges && exists m :: m in nodes && m.id == to
  {
    var i :| 0 <= i < |nodes| && nodes[i] == n;
    assert IsLast(nodes, i, n.id);
    forall j: nat | IsLast(nodes, j, n.id) ensures j == i {
      assert i < j || j < i || i == j;
    }
  }

  /** `findActionCycle`, and `findDependencyCycle` on `dependsOn ?? []`: null
      exactly when the known nodes have no cycle, and then a linear order exists. */
  method FindCycle(nodes: seq<Node>) returns (cycle: Option<seq<string>>)
    ensures cycle.None? <==> forall walk :: !IsClosedWalk(nodes, walk)
    ensures cycle.Some? ==> IsClosedWalk(nodes, cycle.value) && Distinct(cycle.value[1..])
    ensures cycle.None? <==> exists order :: IsOrderOf(nodes, order)
  {
    var graph: Graph := map[];
    for k := 0 to |nodes|
      invariant graph == GraphOf(nodes[..k])
    {
      assert nodes[..k + 1][..k] == nodes[..k];
      graph := graph[nodes[k].id := nodes[k].edges];
    }
    assert nodes[..|nodes|] == nodes;
    GraphIsOfNodes(nodes);
    var finder := new CycleFinder(graph);
    cycle := finder.Search(Ids(nodes));
    if cycle.None? {
      PostorderIsAcyclic(graph, finder.finished);
      ReversedPostorder(graph, finder.finished);
    } else {
      forall order ensures !IsLinearOrder(graph, order) {
        OrderExcludesCycle(graph, order, cycle.value);
      }
    }
  }

  lemma OrderExcludesCycle(graph: Graph, order: seq<string>, walk: seq<string>)
    ensures !(IsLinearOrder(graph, order) && IsCycle(graph, walk))
  {
    if IsLinearOrder(graph, order) && IsCycle(graph, walk) {
      LinearWalkAscends(graph, order, walk, |walk| - 1);
    }
  }

  lemma {:induction false} LinearWalkAscends(graph: Graph, order: seq<string>, walk: seq<string>, i: nat)
    requires IsLinearOrder(graph, order) && IsCycle(graph, walk) && i < |walk|
    ensures walk[i] in order && walk[0] in order && Position(order, walk[i]) >= Position(order, walk[0]) + i
  {
    if i == 0 {
      assert Edge(graph, walk[0], walk[1]);
    } else {
      LinearWalkAscends(graph, order, walk, i - 1);
      assert Edge(graph, walk[i - 1], walk[i]);
      assert Edge(graph, order[Position(order, walk[i - 1])], order[Position(order, walk[i])]);
    }
  }

  // ----- plan validation -----

  datatype Action = Action(id: string, kind: string, detailKind: string, before: seq<string>)

  datatype PlanError =
    | DuplicateAction(id: string)
    | KindMismatch(id: string, kind: string, detailKind: string)
    | MissingReference(id: string, before: string)
    | ActionCycle(cycle: seq<string>)

  function Nodes(actions: seq<Action>): (nodes: seq<Node>)
    ensures |nodes| == |actions| && forall i :: 0 <= i < |actions| ==>
              nodes[i] == Node(actions[i].id, actions[i].before)
  {
    if actions == [] then []
    else Nodes(actions[..|actions| - 1]) + [Node(actions[|actions| - 1].id, actions[|actions| - 1].before)]
  }

  ghost predicate Repeats(actions: seq<Action>, id: string) {
    exists i, j :: 0 <= i < j < |actions| && actions[i].id == id && actions[j].id == id
  }

  ghost predicate Exists(actions: seq<Action>, id: string) {
    exists a :: a in actions && a.id == id
  }

  /** The last action with the first id must run before the known action with the second. */
  ghost predicate Precedes(actions: seq<Action>, from: string, to: string) {
    (exists i: nat :: IsLastAction(actions, i, from) && to in actions[i].before) && Exists(actions, to)
  }

  ghost predicate IsLastAction(actions: seq<Action>, i: nat, id: string) {
    i < |actions| && actions[i].id == id && forall j :: i < j < |actions| ==> actions[j].id != id
  }

  ghost predicate IsActionCycle(actions: seq<Action>, cycle: seq<string>) {
    && |cycle| >= 2 && cycle[0] == cycle[|cycle| - 1]
    && forall i :: 0 <= i < |cycle| - 1 ==> Precedes(actions, cycle[i], cycle[i + 1])
  }

  /** Every action id once, each before the ids its action must precede. */
  ghost predicate RunsInOrder(actions: seq<Action>, order: seq<string>) {
    && Distinct(order) && (forall id :: id in order <==> Exists(actions, id))
    && forall a, i, j :: a in actions && 0 <= i < |order| && 0 <= j < |order| ==>
          order[i] == a.id && order[j] in a.before ==> i < j
  }

  /** What each kind of error reports. */
  ghost predicate Reports(actions: seq<Action>, e: PlanError) {
    match e
    case DuplicateAction(id) => Repeats(actions, id)
    case KindMismatch(id, kind, detail) => exists a ::
        a in actions && a.id == id && a.kind == kind && a.detailKind == detail && kind != detail
    case MissingReference(id, before) => exists a ::
        a in actions && a.id == id && before in a.before && !Exists(actions, before)
    case ActionCycle(cycle) => IsActionCycle(actions, cycle)
  }

  ghost predicate PlanIsExecutable(actions: seq<Action>) {
    && IdsAreDistinct(actions) && (forall a :: a in actions ==> a.kind == a.detailKind)
    && (forall a, b :: a in actions && b in a.before ==> Exists(actions, b))
    && exists order :: RunsInOrder(actions, order)
  }

  lemma PointsIffPrecedes(actions: seq<Action>)
    ensures forall id :: (exists n :: n in Nodes(actions) && n.id == id) <==> Exists(actions, id)
    ensures forall from, to :: Points(Nodes(actions), from, to) <==> Precedes(actions, from, to)
  {
    var nodes := Nodes(actions);
    forall id ensures (exists n :: n in nodes && n.id == id) <==> Exists(actions, id) {
      if n :| n in nodes && n.id == id {
        var i :| 0 <= i < |nodes| && nodes[i] == n;
        assert actions[i] in actions;
      }
      if a :| a in actions && a.id == id {
        var i :| 0 <= i < |actions| && actions[i] == a;
        assert nodes[i] in nodes;
      }
    }
    forall i: nat, id ensures IsLast(nodes, i, id) <==> IsLastAction(actions, i, id) {
    }
    forall from, to ensures Points(nodes, from, to) <==> Precedes(actions, from, to) {
      if i: nat :| IsLast(nodes, i, from) && to in nodes[i].edges {
        assert IsLastAction(actions, i, from) && to in actions[i].before;
      }
      if i: nat :| IsLastAction(actions, i, from) && to in actions[i].before {
        assert IsLast(nodes, i, from) && to in nodes[i].edges;
      }
    }
  }

  lemma CyclesAreActionCycles(actions: seq<Action>)
    ensures forall cycle :: IsClosedWalk(Nodes(actions), cycle) <==> IsActionCycle(actions, cycle)
  {
    PointsIffPrecedes(actions);
  }

  ghost predicate IdsAreDistinct(actions: seq<Action>) {
    forall i, j :: 0 <= i < j < |actions| ==> actions[i].id != actions[j].id
  }

  lemma PrecedesIffListed(actions: seq<Action>, from: string, to: string)
    requires IdsAreDistinct(actions)
    ensures Precedes(actions, from, to)
       <==> Exists(actions, to) && exists a :: a in actions && a.id == from && to in a.before
  {
    if i: nat :| IsLastAction(actions, i, from) && to in actions[i].before {
      assert actions[i] in actions;
    }
    if a :| a in actions && a.id == from && to in a.before {
      var i :| 0 <= i < |actions| && actions[i] == a;
      assert IsLastAction(actions, i, from);
    }
  }

  lemma OrdersRunActions(actions: seq<Action>, order: seq<string>)
    requires IdsAreDistinct(actions)
    ensures IsOrderOf(Nodes(actions), order) <==> RunsInOrder(actions, order)
  {
    var nodes := Nodes(actions);
    PointsIffPrecedes(actions);
    if IsOrderOf(nodes, order) {
      forall a, i, j | a in actions && 0 <= i < |order| && 0 <= j < |order| && order[i] == a.id && order[j] in a.before
        ensures i < j
      {
        PrecedesIffListed(actions, order[i], order[j]);
        assert order[j] in order && Exists(actions, order[j]);
        assert Points(nodes, order[i], order[j]);
      }
    }
    if RunsInOrder(actions, order) {
      forall i, j | 0 <= i < |order| && 0 <= j < |order| && Points(nodes, order[i], order[j]) ensures i < j {
        PrecedesIffListed(actions, order[i], order[j]);
      }
    }
  }

  /** The first loop: duplicate ids and mismatched kinds. */
  method CheckActions(actions: seq<Action>) returns (errors: seq<PlanError>, actionIds: set<string>)
    ensures forall id :: id in actionIds <==> Exists(actions, id)
    ensures forall e :: e in errors ==> (e.DuplicateAction? || e.KindMismatch?) && Reports(actions, e)
    ensures forall id :: Repeats(actions, id) ==> DuplicateAction(id) in errors
    ensures forall a :: a in actions && a.kind != a.detailKind ==> KindMismatch(a.id, a.kind, a.detailKind) in errors
  {
    errors, actionIds := [], {};
    for k := 0 to |actions|
      invariant forall id :: id in actionIds <==> exists i :: 0 <= i < k && actions[i].id == id
      invariant forall e :: e in errors ==> (e.DuplicateAction? || e.KindMismatch?) && Reports(actions, e)
      invariant forall i, j :: 0 <= i < j < k && actions[i].id == actions[j].id ==>
                  DuplicateAction(actions[i].id) in errors
      invariant forall i :: 0 <= i < k && actions[i].kind != actions[i].detailKind
                  ==> KindMismatch(actions[i].id, actions[i].kind, actions[i].detailKind) in errors
    {
      var action := actions[k];
      assert action in actions;
      if action.id in actionIds {
        errors := errors + [DuplicateAction(action.id)];
      }
      actionIds := actionIds + {action.id};
      if action.kind != action.detailKind {
        errors := errors + [KindMismatch(action.id, action.kind, action.detailKind)];
      }
    }
  }

  /** The second loop: references to unknown actions. */
  method CheckReferences(actions: seq<Action>, actionIds: set<string>) returns (errors: seq<PlanError>)
    requires forall id :: id in actionIds <==> Exists(actions, id)
    ensures forall e :: e in errors <==> e.MissingReference? && Reports(actions, e)
  {
    errors := [];
    for k := 0 to |actions|
      invariant forall e :: e in errors ==> e.MissingReference? && Reports(actions, e)
      invariant forall i, b :: 0 <= i < k && b in actions[i].before && b !in actionIds ==>
                  MissingReference(actions[i].id, b) in errors
    {
      var action := actions[k];
      assert action in actions;
      for j := 0 to |action.before|
        invariant forall e :: e in errors ==> e.MissingReference? && Reports(actions, e)
        invariant forall i, b :: 0 <= i < k && b in actions[i].before && b !in actionIds ==>
                    MissingReference(actions[i].id, b) in errors
        invariant forall b :: b in action.before[..j] && b !in actionIds ==> MissingReference(action.id, b) in errors
      {
        var before := action.before[j];
        assert before in action.before;
        assert action.before[..j + 1] == action.before[..j] + [before];
        if before !in actionIds {
          errors := errors + [MissingReference(action.id, before)];
        }
      }
      assert action.before[..|action.before|] == action.before;
    }
  }

  /** Every reported error is real, every defect is reported, and a plan without
      errors is one whose actions can run in a linear order. */
  method ValidateSynchronizationPlan(actions: seq<Action>) returns (errors: seq<PlanError>)
    ensures forall e :: e in errors ==> Reports(actions, e)
    ensures forall e :: Reports(actions, e) && !e.ActionCycle? ==> e in errors
    ensures (exists cycle :: IsActionCycle(actions, cycle)) <==> exists cycle :: ActionCycle(cycle) in errors
    ensures errors == [] <==> PlanIsExecutable(actions)
  {
    var first, actionIds := CheckActions(actions);
    var missing := CheckReferences(actions, actionIds);
    errors := first + missing;
    var cycle := FindCycle(Nodes(actions));
    CyclesAreActionCycles(actions);
    if cycle.Some? {
      errors := errors + [ActionCycle(cycle.value)];
      assert ActionCycle(cycle.value) in errors;
    }
    if errors == [] {
      NoDefectMeansExecutable(actions);
    } else {
      assert errors[0] in errors;
      DefectPreventsExecution(actions, errors[0]);
    }
  }

  /** A reported defect, of any kind, makes the plan impossible to run in order. */
  lemma DefectPreventsExecution(actions: seq<Action>, e: PlanError)
    requires Reports(actions, e)
    ensures !PlanIsExecutable(actions)
  {
    match e
    case DuplicateAction(id) =>
    case KindMismatch(id, kind, detail) =>
    case MissingReference(id, before) =>
    case ActionCycle(cycle) =>
      if PlanIsExecutable(actions) {
        var order :| RunsInOrder(actions, order);
        OrdersRunActions(actions, order);
        CyclesAreActionCycles(actions);
        GraphIsOfNodes(Nodes(actions));
        OrderExcludesCycle(GraphOf(Nodes(actions)), order, cycle);
        assert false;
      }
  }

  lemma NoDefectMeansExecutable(actions: seq<Action>)
    requires forall e :: Reports(actions, e) ==> e.ActionCycle?
    requires exists order :: IsOrderOf(Nodes(actions), order)
    ensures PlanIsExecutable(actions)
  {
    NoRepeats(actions);
    var order :| IsOrderOf(Nodes(actions), order);
    OrdersRunActions(actions, order);
    forall a | a in actions
      ensures a.kind == a.detailKind
    {
      assert !Reports(actions, KindMismatch(a.id, a.kind, a.detailKind));
    }
    forall a, b | a in actions && b in a.before
      ensures Exists(actions, b)
    {
      assert !Reports(actions, MissingReference(a.id, b));
    }
  }

  lemma NoRepeats(actions: seq<Action>)
    requires forall e :: Reports(actions, e) ==> e.ActionCycle?
    ensures IdsAreDistinct(actions)
  {
    forall i, j | 0 <= i < j < |actions|
      ensures actions[i].id != actions[j].id
    {
      assert !Reports(actions, DuplicateAction(actions[i].id));
    }
  }
}
