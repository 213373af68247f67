/** The `Dag` of luciole: nodes with typed ports, edges between ports, and the level-by-level
    topological sort (Kahn's algorithm). */
module Dags {
  import opened Results
  import opened Graphs

  datatype PortType = Typed(id: nat) | Trigger | Any {
    /** Two different types never connect, nor does a type with a trigger. */
    predicate CompatibleWith(other: PortType): (r: bool)
      ensures r <==> this == other || this.Any? || other.Any?
    {
      match (this, other)
      case (Any, _) => true
      case (_, Any) => true
      case (Trigger, Trigger) => true
      case (Typed(a), Typed(b)) => a == b
      case _ => false
    }
  }

  datatype PortDef = PortDef(name: string, portType: PortType, required: bool)

  /** What the graph sees of a node: its declared ports. */
  datatype Node = Node(inputs: seq<PortDef>, outputs: seq<PortDef>)

  datatype Entry = Entry(name: string, node: Node)

  datatype Edge = Edge(fromNode: string, fromPort: string, toNode: string, toPort: string)

  datatype Error =
    | NodeNotFound(name: string)
    | NoOutputPort(node: string, port: string)
    | NoInputPort(node: string, port: string)
    | PortTypeMismatch(edge: Edge)
    | UnknownNode(name: string)
    | CycleDetected
    | RequiredInputNotConnected(node: string, port: string)

  // ---- names ----

  predicate HasName(nodes: seq<Entry>, name: string) {
    exists i :: 0 <= i < |nodes| && nodes[i].name == name
  }

  ghost predicate UniqueNames(nodes: seq<Entry>) {
    forall i, j | 0 <= i < j < |nodes| :: nodes[i].name != nodes[j].name
  }

  /** The first node of that name, as `find_node` looks it up. */
  function FindNode(nodes: seq<Entry>, name: string): (r: Option<Node>)
    ensures r.Some? <==> HasName(nodes, name)
    ensures r.Some? ==> Entry(name, r.value) in nodes
  {
    if nodes == [] then None
    else if nodes[0].name == name then Some(nodes[0].node)
    else
      var r := FindNode(nodes[1..], name);
      assert HasName(nodes, name) <==> HasName(nodes[1..], name) by {
        if HasName(nodes, name) {
          var i :| 0 <= i < |nodes| && nodes[i].name == name;
          assert nodes[1..][i - 1].name == name;
        }
      }
      r
  }

  /** The last index of that name (the entry a map collected from the nodes keeps), or
      `|nodes|` when no node has it. */
  function LastIndex(nodes: seq<Entry>, name: string): (r: nat)
    ensures r <= |nodes|
  {
    if nodes == [] then 0
    else
      var k := |nodes| - 1;
      if nodes[k].name == name then k
      else
        var r := LastIndex(nodes[..k], name);
        if r == k then k + 1 else r
  }

  lemma {:induction false} LastIndexSpec(nodes: seq<Entry>, name: string)
    ensures var r := LastIndex(nodes, name);
            && (r < |nodes| <==> HasName(nodes, name))
            && (r < |nodes| ==> nodes[r].name == name)
            && forall j | r < j < |nodes| :: nodes[j].name != name
  {
    if nodes != [] && nodes[|nodes| - 1].name != name {
      var k := |nodes| - 1;
      LastIndexSpec(nodes[..k], name);
      if HasName(nodes, name) {
        var i :| 0 <= i < |nodes| && nodes[i].name == name;
        assert nodes[..k][i].name == name;
      }
    }
  }

  function FindPort(ports: seq<PortDef>, name: string): (r: Option<PortType>)
    ensures r.Some? ==> exists p | p in ports :: p.name == name && p.portType == r.value
    ensures r.None? ==> forall p | p in ports :: p.name != name
  {
    if ports == [] then None
    else if ports[0].name == name then Some(ports[0].portType)
    else FindPort(ports[1..], name)
  }

  /** Entry `i` is the first of that name. */
  ghost predicate FirstNamed(nodes: seq<Entry>, i: nat, name: string) {
    i < |nodes| && nodes[i].name == name && forall k | 0 <= k < i :: nodes[k].name != name
  }

  ghost predicate FirstPort(ports: seq<PortDef>, i: nat, name: string) {
    i < |ports| && ports[i].name == name && forall k | 0 <= k < i :: ports[k].name != name
  }

  lemma {:induction false} FindsFirst(nodes: seq<Entry>, i: nat, name: string)
    requires FirstNamed(nodes, i, name)
    ensures FindNode(nodes, name) == Some(nodes[i].node)
  {
    if i > 0 {
      assert nodes[0].name != name;
      forall k | 0 <= k < i - 1
        ensures nodes[1..][k].name != name
      {
        assert nodes[1..][k] == nodes[k + 1];
      }
      FindsFirst(nodes[1..], i - 1, name);
    }
  }

  lemma {:induction false} FindsFirstPort(ports: seq<PortDef>, i: nat, name: string)
    requires FirstPort(ports, i, name)
    ensures FindPort(ports, name) == Some(ports[i].portType)
  {
    if i > 0 {
      assert ports[0].name != name;
      forall k | 0 <= k < i - 1
        ensures ports[1..][k].name != name
      {
        assert ports[1..][k] == ports[k + 1];
      }
      FindsFirstPort(ports[1..], i - 1, name);
    }
  }

  // ---- the graph on node indices ----

  ghost function Below(n: nat): (s: set<nat>)
    ensures |s| == n && forall v: nat :: v in s <==> v < n
  {
    if n == 0 then {} else Below(n - 1) + {n - 1}
  }

  predicate Resolved(nodes: seq<Entry>, edges: seq<Edge>) {
    forall e | e in edges :: HasName(nodes, e.fromNode) && HasName(nodes, e.toNode)
  }

  ghost function GraphOf(nodes: seq<Entry>, edges: seq<Edge>): Graph {
    set e | e in edges :: (LastIndex(nodes, e.fromNode), LastIndex(nodes, e.toNode))
  }

  /** Every node is listed once, in the level given by the longest walk that reaches it. */
  ghost predicate IsLevelling(g: Graph, n: nat, levels: seq<seq<nat>>) {
    && (forall i | 0 <= i < |levels| :: NoDuplicates(levels[i]) && levels[i] != [])
    && (forall i, v: nat | 0 <= i < |levels| :: v in levels[i] <==> v < n && HasDepth(g, v, i))
    && (forall v: nat | v < n :: Before(levels, |levels|, v))
  }

  lemma GraphInRange(nodes: seq<Entry>, edges: seq<Edge>)
    requires Resolved(nodes, edges)
    ensures forall e | e in GraphOf(nodes, edges) :: e.0 < |nodes| && e.1 < |nodes|
  {
    forall e | e in edges ensures LastIndex(nodes, e.fromNode) < |nodes| && LastIndex(nodes, e.toNode) < |nodes| {
      LastIndexSpec(nodes, e.fromNode);
      LastIndexSpec(nodes, e.toNode);
    }
  }

  lemma GraphSnoc(nodes: seq<Entry>, edges: seq<Edge>, e: Edge)
    ensures GraphOf(nodes, edges + [e]) ==
            GraphOf(nodes, edges) + {(LastIndex(nodes, e.fromNode), LastIndex(nodes, e.toNode))}
  {
  }

  lemma LayeringIsLevelling(g: Graph, n: nat, levels: seq<seq<nat>>)
    requires Layered(g, levels)
    requires NodesOf(levels) == Below(n)
    requires forall i | 0 <= i < |levels| :: NoDuplicates(levels[i]) && levels[i] != []
    ensures IsLevelling(g, n, levels)
  {
    forall v: nat | v < n ensures Before(levels, |levels|, v) {
      InSomeLevel(levels, v);
    }
    forall i, v: nat | 0 <= i < |levels| ensures v in levels[i] <==> v < n && HasDepth(g, v, i) {
      if v in levels[i] {
        assert Before(levels, |levels|, v);
        InSomeLevel(levels, v);
        LevelIsDepth(g, levels, v, i);
      } else if v < n && HasDepth(g, v, i) {
        var j :| 0 <= j < |levels| && v in levels[j];
        LevelIsDepth(g, levels, v, j);
        DepthIsUnique(g, v, i, j);
      }
    }
  }

  // ---- Kahn's algorithm ----

  /** `inDegree` counts, for every node, its predecessors that are not done. */
  ghost predicate CountsWaiting(g: Graph, n: nat, done: set<nat>, inDegree: seq<nat>) {
    |inDegree| == n && forall v: nat | v < n :: inDegree[v] == |Waiting(g, n, done, v)|
  }

  /** The nodes that can run next: not done, and nothing to wait for. */
  ghost predicate Ready(g: Graph, n: nat, done: set<nat>, v: nat) {
    v < n && v !in done && Waiting(g, n, done, v) == {}
  }

  ghost predicate IsAdjacency(g: Graph, n: nat, dependents: seq<seq<nat>>) {
    && |dependents| == n
    && (forall u | 0 <= u < n :: NoDuplicates(dependents[u]))
    && (forall u, v: nat | 0 <= u < n :: v in dependents[u] <==> (u, v) in g)
    && (forall e | e in g :: e.0 < n && e.1 < n)
  }

  method NameIndex(nodes: seq<Entry>) returns (index: map<string, nat>)
    ensures forall s :: s in index <==> LastIndex(nodes, s) < |nodes|
    ensures forall s | s in index :: index[s] == LastIndex(nodes, s)
  {
    index := map[];
    for i := 0 to |nodes|
      invariant forall s :: s in index <==> LastIndex(nodes[..i], s) < i
      invariant forall s | s in index :: index[s] == LastIndex(nodes[..i], s)
    {
      index := index[nodes[i].name := i];
      assert nodes[..i + 1][..i] == nodes[..i] && nodes[..i + 1][i] == nodes[i];
    }
    assert nodes[..|nodes|] == nodes;
  }

  /** Records one dependency; a second port edge between the same two nodes is not counted. */
  method AddDependency(ghost g: Graph, n: nat, from: nat, to: nat, inDegree: seq<nat>, dependents: seq<seq<nat>>)
      returns (inDegree': seq<nat>, dependents': seq<seq<nat>>)
    requires from < n && to < n
    requires IsAdjacency(g, n, dependents) && CountsWaiting(g, n, {}, inDegree)
    ensures IsAdjacency(g + {(from, to)}, n, dependents') && CountsWaiting(g + {(from, to)}, n, {}, inDegree')
  {
    inDegree', dependents' := inDegree, dependents;
    if to !in dependents[from] {
      dependents' := dependents[from := dependents[from] + [to]];
      inDegree' := inDegree[to := inDegree[to] + 1];
      AddEdgeCounts(g, n, from, to);
    } else {
      assert g + {(from, to)} == g;
    }
  }

  /** The adjacency lists and in-degrees of the resolved edges, or the first unknown name. */
  method BuildAdjacency(nodes: seq<Entry>, edges: seq<Edge>)
      returns (unknown: Option<string>, inDegree: seq<nat>, dependents: seq<seq<nat>>)
    ensures unknown.None? <==> Resolved(nodes, edges)
    ensures unknown.Some? ==> !HasName(nodes, unknown.value)
    ensures unknown.None? ==> IsAdjacency(GraphOf(nodes, edges), |nodes|, dependents)
    ensures unknown.None? ==> CountsWaiting(GraphOf(nodes, edges), |nodes|, {}, inDegree)
  {
    var n := |nodes|;
    var index := NameIndex(nodes);
    inDegree := seq(n, _ => 0);
    dependents := seq(n, _ => []);
    for i := 0 to |edges|
      invariant Resolved(nodes, edges[..i])
      invariant IsAdjacency(GraphOf(nodes, edges[..i]), n, dependents)
      invariant CountsWaiting(GraphOf(nodes, edges[..i]), n, {}, inDegree)
    {
      var e := edges[i];
      LastIndexSpec(nodes, e.fromNode);
      LastIndexSpec(nodes, e.toNode);
      if e.fromNode !in index {
        return Some(e.fromNode), inDegree, dependents;
      }
      if e.toNode !in index {
        return Some(e.toNode), inDegree, dependents;
      }
      var from, to := index[e.fromNode], index[e.toNode];
      assert edges[..i + 1] == edges[..i] + [e];
      GraphSnoc(nodes, edges[..i], e);
      inDegree, dependents := AddDependency(GraphOf(nodes, edges[..i]), n, from, to, inDegree, dependents);
    }
    assert edges[..|edges|] == edges;
    return None, inDegree, dependents;
  }

  lemma AddEdgeCounts(g: Graph, n: nat, from: nat, to: nat)
    requires from < n && to < n && (from, to) !in g
    ensures forall v: nat | v < n && v != to :: Waiting(g + {(from, to)}, n, {}, v) == Waiting(g, n, {}, v)
    ensures |Waiting(g + {(from, to)}, n, {}, to)| == |Waiting(g, n, {}, to)| + 1
  {
    assert Waiting(g + {(from, to)}, n, {}, to) == Waiting(g, n, {}, to) + {from};
  }

  /** One finished node releases its dependents: each loses one unit of in-degree, and those
      that reach zero join the next level. */
  method Release(inDegree: seq<nat>, dependents: seq<nat>, next: seq<nat>)
      returns (inDegree': seq<nat>, next': seq<nat>)
    requires NoDuplicates(dependents) && NoDuplicates(next)
    requires forall v | v in dependents :: v < |inDegree| && inDegree[v] > 0 && v !in next
    ensures |inDegree'| == |inDegree|
    ensures forall v | 0 <= v < |inDegree| :: inDegree'[v] == inDegree[v] - if v in dependents then 1 else 0
    ensures NoDuplicates(next')
    ensures forall v: nat :: v in next' <==> v in next || (v in dependents && inDegree'[v] == 0)
    ensures next <= next' && forall q | |next| <= q < |next'| :: next'[q] in dependents
  {
    inDegree', next' := inDegree, next;
    for i := 0 to |dependents|
      invariant |inDegree'| == |inDegree|
      invariant forall v | 0 <= v < |inDegree| ::
          inDegree'[v] == inDegree[v] - if v in dependents[..i] then 1 else 0
      invariant NoDuplicates(next')
      invariant forall v: nat :: v in next' <==> v in next || (v in dependents[..i] && inDegree'[v] == 0)
      invariant next <= next' && forall q | |next| <= q < |next'| :: next'[q] in dependents
    {
      var dep := dependents[i];
      assert dep !in dependents[..i];
      assert dependents[..i + 1] == dependents[..i] + [dep];
      inDegree' := inDegree'[dep := inDegree'[dep] - 1];
      if inDegree'[dep] == 0 {
        next' := next' + [dep];
      }
    }
    assert dependents[..|dependents|] == dependents;
  }

  /** Every predecessor of a done node is done. */
  ghost predicate Closed(g: Graph, done: set<nat>) {
    forall e | e in g && e.1 in done :: e.0 in done
  }

  /** `next` lists the ready nodes outside the level being run. */
  ghost predicate IsNext(g: Graph, n: nat, done: set<nat>, current: seq<nat>, next: seq<nat>) {
    NoDuplicates(next) && forall v: nat :: v in next <==> Ready(g, n, done, v) && v !in current
  }

  lemma FinishNode(g: Graph, n: nat, done: set<nat>, u: nat, v: nat)
    requires u < n && u !in done
    ensures Waiting(g, n, done + {u}, v) == Waiting(g, n, done, v) - {u}
    ensures |Waiting(g, n, done + {u}, v)| == |Waiting(g, n, done, v)| - if (u, v) in g then 1 else 0
  {
    assert Waiting(g, n, done + {u}, v) == Waiting(g, n, done, v) - {u};
    assert u in Waiting(g, n, done, v) <==> (u, v) in g;
  }

  lemma DependentWaits(g: Graph, n: nat, done: set<nat>, current: seq<nat>, d: set<nat>, u: nat, v: nat)
    requires Closed(g, done) && (forall w | w in current :: Ready(g, n, done, w))
    requires u in current && u !in d && done <= d && (u, v) in g
    ensures v !in current && !Ready(g, n, d, v) && Waiting(g, n, d, v) != {} && v !in done
  {
    assert (u, v).1 == v;
    assert Ready(g, n, done, u);
    assert u in Waiting(g, n, done, v) && u in Waiting(g, n, d, v);
  }

  lemma StepNext(g: Graph, n: nat, d: set<nat>, current: seq<nat>, u: nat, dependents: seq<nat>,
                 inDegree: seq<nat>, next: seq<nat>, next': seq<nat>)
    requires u < n && u !in d && u in current
    requires IsNext(g, n, d, current, next) && NoDuplicates(next')
    requires CountsWaiting(g, n, d + {u}, inDegree)
    requires forall v | v in dependents :: v < n && v !in d && v !in current
    requires forall v: nat :: v in dependents <==> (u, v) in g
    requires forall v: nat :: v in next' <==> v in next || (v in dependents && inDegree[v] == 0)
    ensures IsNext(g, n, d + {u}, current, next')
  {
    forall v: nat ensures v in next' <==> Ready(g, n, d + {u}, v) && v !in current {
      FinishNode(g, n, d, u, v);
      if v in next {
        assert v != u && Waiting(g, n, d, v) == {};
      }
      if v < n {
        assert inDegree[v] == 0 <==> Waiting(g, n, d + {u}, v) == {};
      }
    }
  }

  /** Finishes node `u` of the level: its dependents are released. */
  method FinishOne(ghost g: Graph, n: nat, ghost done: set<nat>, ghost current: seq<nat>, ghost d: set<nat>,
                   u: nat, dependents: seq<nat>, inDegree: seq<nat>, next: seq<nat>)
      returns (inDegree': seq<nat>, next': seq<nat>)
    requires Closed(g, done) && forall w | w in current :: Ready(g, n, done, w)
    requires u in current && u !in d && done <= d && d <= done + Elements(current)
    requires NoDuplicates(dependents) && forall v: nat :: v in dependents <==> (u, v) in g
    requires forall v | v in dependents :: v < n
    requires CountsWaiting(g, n, d, inDegree) && IsNext(g, n, d, current, next)
    ensures CountsWaiting(g, n, d + {u}, inDegree') && IsNext(g, n, d + {u}, current, next')
    ensures next <= next' && forall q | |next| <= q < |next'| :: (u, next'[q]) in g
  {
    assert Ready(g, n, done, u);
    forall v | v in dependents ensures inDegree[v] > 0 && v !in next && v !in d && v !in current {
      DependentWaits(g, n, done, current, d, u, v);
    }
    inDegree', next' := Release(inDegree, dependents, next);
    forall v: nat | v < n ensures inDegree'[v] == |Waiting(g, n, d + {u}, v)| {
      FinishNode(g, n, d, u, v);
    }
    StepNext(g, n, d, current, u, dependents, inDegree', next, next');
  }

  // ---- the order inside a level ----

  /** Node `current[k]` is the last of the level that `v` waits for. */
  ghost predicate Finishes(g: Graph, current: seq<nat>, k: nat, v: nat) {
    k < |current| && (current[k], v) in g && forall j | k < j < |current| :: (current[j], v) !in g
  }

  /** `steps` says when each node of the next level became ready; the earlier ones come first. */
  ghost predicate ReleasedAt(g: Graph, current: seq<nat>, next: seq<nat>, steps: seq<nat>) {
    && |steps| == |next|
    && (forall q | 0 <= q < |next| :: Finishes(g, current, steps[q], next[q]))
    && (forall a, b | 0 <= a < b < |steps| :: steps[a] <= steps[b])
  }

  ghost predicate Released(g: Graph, current: seq<nat>, next: seq<nat>) {
    exists steps :: ReleasedAt(g, current, next, steps)
  }

  /** The first level is in order of insertion, every other one in the order its nodes become ready. */
  ghost predicate LevelsOrdered(g: Graph, levels: seq<seq<nat>>) {
    && (levels != [] ==> forall a, b | 0 <= a < b < |levels[0]| :: levels[0][a] < levels[0][b])
    && (forall l | 0 <= l < |levels| - 1 :: Released(g, levels[l], levels[l + 1]))
  }

  lemma LastToFinish(g: Graph, n: nat, d: set<nat>, current: seq<nat>, i: nat, v: nat)
    requires i < |current| && (current[i], v) in g && Ready(g, n, d, v)
    requires forall j | i < j < |current| :: current[j] < n && current[j] !in d
    ensures Finishes(g, current, i, v)
  {
    forall j | i < j < |current|
      ensures (current[j], v) !in g
    {
      assert current[j] !in Waiting(g, n, d, v);
    }
  }

  lemma ReleasedMore(g: Graph, current: seq<nat>, next: seq<nat>, steps: seq<nat>, next': seq<nat>, i: nat)
    returns (steps': seq<nat>)
    requires ReleasedAt(g, current, next, steps) && (forall q | 0 <= q < |steps| :: steps[q] < i) && next <= next'
    requires forall q | |next| <= q < |next'| :: Finishes(g, current, i, next'[q])
    ensures ReleasedAt(g, current, next', steps') && forall q | 0 <= q < |steps'| :: steps'[q] < i + 1
  {
    steps' := steps + seq(|next'| - |next|, _ => i);
    forall q | 0 <= q < |next'|
      ensures Finishes(g, current, steps'[q], next'[q])
    {
      if q < |next| {
        assert next'[q] == next[q] && steps'[q] == steps[q];
      }
    }
  }

  lemma StepReleases(g: Graph, n: nat, done: set<nat>, d: set<nat>, current: seq<nat>, next: seq<nat>,
                     next': seq<nat>, i: nat)
    requires i < |current| && NoDuplicates(current) && forall v | v in current :: Ready(g, n, done, v)
    requires d == done + Elements(current[..i + 1]) && IsNext(g, n, d, current, next')
    requires next <= next' && forall q | |next| <= q < |next'| :: (current[i], next'[q]) in g
    ensures forall q | |next| <= q < |next'| :: Finishes(g, current, i, next'[q])
  {
    forall j | i < j < |current|
      ensures current[j] < n && current[j] !in d
    {
      assert current[j] in current && Ready(g, n, done, current[j]);
    }
    forall q | |next| <= q < |next'|
      ensures Finishes(g, current, i, next'[q])
    {
      assert next'[q] in next';
      LastToFinish(g, n, d, current, i, next'[q]);
    }
  }

  lemma OrderedMore(g: Graph, levels: seq<seq<nat>>, current: seq<nat>, next: seq<nat>)
    requires LevelsOrdered(g, levels + [current]) && Released(g, current, next)
    ensures LevelsOrdered(g, levels + [current] + [next])
  {
    var all, all' := levels + [current], levels + [current] + [next];
    forall l | 0 <= l < |all'| - 1
      ensures Released(g, all'[l], all'[l + 1])
    {
      if l < |levels| {
        assert all'[l] == all[l] && all'[l + 1] == all[l + 1];
      }
    }
  }

  lemma OrderedLess(g: Graph, levels: seq<seq<nat>>, current: seq<nat>)
    requires LevelsOrdered(g, levels + [current])
    ensures LevelsOrdered(g, levels)
  {
    var all := levels + [current];
    forall l | 0 <= l < |levels| - 1
      ensures Released(g, levels[l], levels[l + 1])
    {
      assert all[l] == levels[l] && all[l + 1] == levels[l + 1];
    }
    assert levels != [] ==> all[0] == levels[0];
  }

  /** Runs one level: afterwards `next` lists exactly the nodes that became ready. */
  method RunLevel(ghost g: Graph, n: nat, ghost done: set<nat>, dependents: seq<seq<nat>>,
                  current: seq<nat>, inDegree: seq<nat>)
      returns (inDegree': seq<nat>, next: seq<nat>)
    requires IsAdjacency(g, n, dependents) && Closed(g, done)
    requires CountsWaiting(g, n, done, inDegree)
    requires NoDuplicates(current)
    requires forall v: nat :: v in current <==> Ready(g, n, done, v)
    ensures CountsWaiting(g, n, done + Elements(current), inDegree')
    ensures NoDuplicates(next)
    ensures forall v: nat :: v in next <==> Ready(g, n, done + Elements(current), v)
    ensures Released(g, current, next)
  {
    inDegree', next := inDegree, [];
    ghost var steps: seq<nat> := [];
    ghost var d: set<nat> := done;
    for i := 0 to |current|
      invariant d == done + Elements(current[..i])
      invariant CountsWaiting(g, n, d, inDegree')
      invariant IsNext(g, n, d, current, next)
      invariant ReleasedAt(g, current, next, steps) && forall q | 0 <= q < |steps| :: steps[q] < i
    {
      var u := current[i];
      assert u in current && Ready(g, n, done, u) && u !in current[..i];
      ghost var before := next;
      inDegree', next := FinishOne(g, n, done, current, d, u, dependents[u], inDegree', next);
      d := d + {u};
      assert current[..i + 1] == current[..i] + [u];
      StepReleases(g, n, done, d, current, before, next, i);
      steps := ReleasedMore(g, current, before, steps, next, i);
    }
    assert current[..|current|] == current;
  }

  /** Between two levels: the levels so far are a layering of the done nodes, and `current`
      lists the nodes that are ready. */
  ghost predicate Progress(g: Graph, n: nat, done: set<nat>, levels: seq<seq<nat>>, current: seq<nat>) {
    && done == NodesOf(levels) && done <= Below(n) && Closed(g, done)
    && Layered(g, levels)
    && (forall i | 0 <= i < |levels| :: NoDuplicates(levels[i]) && levels[i] != [])
    && NoDuplicates(current) && (forall v: nat :: v in current <==> Ready(g, n, done, v))
    && (levels != [] ==> forall v | v in current :: HasPredecessorIn(g, Elements(levels[|levels| - 1]), v))
  }

  lemma LevelPlaced(g: Graph, n: nat, done: set<nat>, levels: seq<seq<nat>>, current: seq<nat>, next: seq<nat>)
    requires Progress(g, n, done, levels, current) && current != []
    requires forall e | e in g :: e.0 < n
    requires NoDuplicates(next) && forall v: nat :: v in next <==> Ready(g, n, done + Elements(current), v)
    ensures Progress(g, n, done + Elements(current), levels + [current], next)
    ensures |done + Elements(current)| == |done| + |current| <= n
  {
    LevelDone(g, n, done, current);
    LayeredSnoc(g, levels, current);
    forall v | v in next ensures HasPredecessorIn(g, Elements(current), v) {
      BecameReady(g, n, done, Elements(current), v);
    }
  }

  /** Kahn's algorithm by levels: the levels found are a layering, and what is left over is
      stuck. */
  method KahnLevels(ghost g: Graph, n: nat, dependents: seq<seq<nat>>, inDegree0: seq<nat>)
      returns (levels: seq<seq<nat>>, visited: nat)
    requires IsAdjacency(g, n, dependents)
    requires CountsWaiting(g, n, {}, inDegree0)
    ensures visited == n <==> !Cyclic(g)
    ensures visited == n ==> IsLevelling(g, n, levels)
    ensures LevelsOrdered(g, levels)
  {
    var inDegree := inDegree0;
    levels, visited := [], 0;
    var current: seq<nat> := [];
    for i := 0 to n
      invariant NoDuplicates(current)
      invariant forall v: nat :: v in current <==> v < i && inDegree[v] == 0
      invariant forall a, b | 0 <= a < b < |current| :: current[a] < current[b]
      invariant forall a | 0 <= a < |current| :: current[a] < i
    {
      if inDegree[i] == 0 {
        current := current + [i];
      }
    }
    ghost var done: set<nat> := {};
    while current != []
      invariant Progress(g, n, done, levels, current)
      invariant visited == |done| <= n
      invariant CountsWaiting(g, n, done, inDegree)
      invariant LevelsOrdered(g, levels + [current])
      decreases n - visited
    {
      visited := visited + |current|;
      var next;
      inDegree, next := RunLevel(g, n, done, dependents, current, inDegree);
      LevelPlaced(g, n, done, levels, current, next);
      OrderedMore(g, levels, current, next);
      levels, done, current := levels + [current], done + Elements(current), next;
    }
    OrderedLess(g, levels, current);
    AllReleased(g, n, done, levels);
  }

  lemma CountElements(s: seq<nat>)
    requires NoDuplicates(s)
    ensures |Elements(s)| == |s|
  {
    if s != [] {
      var k := |s| - 1;
      assert s == s[..k] + [s[k]];
      CountElements(s[..k]);
      assert Elements(s) == Elements(s[..k]) + {s[k]};
    }
  }

  lemma BoundedCount(s: set<nat>, n: nat)
    requires forall v | v in s :: v < n
    ensures |s| <= n
    ensures |s| == n ==> s == Below(n)
    decreases n
  {
    if n > 0 {
      BoundedCount(s - {n - 1}, n - 1);
    }
  }

  lemma LevelDone(g: Graph, n: nat, done: set<nat>, current: seq<nat>)
    requires NoDuplicates(current) && current != []
    requires forall v | v in done :: v < n
    requires forall e | e in g :: e.0 < n
    requires forall v | v in current :: Ready(g, n, done, v)
    requires Closed(g, done)
    ensures |done + Elements(current)| == |done| + |current| <= n
    ensures forall e | e in g && e.1 in done + Elements(current) :: e.0 in done
  {
    CountElements(current);
    assert done !! Elements(current);
    BoundedCount(done + Elements(current), n);
    forall e | e in g && e.1 in current ensures e.0 in done {
      assert Ready(g, n, done, e.1);
      assert e.0 !in Waiting(g, n, done, e.1);
    }
  }

  lemma BecameReady(g: Graph, n: nat, done: set<nat>, level: set<nat>, v: nat)
    requires Ready(g, n, done + level, v) && !Ready(g, n, done, v)
    ensures HasPredecessorIn(g, level, v)
  {
    var u :| u in Waiting(g, n, done, v);
    assert u !in Waiting(g, n, done + level, v);
  }

  /** When no node is ready, either every node is done or the rest contains a cycle. */
  lemma AllReleased(g: Graph, n: nat, done: set<nat>, levels: seq<seq<nat>>)
    requires Progress(g, n, done, levels, [])
    requires forall e | e in g :: e.0 < n && e.1 < n
    ensures |done| == n <==> !Cyclic(g)
    ensures |done| == n ==> IsLevelling(g, n, levels)
  {
    BoundedCount(done, n);
    if |done| == n {
      LayeredIsAcyclic(g, levels);
      LayeringIsLevelling(g, n, levels);
    } else {
      var rest := Below(n) - done;
      assert rest != {} by {
        assert done <= Below(n) && |done| < |Below(n)|;
      }
      forall v | v in rest ensures HasPredecessorIn(g, rest, v) {
        assert !Ready(g, n, done, v);
        var u :| u in Waiting(g, n, done, v);
      }
      StuckIsCyclic(g, rest);
    }
  }

  // ---- the graph object ----

  /** What `connect` answers for these nodes. */
  function CheckEdge(nodes: seq<Entry>, e: Edge): (r: Result<(), Error>)
    ensures r.Ok? ==> HasName(nodes, e.fromNode) && HasName(nodes, e.toNode)
  {
    var from := FindNode(nodes, e.fromNode);
    if from.None? then Err(NodeNotFound(e.fromNode)) else
    var to := FindNode(nodes, e.toNode);
    if to.None? then Err(NodeNotFound(e.toNode)) else
    var fromType := FindPort(from.value.outputs, e.fromPort);
    if fromType.None? then Err(NoOutputPort(e.fromNode, e.fromPort)) else
    var toType := FindPort(to.value.inputs, e.toPort);
    if toType.None? then Err(NoInputPort(e.toNode, e.toPort)) else
    if !fromType.value.CompatibleWith(toType.value) then Err(PortTypeMismatch(e)) else Ok(())
  }

  ghost predicate HasPort(ports: seq<PortDef>, name: string) {
    exists p | p in ports :: p.name == name
  }

  /** What `connect` answers, from the first nodes and ports of these names, in the order it checks. */
  lemma EdgeAnswers(nodes: seq<Entry>, e: Edge)
    ensures !HasName(nodes, e.fromNode) ==> CheckEdge(nodes, e) == Err(NodeNotFound(e.fromNode))
    ensures HasName(nodes, e.fromNode) && !HasName(nodes, e.toNode) ==>
              CheckEdge(nodes, e) == Err(NodeNotFound(e.toNode))
  {
  }

  lemma PortAnswers(nodes: seq<Entry>, e: Edge, i: nat, j: nat)
    requires FirstNamed(nodes, i, e.fromNode) && FirstNamed(nodes, j, e.toNode)
    ensures !HasPort(nodes[i].node.outputs, e.fromPort) ==>
              CheckEdge(nodes, e) == Err(NoOutputPort(e.fromNode, e.fromPort))
    ensures HasPort(nodes[i].node.outputs, e.fromPort) && !HasPort(nodes[j].node.inputs, e.toPort) ==>
              CheckEdge(nodes, e) == Err(NoInputPort(e.toNode, e.toPort))
  {
    FindsFirst(nodes, i, e.fromNode);
    FindsFirst(nodes, j, e.toNode);
  }

  /** With both ports there, the edge is made exactly if the types are equal or one of them is `Any`. */
  lemma TypeAnswers(nodes: seq<Entry>, e: Edge, i: nat, j: nat, p: nat, q: nat)
    requires FirstNamed(nodes, i, e.fromNode) && FirstNamed(nodes, j, e.toNode)
    requires FirstPort(nodes[i].node.outputs, p, e.fromPort) && FirstPort(nodes[j].node.inputs, q, e.toPort)
    ensures var a, b := nodes[i].node.outputs[p].portType, nodes[j].node.inputs[q].portType;
            CheckEdge(nodes, e) == if a == b || a.Any? || b.Any? then Ok(()) else Err(PortTypeMismatch(e))
  {
    FindsFirst(nodes, i, e.fromNode);
    FindsFirst(nodes, j, e.toNode);
    FindsFirstPort(nodes[i].node.outputs, p, e.fromPort);
    FindsFirstPort(nodes[j].node.inputs, q, e.toPort);
  }

  function ChainEdges(names: seq<string>): (r: seq<Edge>)
    ensures |r| == if names == [] then 0 else |names| - 1
    ensures forall i | 0 <= i < |r| :: r[i] == Edge(names[i], "done", names[i + 1], "trigger")
  {
    if names == [] then []
    else seq(|names| - 1, i requires 0 <= i < |names| - 1 => Edge(names[i], "done", names[i + 1], "trigger"))
  }

  /** Every required input port of the node has an incoming edge. */
  ghost predicate InputsConnected(entry: Entry, edges: seq<Edge>) {
    forall p | p in entry.node.inputs && p.required ::
      exists e | e in edges :: e.toNode == entry.name && e.toPort == p.name
  }

  class Dag {
    var nodes: seq<Entry>
    var edges: seq<Edge>

    /** Edges connect nodes that exist; every operation keeps this. */
    ghost predicate Valid()
      reads this
    {
      Resolved(nodes, edges)
    }

    ghost function Graph(): Graph
      reads this
    {
      GraphOf(nodes, edges)
    }

    constructor ()
      ensures nodes == [] && edges == [] && Valid()
    {
      nodes, edges := [], [];
    }

    method AddNode(name: string, node: Node)
      requires Valid()
      modifies this
      ensures nodes == old(nodes) + [Entry(name, node)] && edges == old(edges)
      ensures Valid()
    {
      MoreNodes(nodes, edges, Entry(name, node));
      nodes := nodes + [Entry(name, node)];
    }

    method Connect(fromNode: string, fromPort: string, toNode: string, toPort: string)
        returns (r: Result<(), Error>)
      requires Valid()
      modifies this
      ensures Valid() && nodes == old(nodes)
      ensures r == CheckEdge(nodes, Edge(fromNode, fromPort, toNode, toPort))
      ensures edges == if r.Ok? then old(edges) + [Edge(fromNode, fromPort, toNode, toPort)] else old(edges)
    {
      var from := FindNode(nodes, fromNode);
      if from.None? {
        return Err(NodeNotFound(fromNode));
      }
      var to := FindNode(nodes, toNode);
      if to.None? {
        return Err(NodeNotFound(toNode));
      }
      var fromType := FindPort(from.value.outputs, fromPort);
      if fromType.None? {
        return Err(NoOutputPort(fromNode, fromPort));
      }
      var toType := FindPort(to.value.inputs, toPort);
      if toType.None? {
        return Err(NoInputPort(toNode, toPort));
      }
      if !fromType.value.CompatibleWith(toType.value) {
        return Err(PortTypeMismatch(Edge(fromNode, fromPort, toNode, toPort)));
      }
      edges := edges + [Edge(fromNode, fromPort, toNode, toPort)];
      return Ok(());
    }

    /** Connects consecutive names through their trigger ports, stopping at the first failure:
        the edges made before it stay. */
    method Chain(names: seq<string>) returns (r: Result<(), Error>)
      requires Valid()
      modifies this
      ensures Valid() && nodes == old(nodes)
      ensures r.Ok? ==> edges == old(edges) + ChainEdges(names)
      ensures r.Err? ==> exists k | 0 <= k < |ChainEdges(names)| ::
                edges == old(edges) + ChainEdges(names)[..k] && r == CheckEdge(nodes, ChainEdges(names)[k])
    {
      ghost var all := ChainEdges(names);
      var i := 0;
      while i + 1 < |names|
        invariant Valid() && nodes == old(nodes)
        invariant i <= |all| && edges == old(edges) + all[..i]
      {
        r := Connect(names[i], "done", names[i + 1], "trigger");
        if r.Err? {
          assert r == CheckEdge(nodes, all[i]);
          return;
        }
        assert all[..i + 1] == all[..i] + [all[i]];
        i := i + 1;
      }
      assert all[..i] == all;
      return Ok(());
    }

    /** The topological sort is exact: it fails on the cyclic graphs and only on those, and
        otherwise lists every node at its longest-walk level. */
    method TopologicalLevels() returns (r: Result<seq<seq<nat>>, Error>)
      ensures nodes == [] ==> r == Ok([])
      ensures nodes != [] && !Valid() ==> r.Err? && r.error.UnknownNode? && !HasName(nodes, r.error.name)
      ensures Valid() ==> (r.Err? <==> Cyclic(Graph()))
      ensures Valid() && r.Err? ==> r.error == CycleDetected
      ensures Valid() && r.Ok? ==> IsLevelling(Graph(), |nodes|, r.value) && LevelsOrdered(Graph(), r.value)
    {
      if |nodes| == 0 {
        if Valid() {
          GraphInRange(nodes, edges);
          LayeredIsAcyclic(Graph(), []);
        }
        return Ok([]);
      }
      var unknown, inDegree, dependents := BuildAdjacency(nodes, edges);
      if unknown.Some? {
        return Err(UnknownNode(unknown.value));
      }
      var levels, visited := KahnLevels(Graph(), |nodes|, dependents, inDegree);
      return if visited != |nodes| then Err(CycleDetected) else Ok(levels);
    }

    /** A valid graph has no cycle and all its required inputs are connected. */
    method Validate() returns (r: Result<(), Error>)
      requires Valid()
      ensures r.Ok? <==> !Cyclic(Graph()) && forall e | e in nodes :: InputsConnected(e, edges)
      ensures Cyclic(Graph()) ==> r == Err(CycleDetected)
      ensures r.Err? && !Cyclic(Graph()) ==>
                && r.error.RequiredInputNotConnected?
                && (exists e, p | e in nodes && p in e.node.inputs ::
                      p.required && e.name == r.error.node && p.name == r.error.port)
                && !exists e | e in edges :: e.toNode == r.error.node && e.toPort == r.error.port
    {
      var levels := TopologicalLevels();
      if levels.Err? {
        return Err(levels.error);
      }
      var incoming := set e | e in edges :: (e.toNode, e.toPort);
      for i := 0 to |nodes|
        invariant forall k | 0 <= k < i :: InputsConnected(nodes[k], edges)
      {
        var entry := nodes[i];
        for j := 0 to |entry.node.inputs|
          invariant InputsConnected(entry.(node := entry.node.(inputs := entry.node.inputs[..j])), edges)
        {
          var p := entry.node.inputs[j];
          if p.required && (entry.name, p.name) !in incoming {
            assert entry in nodes && p in entry.node.inputs && !InputsConnected(entry, edges);
            return Err(RequiredInputNotConnected(entry.name, p.name));
          }
        }
      }
      return Ok(());
    }
  }

  lemma MoreNodes(nodes: seq<Entry>, edges: seq<Edge>, entry: Entry)
    requires Resolved(nodes, edges)
    ensures Resolved(nodes + [entry], edges)
  {
    forall name | HasName(nodes, name) ensures HasName(nodes + [entry], name) {
      var i :| 0 <= i < |nodes| && nodes[i].name == name;
      assert (nodes + [entry])[i].name == name;
    }
  }
}
