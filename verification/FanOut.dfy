/** `Dag::fan_out_merge`: parallel workers wired into one merge node. */
module FanOut {
  import opened Results
  import opened Graphs
  import opened Dags

  // ---- generated names ----

  function Digit(d: nat): (c: char)
    requires d < 10
    ensures '0' <= c <= '9'
  {
    '0' + d as char
  }

  /** How `format!` prints an unsigned number. */
  function Decimal(n: nat): (s: string)
    ensures s != [] && forall c | c in s :: '0' <= c <= '9'
  {
    if n < 10 then [Digit(n)] else Decimal(n / 10) + [Digit(n % 10)]
  }

  /** The number a string of digits spells. */
  ghost function Number(s: string): int {
    if s == [] then 0 else 10 * Number(s[..|s| - 1]) + (s[|s| - 1] as int - '0' as int)
  }

  lemma {:induction false} DecimalSpells(n: nat)
    ensures Number(Decimal(n)) == n
    ensures |Decimal(n)| > 1 ==> Decimal(n)[0] != '0'
  {
    if n >= 10 {
      DecimalSpells(n / 10);
      var s := Decimal(n);
      assert s[..|s| - 1] == Decimal(n / 10);
      if |Decimal(n / 10)| == 1 {
        assert Number(Decimal(n / 10)) == n / 10 > 0;
      }
    } else {
      assert Number([]) == 0;
    }
  }

  lemma {:induction false} DecimalInjective(m: nat, n: nat)
    requires Decimal(m) == Decimal(n)
    ensures m == n
    decreases m + n
  {
    var a, b := Decimal(m), Decimal(n);
    assert a[|a| - 1] == Digit(m % 10) && b[|b| - 1] == Digit(n % 10);
    if m >= 10 && n >= 10 {
      assert a[..|a| - 1] == Decimal(m / 10) && b[..|b| - 1] == Decimal(n / 10);
      DecimalInjective(m / 10, n / 10);
    }
  }

  function WorkerName(prefix: string, i: nat): string {
    prefix + "_" + Decimal(i)
  }

  function MergeName(prefix: string): string {
    prefix + "_merge"
  }

  function MergePort(i: nat): string {
    "in_" + Decimal(i)
  }

  lemma NamesDistinct(prefix: string, i: nat, j: nat)
    ensures WorkerName(prefix, i) == WorkerName(prefix, j) ==> i == j
    ensures MergePort(i) == MergePort(j) ==> i == j
    ensures WorkerName(prefix, i) != MergeName(prefix)
  {
    var a, b := WorkerName(prefix, i), WorkerName(prefix, j);
    assert a[|prefix| + 1..] == Decimal(i) && b[|prefix| + 1..] == Decimal(j);
    assert MergePort(i)[3..] == Decimal(i) && MergePort(j)[3..] == Decimal(j);
    if Decimal(i) == Decimal(j) {
      DecimalInjective(i, j);
    }
    assert a[|prefix| + 1] == Decimal(i)[0] && Decimal(i)[0] in Decimal(i);
    assert MergeName(prefix)[|prefix| + 1] == 'm';
  }

  // ---- the merge node ----

  function MergeInputs(count: nat, t: PortType): (r: seq<PortDef>)
    ensures |r| == count
    ensures forall i | 0 <= i < count :: r[i] == PortDef(MergePort(i), t, false)
  {
    seq(count, i requires i >= 0 => PortDef(MergePort(i), t, false))
  }

  function MergeNodeOf(count: nat, t: PortType): Node {
    Node(MergeInputs(count, t), [PortDef("merged", t, true)])
  }

  lemma {:induction false} FindPortAt(ports: seq<PortDef>, k: nat)
    requires k < |ports|
    requires forall i, j | 0 <= i < j < |ports| :: ports[i].name != ports[j].name
    ensures FindPort(ports, ports[k].name) == Some(ports[k].portType)
  {
    if k > 0 {
      FindPortAt(ports[1..], k - 1);
    }
  }

  lemma MergeHasPort(count: nat, t: PortType, i: nat)
    requires i < count
    ensures FindPort(MergeInputs(count, t), MergePort(i)) == Some(t)
  {
    var ports := MergeInputs(count, t);
    forall a, b | 0 <= a < b < |ports| ensures ports[a].name != ports[b].name {
      NamesDistinct("", a, b);
    }
    FindPortAt(ports, i);
  }

  // ---- wiring ----

  function Workers(prefix: string, count: nat, factory: nat -> Node): (r: seq<Entry>)
    ensures |r| == count
    ensures forall i | 0 <= i < count :: r[i] == Entry(WorkerName(prefix, i), factory(i))
  {
    seq(count, i requires i >= 0 => Entry(WorkerName(prefix, i), factory(i)))
  }

  function FanNodes(prefix: string, count: nat, factory: nat -> Node, t: PortType): seq<Entry> {
    Workers(prefix, count, factory) + [Entry(MergeName(prefix), MergeNodeOf(count, t))]
  }

  function FanEdge(prefix: string, port: string, i: nat): Edge {
    Edge(WorkerName(prefix, i), port, MergeName(prefix), MergePort(i))
  }

  function FanEdges(prefix: string, port: string, k: nat): (r: seq<Edge>)
    ensures |r| == k && forall i | 0 <= i < k :: r[i] == FanEdge(prefix, port, i)
  {
    seq(k, i requires i >= 0 => FanEdge(prefix, port, i))
  }

  lemma FanEdgesSnoc(edges: seq<Edge>, prefix: string, port: string, k: nat)
    ensures edges + FanEdges(prefix, port, k + 1) == edges + FanEdges(prefix, port, k) + [FanEdge(prefix, port, k)]
  {
    assert FanEdges(prefix, port, k + 1) == FanEdges(prefix, port, k) + [FanEdge(prefix, port, k)];
  }

  /** Worker `i` has the output port, with a type the merge accepts. */
  predicate WorkerFits(factory: nat -> Node, port: string, t: PortType, i: nat) {
    var p := FindPort(factory(i).outputs, port);
    p.Some? && p.value.CompatibleWith(t)
  }

  predicate AllFit(factory: nat -> Node, port: string, t: PortType, k: nat) {
    k == 0 || (AllFit(factory, port, t, k - 1) && WorkerFits(factory, port, t, k - 1))
  }

  lemma {:induction false} AllFitSpec(factory: nat -> Node, port: string, t: PortType, k: nat)
    ensures AllFit(factory, port, t, k) <==> forall i: nat | i < k :: WorkerFits(factory, port, t, i)
  {
    if k > 0 {
      AllFitSpec(factory, port, t, k - 1);
    }
  }

  ghost predicate FreshNames(nodes: seq<Entry>, prefix: string, count: nat) {
    && !HasName(nodes, MergeName(prefix))
    && forall i: nat | i < count :: !HasName(nodes, WorkerName(prefix, i))
  }

  lemma {:induction false} FindNodeSplit(a: seq<Entry>, b: seq<Entry>, name: string)
    ensures FindNode(a + b, name) == if HasName(a, name) then FindNode(a, name) else FindNode(b, name)
  {
    if a == [] {
      assert a + b == b;
    } else {
      assert (a + b)[1..] == a[1..] + b;
      FindNodeSplit(a[1..], b, name);
      if HasName(a, name) && a[0].name != name {
        var i :| 0 <= i < |a| && a[i].name == name;
        assert a[1..][i - 1].name == name;
      }
      if HasName(a[1..], name) {
        var i :| 0 <= i < |a[1..]| && a[1..][i].name == name;
        assert a[i + 1].name == name;
      }
    }
  }

  /** Appending nodes of other names does not move a known name. */
  lemma {:induction false} LastIndexKept(a: seq<Entry>, b: seq<Entry>, name: string)
    requires forall e | e in b :: e.name != name
    ensures LastIndex(a + b, name) == if LastIndex(a, name) < |a| then LastIndex(a, name) else |a + b|
  {
    if b == [] {
      assert a + b == a;
    } else {
      var k := |b| - 1;
      assert (a + b)[..|a + b| - 1] == a + b[..k];
      assert (a + b)[|a + b| - 1] == b[k] && b[k] in b;
      LastIndexKept(a, b[..k], name);
    }
  }

  lemma LastIndexAt(nodes: seq<Entry>, k: nat)
    requires k < |nodes| && forall j | k < j < |nodes| :: nodes[j].name != nodes[k].name
    ensures LastIndex(nodes, nodes[k].name) == k
  {
    LastIndexSpec(nodes, nodes[k].name);
    assert HasName(nodes, nodes[k].name);
  }

  lemma LastIndexInTail(a: seq<Entry>, b: seq<Entry>, i: nat, name: string)
    requires i < |b| && b[i].name == name
    requires forall j | i < j < |b| :: b[j].name != name
    ensures LastIndex(a + b, name) == |a| + i
  {
    var all := a + b;
    assert all[|a| + i] == b[i];
    forall j | |a| + i < j < |all| ensures all[j].name != name {
      assert all[j] == b[j - |a|];
    }
    LastIndexAt(all, |a| + i);
  }

  lemma LaterNameDiffers(prefix: string, count: nat, factory: nat -> Node, t: PortType, i: nat, j: nat)
    requires i < count && i < j <= count
    ensures FanNodes(prefix, count, factory, t)[j].name != WorkerName(prefix, i)
  {
    NamesDistinct(prefix, i, j);
  }

  lemma WorkerIndex(old': seq<Entry>, prefix: string, count: nat, factory: nat -> Node, t: PortType, i: nat)
    requires i < count
    ensures LastIndex(old' + FanNodes(prefix, count, factory, t), WorkerName(prefix, i)) == |old'| + i
  {
    var fan, name := FanNodes(prefix, count, factory, t), WorkerName(prefix, i);
    forall j | i < j < |fan| ensures fan[j].name != name {
      LaterNameDiffers(prefix, count, factory, t, i, j);
    }
    LastIndexInTail(old', fan, i, name);
  }

  lemma MergeIndex(old': seq<Entry>, prefix: string, count: nat, factory: nat -> Node, t: PortType)
    ensures LastIndex(old' + FanNodes(prefix, count, factory, t), MergeName(prefix)) == |old'| + count
  {
    LastIndexInTail(old', FanNodes(prefix, count, factory, t), count, MergeName(prefix));
  }

  lemma OldIndex(old': seq<Entry>, prefix: string, count: nat, factory: nat -> Node, t: PortType, name: string)
    requires FreshNames(old', prefix, count) && HasName(old', name)
    ensures LastIndex(old' + FanNodes(prefix, count, factory, t), name) == LastIndex(old', name)
  {
    var fan := FanNodes(prefix, count, factory, t);
    forall e | e in fan ensures e.name != name {
      var j :| 0 <= j < |fan| && fan[j] == e;
      if j < count {
        assert fan[j] == Entry(WorkerName(prefix, j), factory(j));
      }
    }
    LastIndexSpec(old', name);
    LastIndexKept(old', fan, name);
  }

  /** Wiring worker `i` succeeds exactly when its port fits. */
  lemma FanEdgeCheck(old': seq<Entry>, prefix: string, count: nat, factory: nat -> Node, t: PortType,
                     port: string, i: nat)
    requires FreshNames(old', prefix, count) && i < count
    ensures CheckEdge(old' + FanNodes(prefix, count, factory, t), FanEdge(prefix, port, i)).Ok?
            <==> WorkerFits(factory, port, t, i)
  {
    FirstWorker(old', prefix, count, factory, t, i);
    FirstMerge(old', prefix, count, factory, t);
    MergeHasPort(count, t, i);
  }

  lemma FirstMerge(old': seq<Entry>, prefix: string, count: nat, factory: nat -> Node, t: PortType)
    requires FreshNames(old', prefix, count)
    ensures FindNode(old' + FanNodes(prefix, count, factory, t), MergeName(prefix)) == Some(MergeNodeOf(count, t))
  {
    var w, m := Workers(prefix, count, factory), [Entry(MergeName(prefix), MergeNodeOf(count, t))];
    FindNodeSplit(old', w + m, MergeName(prefix));
    FindNodeSplit(w, m, MergeName(prefix));
    forall j | 0 <= j < |w| ensures w[j].name != MergeName(prefix) {
      NamesDistinct(prefix, j, j);
    }
  }

  lemma FirstWorker(old': seq<Entry>, prefix: string, count: nat, factory: nat -> Node, t: PortType, i: nat)
    requires FreshNames(old', prefix, count) && i < count
    ensures FindNode(old' + FanNodes(prefix, count, factory, t), WorkerName(prefix, i)) == Some(factory(i))
  {
    var w, m := Workers(prefix, count, factory), [Entry(MergeName(prefix), MergeNodeOf(count, t))];
    var name := WorkerName(prefix, i);
    FindNodeSplit(old', w + m, name);
    FindNodeSplit(w, m, name);
    assert w[i].name == name;
    var r := FindNode(w, name);
    var j :| 0 <= j < |w| && w[j] == Entry(name, r.value);
    NamesDistinct(prefix, i, j);
  }

  /** The merged output connects to every port of a compatible type. */
  lemma MergedConnects(old': seq<Entry>, prefix: string, count: nat, factory: nat -> Node, t: PortType,
                       sink: string, node: Node, port: string, u: PortType)
    requires FreshNames(old', prefix, count) && FindNode(old', sink) == Some(node)
    requires FindPort(node.inputs, port) == Some(u) && (t == u || t.Any? || u.Any?)
    ensures CheckEdge(old' + FanNodes(prefix, count, factory, t), Edge(prefix + "_merge", "merged", sink, port)).Ok?
  {
    FirstMerge(old', prefix, count, factory, t);
    FindNodeSplit(old', FanNodes(prefix, count, factory, t), sink);
  }

  /** The merge node under its name: one optional input per worker, and the merged output. */
  lemma MergeDeclares(old': seq<Entry>, prefix: string, count: nat, factory: nat -> Node, t: PortType)
    requires FreshNames(old', prefix, count)
    ensures var node := FindNode(old' + FanNodes(prefix, count, factory, t), prefix + "_merge");
            && node.Some? && node.value.outputs == [PortDef("merged", t, true)] && |node.value.inputs| == count
            && forall i | 0 <= i < count :: node.value.inputs[i] == PortDef("in_" + Decimal(i), t, false)
  {
    FirstMerge(old', prefix, count, factory, t);
  }

  /** Node `sink` has an input port of that name which takes values of type `t`. */
  ghost predicate Accepts(nodes: seq<Entry>, sink: string, port: string, t: PortType) {
    var node := FindNode(nodes, sink);
    && node.Some?
    && var u := FindPort(node.value.inputs, port);
    u.Some? && (t == u.value || t.Any? || u.value.Any?)
  }

  /** Workers `prefix_0` and so on, then `prefix_merge`, behind the nodes there were. */
  ghost predicate IsFan(nodes: seq<Entry>, n: nat, prefix: string, count: nat, factory: nat -> Node, t: PortType) {
    && |nodes| == n + count + 1
    && (forall i | 0 <= i < count :: nodes[n + i] == Entry(prefix + "_" + Decimal(i), factory(i)))
    && nodes[n + count].name == prefix + "_merge"
    && nodes[n + count].node.outputs == [PortDef("merged", t, true)]
    && |nodes[n + count].node.inputs| == count
    && forall i | 0 <= i < count :: nodes[n + count].node.inputs[i] == PortDef("in_" + Decimal(i), t, false)
  }

  lemma FanIsFan(old': seq<Entry>, prefix: string, count: nat, factory: nat -> Node, t: PortType)
    ensures IsFan(old' + FanNodes(prefix, count, factory, t), |old'|, prefix, count, factory, t)
  {
  }

  /** Worker `i` is wired to port `in_i`, behind the edges there were. */
  ghost predicate IsWired(edges: seq<Edge>, n: nat, prefix: string, port: string, k: nat) {
    && |edges| == n + k
    && forall i | 0 <= i < k ::
         edges[n + i] == Edge(prefix + "_" + Decimal(i), port, prefix + "_merge", "in_" + Decimal(i))
  }

  lemma FanIsWired(edges: seq<Edge>, prefix: string, port: string, k: nat)
    ensures IsWired(edges + FanEdges(prefix, port, k), |edges|, prefix, port, k)
  {
  }

  /** The merged output can be connected to every port of these nodes that takes its type. */
  ghost predicate MergedIsOpen(nodes: seq<Entry>, old': seq<Entry>, prefix: string, t: PortType) {
    forall sink, port | Accepts(old', sink, port, t) ::
      CheckEdge(nodes, Edge(prefix + "_merge", "merged", sink, port)).Ok?
  }

  lemma FanIsOpen(old': seq<Entry>, prefix: string, count: nat, factory: nat -> Node, t: PortType)
    requires FreshNames(old', prefix, count)
    ensures MergedIsOpen(old' + FanNodes(prefix, count, factory, t), old', prefix, t)
  {
    forall sink, port | Accepts(old', sink, port, t)
      ensures CheckEdge(old' + FanNodes(prefix, count, factory, t), Edge(prefix + "_merge", "merged", sink, port)).Ok?
    {
      var node := FindNode(old', sink).value;
      MergedConnects(old', prefix, count, factory, t, sink, node, port, FindPort(node.inputs, port).value);
    }
  }

  // ---- what the wiring does to the graph ----

  /** The graph with the first `k` workers wired: `n` old nodes, then the workers, then the merge. */
  ghost function FanGraph(g: Graph, n: nat, count: nat, k: nat): (r: Graph)
    ensures forall e :: e in r <==> e in g || (n <= e.0 < n + k && e.1 == n + count)
  {
    if k == 0 then g else FanGraph(g, n, count, k - 1) + {(n + k - 1, n + count)}
  }

  lemma OldGraph(old': seq<Entry>, edges: seq<Edge>, prefix: string, count: nat, factory: nat -> Node, t: PortType)
    requires FreshNames(old', prefix, count) && Resolved(old', edges)
    ensures GraphOf(old' + FanNodes(prefix, count, factory, t), edges) == GraphOf(old', edges)
  {
    var all := old' + FanNodes(prefix, count, factory, t);
    forall e | e in edges
      ensures LastIndex(all, e.fromNode) == LastIndex(old', e.fromNode)
      ensures LastIndex(all, e.toNode) == LastIndex(old', e.toNode)
    {
      OldIndex(old', prefix, count, factory, t, e.fromNode);
      OldIndex(old', prefix, count, factory, t, e.toNode);
    }
  }

  lemma FanEdgeIndexes(old': seq<Entry>, prefix: string, count: nat, factory: nat -> Node, t: PortType,
                       port: string, i: nat)
    requires i < count
    ensures var all, e := old' + FanNodes(prefix, count, factory, t), FanEdge(prefix, port, i);
            LastIndex(all, e.fromNode) == |old'| + i && LastIndex(all, e.toNode) == |old'| + count
  {
    WorkerIndex(old', prefix, count, factory, t, i);
    MergeIndex(old', prefix, count, factory, t);
  }

  lemma {:induction false} FanGraphOf(old': seq<Entry>, edges: seq<Edge>, prefix: string, count: nat,
                                      factory: nat -> Node, t: PortType, port: string, k: nat)
    requires FreshNames(old', prefix, count) && Resolved(old', edges) && k <= count
    ensures GraphOf(old' + FanNodes(prefix, count, factory, t), edges + FanEdges(prefix, port, k))
            == FanGraph(GraphOf(old', edges), |old'|, count, k)
    decreases k
  {
    var all := old' + FanNodes(prefix, count, factory, t);
    if k == 0 {
      assert edges + FanEdges(prefix, port, 0) == edges;
      OldGraph(old', edges, prefix, count, factory, t);
    } else {
      FanGraphOf(old', edges, prefix, count, factory, t, port, k - 1);
      FanEdgesSnoc(edges, prefix, port, k - 1);
      GraphSnoc(all, edges + FanEdges(prefix, port, k - 1), FanEdge(prefix, port, k - 1));
      FanEdgeIndexes(old', prefix, count, factory, t, port, k - 1);
    }
  }

  lemma {:induction false} OldWalk(g: Graph, n: nat, count: nat, k: nat, p: seq<nat>)
    requires k <= count && forall e | e in g :: e.0 < n && e.1 < n
    requires Walk(FanGraph(g, n, count, k), p) && p[|p| - 1] < n
    ensures Walk(g, p)
    decreases |p|
  {
    if |p| > 1 {
      var q := p[..|p| - 1];
      assert (p[|p| - 2], p[|p| - 1]) in FanGraph(g, n, count, k);
      OldWalk(g, n, count, k, q);
      forall i, j | 0 <= i && j == i + 1 < |p| ensures (p[i], p[j]) in g {
        if j < |q| {
          assert (q[i], q[j]) in g;
        }
      }
    }
  }

  /** Fan-out edges never close a cycle. */
  lemma FanAcyclic(g: Graph, n: nat, count: nat, k: nat)
    requires k <= count && forall e | e in g :: e.0 < n && e.1 < n
    ensures Cyclic(FanGraph(g, n, count, k)) <==> Cyclic(g)
  {
    var g' := FanGraph(g, n, count, k);
    if Cyclic(g') {
      var p :| Walk(g', p) && |p| >= 2 && p[0] == p[|p| - 1];
      assert (p[0], p[1]) in g' && (p[|p| - 2], p[|p| - 1]) in g';
      OldWalk(g, n, count, k, p);
    }
    if Cyclic(g) {
      var p :| Walk(g, p) && |p| >= 2 && p[0] == p[|p| - 1];
      assert Walk(g', p);
    }
  }

  lemma LastEdge(g: Graph, p: seq<nat>)
    requires Walk(g, p) && |p| > 1
    ensures (p[|p| - 2], p[|p| - 1]) in g
  {
  }

  lemma SourceDepth(g: Graph, v: nat)
    requires forall e | e in g :: e.1 != v
    ensures HasDepth(g, v, 0)
  {
    assert WalkTo(g, [v], v);
    forall p | WalkTo(g, p, v) ensures |p| <= 1 {
      if |p| > 1 {
        LastEdge(g, p);
      }
    }
  }

  /** Old nodes keep their level, workers start in the first one, and the merge comes right
      after them. */
  lemma FanDepths(g: Graph, n: nat, count: nat, k: nat)
    requires k <= count && forall e | e in g :: e.0 < n && e.1 < n
    ensures var g' := FanGraph(g, n, count, k);
            && (forall v: nat, d: nat | v < n :: HasDepth(g', v, d) <==> HasDepth(g, v, d))
            && (forall u: nat | n <= u < n + count :: HasDepth(g', u, 0))
            && HasDepth(g', n + count, if k > 0 then 1 else 0)
  {
    var g' := FanGraph(g, n, count, k);
    forall v: nat, p | v < n ensures WalkTo(g', p, v) <==> WalkTo(g, p, v) {
      if WalkTo(g', p, v) {
        OldWalk(g, n, count, k, p);
      }
    }
    forall u: nat | n <= u < n + count ensures HasDepth(g', u, 0) {
      SourceDepth(g', u);
    }
    if k == 0 {
      SourceDepth(g', n + count);
    } else {
      MergeDepth(g, n, count, k);
    }
  }

  lemma MergeDepth(g: Graph, n: nat, count: nat, k: nat)
    requires 0 < k <= count && forall e | e in g :: e.0 < n && e.1 < n
    ensures HasDepth(FanGraph(g, n, count, k), n + count, 1)
  {
    var g', m := FanGraph(g, n, count, k), n + count;
    assert (n, m) in g';
    assert WalkTo(g', [n, m], m);
    forall p | WalkTo(g', p, m) ensures |p| <= 2 {
      if |p| > 2 {
        var q := p[..|p| - 1];
        assert (p[|p| - 2], p[|p| - 1]) in g';
        assert WalkTo(g', q, p[|p| - 2]);
        SourceDepth(g', p[|p| - 2]);
      }
    }
  }

  /** From graph `g` on `n` nodes to `g'` with `k` of `count` workers wired: no cycle comes or
      goes, old nodes keep their level, workers are in the first level, and the merge is in the
      next one as soon as a worker is wired. */
  ghost predicate FansOut(g: Graph, g': Graph, n: nat, count: nat, k: nat) {
    && (Cyclic(g') <==> Cyclic(g))
    && (forall v: nat, d: nat | v < n :: HasDepth(g', v, d) <==> HasDepth(g, v, d))
    && (forall u: nat | n <= u < n + count :: HasDepth(g', u, 0))
    && HasDepth(g', n + count, if k > 0 then 1 else 0)
  }

  lemma WiringFansOut(old': seq<Entry>, edges: seq<Edge>, prefix: string, count: nat, factory: nat -> Node,
                      t: PortType, port: string, k: nat)
    requires FreshNames(old', prefix, count) && Resolved(old', edges) && k <= count
    ensures FansOut(GraphOf(old', edges),
                    GraphOf(old' + FanNodes(prefix, count, factory, t), edges + FanEdges(prefix, port, k)),
                    |old'|, count, k)
  {
    GraphInRange(old', edges);
    FanGraphOf(old', edges, prefix, count, factory, t, port, k);
    FanAcyclic(GraphOf(old', edges), |old'|, count, k);
    FanDepths(GraphOf(old', edges), |old'|, count, k);
  }

  // ---- the operation ----

  method AddFanNodes(dag: Dag, prefix: string, count: nat, factory: nat -> Node, mergeType: PortType)
    requires dag.Valid()
    modifies dag
    ensures dag.Valid() && dag.edges == old(dag.edges)
    ensures dag.nodes == old(dag.nodes) + FanNodes(prefix, count, factory, mergeType)
  {
    for i := 0 to count
      invariant dag.Valid() && dag.edges == old(dag.edges)
      invariant dag.nodes == old(dag.nodes) + Workers(prefix, count, factory)[..i]
    {
      dag.AddNode(WorkerName(prefix, i), factory(i));
    }
    dag.AddNode(MergeName(prefix), MergeNodeOf(count, mergeType));
  }

  method WireWorker(dag: Dag, ghost old': seq<Entry>, prefix: string, ghost count: nat, ghost factory: nat -> Node,
                    outputPort: string, ghost mergeType: PortType, i: nat)
      returns (r: Result<(), Error>)
    requires dag.Valid() && FreshNames(old', prefix, count) && i < count
    requires dag.nodes == old' + FanNodes(prefix, count, factory, mergeType)
    modifies dag
    ensures dag.Valid() && dag.nodes == old(dag.nodes)
    ensures r.Ok? <==> WorkerFits(factory, outputPort, mergeType, i)
    ensures dag.edges == if r.Ok? then old(dag.edges) + [FanEdge(prefix, outputPort, i)] else old(dag.edges)
  {
    FanEdgeCheck(old', prefix, count, factory, mergeType, outputPort, i);
    r := dag.Connect(WorkerName(prefix, i), outputPort, MergeName(prefix), MergePort(i));
  }

  method WireWorkers(dag: Dag, ghost old': seq<Entry>, prefix: string, count: nat, ghost factory: nat -> Node,
                     outputPort: string, ghost mergeType: PortType)
      returns (r: Result<string, Error>, ghost wired: nat)
    requires dag.Valid() && FreshNames(old', prefix, count)
    requires dag.nodes == old' + FanNodes(prefix, count, factory, mergeType)
    modifies dag
    ensures dag.Valid() && dag.nodes == old(dag.nodes)
    ensures wired <= count && dag.edges == old(dag.edges) + FanEdges(prefix, outputPort, wired)
    ensures AllFit(factory, outputPort, mergeType, wired)
    ensures r.Ok? ==> r.value == MergeName(prefix) && wired == count
    ensures r.Err? ==> wired < count && !WorkerFits(factory, outputPort, mergeType, wired)
  {
    wired := 0;
    for i := 0 to count
      invariant wired == i && dag.Valid() && dag.nodes == old(dag.nodes)
      invariant dag.edges == old(dag.edges) + FanEdges(prefix, outputPort, i)
      invariant AllFit(factory, outputPort, mergeType, i)
    {
      var c := WireWorker(dag, old', prefix, count, factory, outputPort, mergeType, i);
      if c.Err? {
        return Err(c.error), wired;
      }
      FanEdgesSnoc(old(dag.edges), prefix, outputPort, i);
      wired := wired + 1;
    }
    r := Ok(MergeName(prefix));
  }

  /** Adds `count` workers and a merge node, then wires them; a wiring error leaves the edges
      made so far. On fresh names the call succeeds exactly when every worker's port fits. */
  method FanOutMerge(dag: Dag, prefix: string, count: nat, factory: nat -> Node, outputPort: string,
                     mergeType: PortType)
      returns (r: Result<string, Error>, ghost wired: nat)
    requires dag.Valid() && FreshNames(dag.nodes, prefix, count)
    modifies dag
    ensures dag.Valid()
    ensures dag.nodes == old(dag.nodes) + FanNodes(prefix, count, factory, mergeType)
    ensures IsFan(dag.nodes, |old(dag.nodes)|, prefix, count, factory, mergeType)
    ensures wired <= count && dag.edges == old(dag.edges) + FanEdges(prefix, outputPort, wired)
    ensures IsWired(dag.edges, |old(dag.edges)|, prefix, outputPort, wired)
    ensures r.Ok? <==> forall i: nat | i < count :: WorkerFits(factory, outputPort, mergeType, i)
    ensures r.Ok? ==> r.value == prefix + "_merge" && wired == count
    ensures MergedIsOpen(dag.nodes, old(dag.nodes), prefix, mergeType)
    ensures r.Err? ==> wired < count && !WorkerFits(factory, outputPort, mergeType, wired)
    ensures FansOut(old(dag.Graph()), dag.Graph(), |old(dag.nodes)|, count, wired)
  {
    ghost var nodes0, edges0 := dag.nodes, dag.edges;
    AddFanNodes(dag, prefix, count, factory, mergeType);
    r, wired := WireWorkers(dag, nodes0, prefix, count, factory, outputPort, mergeType);
    FanIsFan(nodes0, prefix, count, factory, mergeType);
    FanIsWired(edges0, prefix, outputPort, wired);
    FanIsOpen(nodes0, prefix, count, factory, mergeType);
    AllFitSpec(factory, outputPort, mergeType, wired);
    WiringFansOut(nodes0, edges0, prefix, count, factory, mergeType, outputPort, wired);
  }
}
