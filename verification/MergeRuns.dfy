/**
 * The merge node of a fan-out at run time (luciole/src/fan_out.rs): what it collects from its
 * inputs, and where those values come from once the graph is executed.
 */
module MergeRuns {
  import opened Results
  import opened Dags
  import opened FanOut
  import opened Dataflow

  function Got<V>(m: map<string, V>, port: string): Option<V> {
    if port in m then Some(m[port]) else None
  }

  /** The items of the first `n` input ports, in port order. */
  function Items<V, T>(inputs: map<string, V>, cast: V -> Option<T>, n: nat): seq<T> {
    if n == 0 then []
    else
      var items, value := Items(inputs, cast, n - 1), Got(inputs, MergePort(n - 1));
      if value.Some? && cast(value.value).Some? then items + [cast(value.value).value] else items
  }

  /** Port `in_i` has a value of the expected type. */
  ghost predicate HasItem<V, T>(inputs: map<string, V>, cast: V -> Option<T>, i: nat) {
    "in_" + Decimal(i) in inputs && cast(inputs["in_" + Decimal(i)]).Some?
  }

  ghost predicate Increasing(s: seq<nat>) {
    forall a, b | 0 <= a < b < |s| :: s[a] < s[b]
  }

  /** The items are those of exactly the ports that have one, from the lowest port to the highest. */
  lemma {:induction false} ItemsInPortOrder<V, T>(inputs: map<string, V>, cast: V -> Option<T>, n: nat)
      returns (ports: seq<nat>)
    ensures Increasing(ports) && forall i: nat :: i in ports <==> i < n && HasItem(inputs, cast, i)
    ensures |Items(inputs, cast, n)| == |ports|
    ensures forall k | 0 <= k < |ports| ::
              && "in_" + Decimal(ports[k]) in inputs
              && cast(inputs["in_" + Decimal(ports[k])]) == Some(Items(inputs, cast, n)[k])
  {
    ports := [];
    if n > 0 {
      var before := ItemsInPortOrder(inputs, cast, n - 1);
      assert forall k | 0 <= k < |before| :: before[k] in before;
      ports := if HasItem(inputs, cast, n - 1) then before + [n - 1] else before;
    }
  }

  /** With a value on every port, item `i` is that of port `in_i`. */
  lemma {:induction false} AllItems<V, T>(inputs: map<string, V>, cast: V -> Option<T>, n: nat)
    requires forall i: nat | i < n :: HasItem(inputs, cast, i)
    ensures |Items(inputs, cast, n)| == n
    ensures forall i: nat | i < n ::
              HasItem(inputs, cast, i) && cast(inputs["in_" + Decimal(i)]) == Some(Items(inputs, cast, n)[i])
  {
    if n > 0 {
      AllItems(inputs, cast, n - 1);
      assert HasItem(inputs, cast, n - 1);
    }
  }

  class MergeNode<V, T> {
    const numInputs: nat
    var mergeFn: Option<seq<T> -> T>

    constructor (numInputs: nat, mergeFn: seq<T> -> T)
      ensures this.numInputs == numInputs && this.mergeFn == Some(mergeFn)
    {
      this.numInputs, this.mergeFn := numInputs, Some(mergeFn);
    }

    /** Merges once; the function is used up by the first execution. */
    method Execute(inputs: map<string, V>, cast: V -> Option<T>, wrap: T -> V)
        returns (r: Result<map<string, V>, string>)
      modifies this
      ensures mergeFn.None?
      ensures r == match old(mergeFn)
                   case Some(f) => Ok(map["merged" := wrap(f(Items(inputs, cast, numInputs)))])
                   case None => Err("merge function already consumed")
      ensures r.Ok? ==> r.value.Keys == {"merged"}
    {
      var taken := mergeFn;
      mergeFn := None;
      if taken.None? {
        return Err("merge function already consumed");
      }
      var items := [];
      var left := inputs;
      for i := 0 to numInputs
        invariant items == Items(inputs, cast, i)
        invariant forall j | i <= j < numInputs :: Got(left, MergePort(j)) == Got(inputs, MergePort(j))
      {
        forall j | i < j < numInputs
          ensures MergePort(j) != MergePort(i)
        {
          NamesDistinct("", i, j);
        }
        var port := MergePort(i);
        if port in left {
          var value := left[port];
          left := left - {port};
          var item := cast(value);
          if item.Some? {
            items := items + [item.value];
          }
        }
      }
      r := Ok(map["merged" := wrap(taken.value(items))]);
    }
  }

  // ---- the values that reach it ----

  /** Worker `i` put a value of the expected type on its output port. */
  ghost predicate HasOutput<V, T>(outs: map<string, map<string, V>>, prefix: string, port: string,
                                  cast: V -> Option<T>, i: nat) {
    var name := prefix + "_" + Decimal(i);
    name in outs && port in outs[name] && cast(outs[name][port]).Some?
  }

  lemma FedSnoc<V>(edges: seq<Edge>, e: Edge, base: map<string, V>, value: Key -> Option<V>)
    ensures var inputs := Fed(edges, e.toNode, base, value);
            Fed(edges + [e], e.toNode, base, value) ==
              if value(Source(e)).Some? then inputs[e.toPort := value(Source(e)).value] else inputs
  {
    assert (edges + [e])[..|edges|] == edges;
  }

  lemma {:induction false} FedByWorkers<V>(edges: seq<Edge>, prefix: string, port: string, k: nat, base: map<string, V>,
                                           value: Key -> Option<V>, i: nat)
    requires forall e | e in edges :: e.toNode != MergeName(prefix)
    ensures var inputs := Fed(edges + FanEdges(prefix, port, k), MergeName(prefix), base, value);
            var v := value((WorkerName(prefix, i), port));
            Got(inputs, MergePort(i)) == if i < k && v.Some? then v else Got(base, MergePort(i))
    decreases k
  {
    if k == 0 {
      assert edges + FanEdges(prefix, port, 0) == edges;
      FedByNone(edges, MergeName(prefix), base, value);
    } else {
      FedByWorkers(edges, prefix, port, k - 1, base, value, i);
      FanEdgesSnoc(edges, prefix, port, k - 1);
      FedSnoc(edges + FanEdges(prefix, port, k - 1), FanEdge(prefix, port, k - 1), base, value);
      NamesDistinct(prefix, i, k - 1);
    }
  }

  /** The merge port `i` receives exactly what worker `i` produced. */
  lemma PortReceives<V>(nodes: seq<Entry>, edges: seq<Edge>, prefix: string, count: nat, port: string,
                        initial: map<Key, V>, outs: map<string, map<string, V>>, i: nat)
    requires Resolved(nodes, edges) && FreshNames(nodes, prefix, count) && i < count && WorkerName(prefix, i) in outs
    ensures var all := edges + FanEdges(prefix, port, count);
            Got(Inputs(all, initial, outs, MergeName(prefix)), MergePort(i)) == Got(outs[WorkerName(prefix, i)], port)
  {
    var all, merge := edges + FanEdges(prefix, port, count), MergeName(prefix);
    var worker := (WorkerName(prefix, i), port);
    NamesDistinct(prefix, i, i);
    EdgeInto(all, worker);
    EdgeInto(all, (merge, MergePort(i)));
    assert all[|edges| + i] == FanEdge(prefix, port, i);
    FedByWorkers(edges, prefix, port, count, Direct(all, merge, initial), k => Value(all, initial, outs, k), i);
  }

  /** Executed, the merge node sees every worker's output once, from the first worker to the last. */
  lemma MergeSeesWorkers<V, T>(nodes: seq<Entry>, edges: seq<Edge>, prefix: string, count: nat, port: string,
                               initial: map<Key, V>, outs: map<string, map<string, V>>, cast: V -> Option<T>)
      returns (workers: seq<nat>)
    requires Resolved(nodes, edges) && FreshNames(nodes, prefix, count)
    requires forall i: nat | i < count :: WorkerName(prefix, i) in outs
    ensures Increasing(workers)
    ensures forall i: nat :: i in workers <==> i < count && HasOutput(outs, prefix, port, cast, i)
    ensures var inputs := Inputs(edges + FanEdges(prefix, port, count), initial, outs, prefix + "_merge");
            var items := Items(inputs, cast, count);
            && |items| == |workers|
            && forall k | 0 <= k < |workers| ::
                 && HasOutput(outs, prefix, port, cast, workers[k])
                 && cast(outs[prefix + "_" + Decimal(workers[k])][port]) == Some(items[k])
  {
    var inputs := Inputs(edges + FanEdges(prefix, port, count), initial, outs, MergeName(prefix));
    forall i: nat | i < count
      ensures Got(inputs, MergePort(i)) == Got(outs[WorkerName(prefix, i)], port)
    {
      PortReceives(nodes, edges, prefix, count, port, initial, outs, i);
    }
    workers := ItemsInPortOrder(inputs, cast, count);
    forall i: nat | i < count
      ensures HasItem(inputs, cast, i) <==> HasOutput(outs, prefix, port, cast, i)
    {
      assert Got(inputs, MergePort(i)) == Got(outs[WorkerName(prefix, i)], port);
    }
    forall k | 0 <= k < |workers|
      ensures HasOutput(outs, prefix, port, cast, workers[k])
      ensures cast(outs[prefix + "_" + Decimal(workers[k])][port]) == Some(Items(inputs, cast, count)[k])
    {
      assert workers[k] in workers;
      assert Got(inputs, MergePort(workers[k])) == Got(outs[WorkerName(prefix, workers[k])], port);
    }
  }

  /** Whatever the merge node outputs is a port it declares, of the merged type. */
  lemma OutputsDeclared<V>(nodes: seq<Entry>, prefix: string, count: nat, factory: nat -> Node, t: PortType,
                           outputs: map<string, V>)
    requires FreshNames(nodes, prefix, count) && outputs.Keys == {"merged"}
    ensures var node := FindNode(nodes + FanNodes(prefix, count, factory, t), prefix + "_merge");
            node.Some? && forall key | key in outputs :: FindPort(node.value.outputs, key) == Some(t)
  {
    MergeDeclares(nodes, prefix, count, factory, t);
  }
}
