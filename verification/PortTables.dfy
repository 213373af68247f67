/**
 * The table of port values an execution passes between nodes (luciole/src/runtime.rs): a value is
 * dropped as soon as its last consumer has read it.
 */
module PortTables {
  import opened Results
  import opened Dags
  import opened Dataflow

  // ---- counting consumers ----

  /** Edges from `k` to nodes that have not run. */
  ghost function Remaining(edges: seq<Edge>, k: Key, done: set<string>): nat {
    if edges == [] then 0
    else
      var e := edges[|edges| - 1];
      Remaining(edges[..|edges| - 1], k, done) + if Source(e) == k && e.toNode !in done then 1 else 0
  }

  ghost function EdgesTo(edges: seq<Edge>, k: Key, name: string): nat {
    if edges == [] then 0
    else
      var e := edges[|edges| - 1];
      EdgesTo(edges[..|edges| - 1], k, name) + if Source(e) == k && e.toNode == name then 1 else 0
  }

  lemma {:induction false} RemainingAfter(edges: seq<Edge>, k: Key, done: set<string>, name: string)
    requires name !in done
    ensures Remaining(edges, k, done) == Remaining(edges, k, done + {name}) + EdgesTo(edges, k, name)
  {
    if edges != [] {
      RemainingAfter(edges[..|edges| - 1], k, done, name);
    }
  }

  lemma {:induction false} RemainingPositive(edges: seq<Edge>, k: Key, done: set<string>)
    ensures Remaining(edges, k, done) > 0 <==> exists e :: e in edges && Source(e) == k && e.toNode !in done
  {
    if edges != [] {
      var init, last := edges[..|edges| - 1], edges[|edges| - 1];
      RemainingPositive(init, k, done);
      assert last in edges && forall e | e in init :: e in edges;
    }
  }

  lemma {:induction false} EdgesToPrefix(edges: seq<Edge>, k: Key, name: string, i: nat)
    requires i < |edges| && Source(edges[i]) == k && edges[i].toNode == name
    ensures EdgesTo(edges[..i], k, name) + 1 <= EdgesTo(edges, k, name)
  {
    var init := edges[..|edges| - 1];
    if i < |edges| - 1 {
      EdgesToPrefix(init, k, name, i);
      assert init[..i] == edges[..i];
    }
  }

  method ConsumerCounts(edges: seq<Edge>) returns (counts: map<Key, nat>)
    ensures forall k :: k in counts <==> exists e :: e in edges && Source(e) == k
    ensures forall k | k in counts :: counts[k] == Remaining(edges, k, {})
  {
    counts := map[];
    for i := 0 to |edges|
      invariant forall k :: k in counts <==> Remaining(edges[..i], k, {}) > 0
      invariant forall k | k in counts :: counts[k] == Remaining(edges[..i], k, {})
    {
      assert edges[..i + 1][..i] == edges[..i];
      var key := Source(edges[i]);
      var count := if key in counts then counts[key] else 0;
      counts := counts[key := count + 1];
    }
    assert edges[..|edges|] == edges;
    forall k ensures Remaining(edges, k, {}) > 0 <==> exists e :: e in edges && Source(e) == k {
      RemainingPositive(edges, k, {});
    }
  }

  // ---- collecting inputs ----

  ghost predicate DirectTaken<V>(name: string, edges: seq<Edge>, data: map<Key, V>, taken: set<Key>,
                                 inputs: map<string, V>, data': map<Key, V>) {
    && (forall p :: p in inputs <==> (name, p) in taken && !HasEdgeInto(edges, (name, p)))
    && (forall p | p in inputs :: (name, p) in data && inputs[p] == data[(name, p)])
    && (forall k :: Lookup(data', k) == if k in taken && !HasEdgeInto(edges, k) then None else Lookup(data, k))
  }

  method TakeKey<V>(name: string, edges: seq<Edge>, port: string, inputs: map<string, V>, data: map<Key, V>,
                    ghost before: map<Key, V>, ghost taken: set<Key>)
      returns (inputs': map<string, V>, data': map<Key, V>)
    requires DirectTaken(name, edges, before, taken, inputs, data) && (name, port) in before && (name, port) !in taken
    ensures DirectTaken(name, edges, before, taken + {(name, port)}, inputs', data')
  {
    inputs', data' := inputs, data;
    assert Lookup(data, (name, port)) == Some(before[(name, port)]);
    if !HasEdgeInto(edges, (name, port)) {
      inputs' := inputs[port := data[(name, port)]];
      data' := data - {(name, port)};
    }
  }

  lemma AllTaken<V>(name: string, edges: seq<Edge>, data: map<Key, V>, taken: set<Key>,
                    inputs: map<string, V>, data': map<Key, V>)
    requires DirectTaken(name, edges, data, taken, inputs, data')
    requires forall k :: k in taken <==> k in data && k.0 == name
    ensures inputs == Direct(edges, name, data)
    ensures forall k :: Lookup(data', k) == if IsDirect(edges, name, k) then None else Lookup(data, k)
  {
    var direct := Direct(edges, name, data);
    forall p ensures p in inputs <==> p in direct {
      assert (name, p).1 == p;
      if p in direct {
        var k :| k in data && IsDirect(edges, name, k) && k.1 == p;
        assert k == (name, p);
      }
      if p in inputs {
        assert IsDirect(edges, name, (name, p));
      }
    }
  }

  /** Takes the preset values of `name` that no edge feeds. */
  method TakeDirect<V>(name: string, edges: seq<Edge>, data: map<Key, V>)
      returns (inputs: map<string, V>, data': map<Key, V>)
    ensures inputs == Direct(edges, name, data)
    ensures forall k :: Lookup(data', k) == if IsDirect(edges, name, k) then None else Lookup(data, k)
  {
    inputs, data' := map[], data;
    var keys := set k | k in data && k.0 == name;
    ghost var taken: set<Key> := {};
    while keys != {}
      invariant keys !! taken && forall k :: k in keys + taken <==> k in data && k.0 == name
      invariant DirectTaken(name, edges, data, taken, inputs, data')
      decreases |keys|
    {
      var key :| key in keys;
      assert key == (name, key.1);
      inputs, data' := TakeKey(name, edges, key.1, inputs, data', data, taken);
      keys, taken := keys - {key}, taken + {key};
    }
    AllTaken(name, edges, data, taken, inputs, data');
  }

  /** What reading turns the table into: a value is gone once its count has dropped to zero. */
  ghost predicate Read<V>(data: map<Key, V>, counts: map<Key, nat>, data': map<Key, V>, counts': map<Key, nat>) {
    && counts'.Keys == counts.Keys
    && forall k :: Lookup(data', k) == if k in counts && counts[k] > 0 && counts'[k] == 0 then None else Lookup(data, k)
  }

  ghost predicate Enough(counts: map<Key, nat>, edges: seq<Edge>, name: string) {
    forall k :: EdgesTo(edges, k, name) > 0 ==> k in counts && EdgesTo(edges, k, name) <= counts[k]
  }

  ghost predicate Reduced(counts: map<Key, nat>, edges: seq<Edge>, name: string, counts': map<Key, nat>) {
    counts'.Keys == counts.Keys && forall k | k in counts :: counts'[k] == counts[k] - EdgesTo(edges, k, name)
  }

  lemma CountsOne(counts: map<Key, nat>, edges: seq<Edge>, name: string, counts': map<Key, nat>, i: nat)
    requires Enough(counts, edges, name) && i < |edges| && edges[i].toNode == name
    requires Reduced(counts, edges[..i], name, counts')
    ensures Source(edges[i]) in counts' && counts'[Source(edges[i])] > 0
    ensures Reduced(counts, edges[..i + 1], name, counts'[Source(edges[i]) := counts'[Source(edges[i])] - 1])
  {
    EdgesToPrefix(edges, Source(edges[i]), name, i);
    assert edges[..i + 1][..i] == edges[..i];
  }

  lemma CountsSame(counts: map<Key, nat>, edges: seq<Edge>, name: string, counts': map<Key, nat>, i: nat)
    requires i < |edges| && edges[i].toNode != name && Reduced(counts, edges[..i], name, counts')
    ensures Reduced(counts, edges[..i + 1], name, counts')
  {
    assert edges[..i + 1][..i] == edges[..i];
  }

  lemma FedNext<V>(edges: seq<Edge>, name: string, base: map<string, V>, data: map<Key, V>, i: nat)
    requires i < |edges|
    ensures var inputs, e := Fed(edges[..i], name, base, k => Lookup(data, k)), edges[i];
            Fed(edges[..i + 1], name, base, k => Lookup(data, k)) ==
              if e.toNode == name && Source(e) in data then inputs[e.toPort := data[Source(e)]] else inputs
  {
    assert edges[..i + 1][..i] == edges[..i];
  }

  /** Reads the edges into `name`; the last reader of a value takes it out of the table. */
  method ReadEdges<V>(name: string, edges: seq<Edge>, base: map<string, V>, data: map<Key, V>, counts: map<Key, nat>)
      returns (inputs: map<string, V>, data': map<Key, V>, counts': map<Key, nat>)
    requires Enough(counts, edges, name)
    ensures inputs == Fed(edges, name, base, k => Lookup(data, k))
    ensures Reduced(counts, edges, name, counts') && Read(data, counts, data', counts')
  {
    inputs, data', counts' := base, data, counts;
    for i := 0 to |edges|
      invariant inputs == Fed(edges[..i], name, base, k => Lookup(data, k))
      invariant Reduced(counts, edges[..i], name, counts') && Read(data, counts, data', counts')
    {
      FedNext(edges, name, base, data, i);
      if edges[i].toNode == name {
        CountsOne(counts, edges, name, counts', i);
        inputs, data', counts' := ReadEdge(edges[i], inputs, data', counts', data, counts);
      } else {
        CountsSame(counts, edges, name, counts', i);
      }
    }
    assert edges[..|edges|] == edges;
  }

  method ReadEdge<V>(edge: Edge, inputs: map<string, V>, data: map<Key, V>, counts: map<Key, nat>,
                     ghost before: map<Key, V>, ghost countsBefore: map<Key, nat>)
      returns (inputs': map<string, V>, data': map<Key, V>, counts': map<Key, nat>)
    requires Read(before, countsBefore, data, counts)
    requires Source(edge) in counts && 0 < counts[Source(edge)] <= countsBefore[Source(edge)]
    ensures inputs' == if Source(edge) in before then inputs[edge.toPort := before[Source(edge)]] else inputs
    ensures counts' == counts[Source(edge) := counts[Source(edge)] - 1] && Read(before, countsBefore, data', counts')
  {
    var key := Source(edge);
    inputs', data', counts' := inputs, data, counts[key := counts[key] - 1];
    assert Lookup(data, key) == Lookup(before, key);
    if counts'[key] == 0 {
      if key in data {
        inputs' := inputs[edge.toPort := data[key]];
        data' := data - {key};
      }
    } else if key in data {
      inputs' := inputs[edge.toPort := data[key]];
    }
  }

  /** The values seen by `name` after it has taken its preset inputs. */
  ghost function Visible<V>(edges: seq<Edge>, name: string, data: map<Key, V>, k: Key): Option<V> {
    if IsDirect(edges, name, k) then None else Lookup(data, k)
  }

  ghost predicate CollectedAt<V>(edges: seq<Edge>, name: string, data: map<Key, V>, counts: map<Key, nat>,
                                 data': map<Key, V>, counts': map<Key, nat>, k: Key) {
    && (k in counts' <==> k in counts)
    && (k in counts ==> counts'[k] == counts[k] - EdgesTo(edges, k, name))
    && Lookup(data', k) == if k in counts && counts[k] > 0 && counts'[k] == 0 then None
                           else Visible(edges, name, data, k)
  }

  ghost predicate Collected<V>(edges: seq<Edge>, name: string, data: map<Key, V>, counts: map<Key, nat>,
                               data': map<Key, V>, counts': map<Key, nat>) {
    forall k :: CollectedAt(edges, name, data, counts, data', counts', k)
  }

  method CollectInputs<V>(name: string, edges: seq<Edge>, data: map<Key, V>, counts: map<Key, nat>)
      returns (inputs: map<string, V>, data': map<Key, V>, counts': map<Key, nat>)
    requires Enough(counts, edges, name)
    ensures inputs == Fed(edges, name, Direct(edges, name, data), k => Visible(edges, name, data, k))
    ensures Collected(edges, name, data, counts, data', counts')
  {
    var direct, rest := TakeDirect(name, edges, data);
    inputs, data', counts' := ReadEdges(name, edges, direct, rest, counts);
    FedSame(edges, name, direct, k => Lookup(rest, k), k => Visible(edges, name, data, k));
  }

  // ---- the table during a run ----

  /** The value to expect at a key: the nodes in `read` have taken their inputs, those in `outs`
      have also published their outputs. */
  ghost function Shown<V>(edges: seq<Edge>, initial: map<Key, V>, read: set<string>, outs: map<string, map<string, V>>,
                          k: Key): Option<V> {
    if k.0 in outs && k.1 in outs[k.0] then Some(outs[k.0][k.1])
    else if k.0 in read && !HasEdgeInto(edges, k) then None
    else Lookup(initial, k)
  }

  ghost predicate TableAt<V>(edges: seq<Edge>, initial: map<Key, V>, read: set<string>,
                             outs: map<string, map<string, V>>, data: map<Key, V>, counts: map<Key, nat>, k: Key) {
    && (k in counts <==> Remaining(edges, k, {}) > 0)
    && (k in counts ==> counts[k] == Remaining(edges, k, read))
    && Lookup(data, k) == if k in counts && counts[k] == 0 then None else Shown(edges, initial, read, outs, k)
  }

  /** A value is there until its last consumer has read it. */
  ghost predicate Table<V>(edges: seq<Edge>, initial: map<Key, V>, read: set<string>, outs: map<string, map<string, V>>,
                           data: map<Key, V>, counts: map<Key, nat>) {
    forall k :: TableAt(edges, initial, read, outs, data, counts, k)
  }

  /** No consumer of `name` has read. */
  ghost predicate Unread(edges: seq<Edge>, read: set<string>, name: string) {
    forall e | e in edges && e.fromNode == name :: e.toNode !in read
  }

  lemma {:induction false} Untouched(edges: seq<Edge>, k: Key, read: set<string>)
    requires Unread(edges, read, k.0)
    ensures Remaining(edges, k, read) == Remaining(edges, k, {})
  {
    if edges != [] {
      Untouched(edges[..|edges| - 1], k, read);
    }
  }

  lemma {:induction false} RemainingShrinks(edges: seq<Edge>, k: Key, done: set<string>)
    ensures Remaining(edges, k, done) <= Remaining(edges, k, {})
  {
    if edges != [] {
      RemainingShrinks(edges[..|edges| - 1], k, done);
    }
  }

  /** The counts never run below zero. */
  lemma EnoughLeft<V>(edges: seq<Edge>, initial: map<Key, V>, read: set<string>, outs: map<string, map<string, V>>,
                      data: map<Key, V>, counts: map<Key, nat>, name: string)
    requires Table(edges, initial, read, outs, data, counts) && name !in read
    ensures Enough(counts, edges, name)
  {
    forall k | EdgesTo(edges, k, name) > 0
      ensures k in counts && EdgesTo(edges, k, name) <= counts[k]
    {
      assert TableAt(edges, initial, read, outs, data, counts, k);
      RemainingAfter(edges, k, read, name);
      RemainingShrinks(edges, k, read);
    }
  }

  lemma StillThere<V>(edges: seq<Edge>, initial: map<Key, V>, read: set<string>, outs: map<string, map<string, V>>,
                      data: map<Key, V>, counts: map<Key, nat>, k: Key)
    requires TableAt(edges, initial, read, outs, data, counts, k) && Unread(edges, read, k.0)
    ensures Lookup(data, k) == Shown(edges, initial, read, outs, k)
  {
    Untouched(edges, k, read);
  }

  lemma StillNeeded<V>(edges: seq<Edge>, initial: map<Key, V>, read: set<string>, outs: map<string, map<string, V>>,
                       data: map<Key, V>, counts: map<Key, nat>, e: Edge)
    requires TableAt(edges, initial, read, outs, data, counts, Source(e)) && e in edges && e.toNode !in read
    ensures Lookup(data, Source(e)) == Shown(edges, initial, read, outs, Source(e))
  {
    RemainingPositive(edges, Source(e), read);
  }

  lemma DirectSame<V>(edges: seq<Edge>, name: string, a: map<Key, V>, b: map<Key, V>)
    requires forall k: Key | k.0 == name :: Lookup(a, k) == Lookup(b, k)
    ensures Direct(edges, name, a) == Direct(edges, name, b)
  {
    forall k: Key | k.0 == name
      ensures k in a <==> k in b
      ensures k in a ==> a[k] == b[k]
    {
      assert Lookup(a, k) == Lookup(b, k);
    }
  }

  /** `name` has not read, nothing has read it, and its sources have published or never will. */
  ghost predicate MayRead<V>(edges: seq<Edge>, read: set<string>, outs: map<string, map<string, V>>, name: string) {
    && name !in read && name !in outs && Unread(edges, read, name)
    && forall e | e in edges && e.toNode == name :: e.fromNode != name && (e.fromNode in read ==> e.fromNode in outs)
  }

  /** The values the table shows on the edges into a node are those of the equations. */
  lemma EdgeValues<V>(edges: seq<Edge>, initial: map<Key, V>, read: set<string>, outs: map<string, map<string, V>>,
                      data: map<Key, V>, counts: map<Key, nat>, name: string)
    requires Table(edges, initial, read, outs, data, counts) && MayRead(edges, read, outs, name)
    requires forall n | n in outs :: n in read
    ensures forall e | e in edges && e.toNode == name ::
              Lookup(data, Source(e)) == Value(edges, initial, outs, Source(e))
  {
    forall e | e in edges && e.toNode == name
      ensures Lookup(data, Source(e)) == Value(edges, initial, outs, Source(e))
    {
      assert TableAt(edges, initial, read, outs, data, counts, Source(e));
      StillNeeded(edges, initial, read, outs, data, counts, e);
    }
  }

  /** Reading through the table gives a node the inputs of the dataflow equations. */
  lemma InputsRead<V>(edges: seq<Edge>, initial: map<Key, V>, read: set<string>, outs: map<string, map<string, V>>,
                      data: map<Key, V>, counts: map<Key, nat>, name: string)
    requires Table(edges, initial, read, outs, data, counts) && MayRead(edges, read, outs, name)
    requires forall n | n in outs :: n in read
    ensures Fed(edges, name, Direct(edges, name, data), k => Visible(edges, name, data, k)) ==
            Inputs(edges, initial, outs, name)
  {
    forall k: Key | k.0 == name
      ensures Lookup(data, k) == Lookup(initial, k)
    {
      assert TableAt(edges, initial, read, outs, data, counts, k);
      StillThere(edges, initial, read, outs, data, counts, k);
    }
    DirectSame(edges, name, data, initial);
    EdgeValues(edges, initial, read, outs, data, counts, name);
    FedSame(edges, name, Direct(edges, name, data),
            k => Visible(edges, name, data, k), k => Value(edges, initial, outs, k));
  }

  lemma {:induction false} NoEdges(edges: seq<Edge>, k: Key, name: string)
    requires forall e | e in edges && e.toNode == name :: Source(e) != k
    ensures EdgesTo(edges, k, name) == 0
  {
    if edges != [] {
      NoEdges(edges[..|edges| - 1], k, name);
    }
  }

  lemma OwnKey<V>(edges: seq<Edge>, initial: map<Key, V>, read: set<string>, outs: map<string, map<string, V>>,
                  data: map<Key, V>, counts: map<Key, nat>, data': map<Key, V>, counts': map<Key, nat>, k: Key)
    requires TableAt(edges, initial, read, outs, data, counts, k) && MayRead(edges, read, outs, k.0)
    requires CollectedAt(edges, k.0, data, counts, data', counts', k)
    ensures TableAt(edges, initial, read + {k.0}, outs, data', counts', k)
  {
    NoEdges(edges, k, k.0);
    RemainingAfter(edges, k, read, k.0);
    Untouched(edges, k, read);
  }

  lemma OtherKey<V>(edges: seq<Edge>, initial: map<Key, V>, read: set<string>, outs: map<string, map<string, V>>,
                    data: map<Key, V>, counts: map<Key, nat>, data': map<Key, V>, counts': map<Key, nat>,
                    name: string, k: Key)
    requires TableAt(edges, initial, read, outs, data, counts, k) && name !in read && k.0 != name
    requires CollectedAt(edges, name, data, counts, data', counts', k)
    ensures TableAt(edges, initial, read + {name}, outs, data', counts', k)
  {
    RemainingAfter(edges, k, read, name);
  }

  /** Collecting a node's inputs moves it to the nodes that have read. */
  lemma CollectStep<V>(edges: seq<Edge>, initial: map<Key, V>, read: set<string>, outs: map<string, map<string, V>>,
                       data: map<Key, V>, counts: map<Key, nat>, data': map<Key, V>, counts': map<Key, nat>,
                       name: string)
    requires Table(edges, initial, read, outs, data, counts) && MayRead(edges, read, outs, name)
    requires Collected(edges, name, data, counts, data', counts')
    ensures Table(edges, initial, read + {name}, outs, data', counts')
  {
    var read' := read + {name};
    forall k
      ensures TableAt(edges, initial, read', outs, data', counts', k)
    {
      assert TableAt(edges, initial, read, outs, data, counts, k);
      assert CollectedAt(edges, name, data, counts, data', counts', k);
      if k.0 == name {
        OwnKey(edges, initial, read, outs, data, counts, data', counts', k);
      } else {
        OtherKey(edges, initial, read, outs, data, counts, data', counts', name, k);
      }
    }
  }

  function WithOutputs<V>(data: map<Key, V>, name: string, out: map<string, V>): (data': map<Key, V>)
    ensures forall k :: Lookup(data', k) == if k.0 == name && k.1 in out then Some(out[k.1]) else Lookup(data, k)
  {
    data + map p | p in out :: (name, p) := out[p]
  }

  /** Publishing the outputs of a node that has read. */
  lemma PublishStep<V>(edges: seq<Edge>, initial: map<Key, V>, read: set<string>, outs: map<string, map<string, V>>,
                       data: map<Key, V>, counts: map<Key, nat>, name: string, out: map<string, V>)
    requires Table(edges, initial, read, outs, data, counts)
    requires name in read && name !in outs && Unread(edges, read, name)
    ensures Table(edges, initial, read, outs[name := out], WithOutputs(data, name, out), counts)
  {
    var outs', data' := outs[name := out], WithOutputs(data, name, out);
    forall k
      ensures TableAt(edges, initial, read, outs', data', counts, k)
    {
      assert TableAt(edges, initial, read, outs, data, counts, k);
      if k.0 == name {
        Untouched(edges, k, read);
      }
    }
  }
}
