/**
 * When the consumer counts of a graph last (luciole/src/runtime.rs): the counts are per edge and the
 * reads per node, so they fit together exactly when every edge leads to one node.
 */
module ConsumerReads {
  import opened Dags
  import opened Dataflow
  import opened PortTables

  /** The counts of a graph before anything has been read. */
  ghost predicate IsCount(counts: map<Key, nat>, edges: seq<Edge>) {
    && (forall k :: k in counts <==> Remaining(edges, k, {}) > 0)
    && forall k | k in counts :: counts[k] == Remaining(edges, k, {})
  }

  /** Nodes of these names can read one after the other without taking a count below zero. */
  ghost predicate Covered(counts: map<Key, nat>, edges: seq<Edge>, names: seq<string>)
    decreases |names|, 0
  {
    names == [] ||
    (Covered(counts, edges, names[..|names| - 1])
     && Enough(After(counts, edges, names[..|names| - 1]), edges, names[|names| - 1]))
  }

  ghost function After(counts: map<Key, nat>, edges: seq<Edge>, names: seq<string>): map<Key, nat>
    requires Covered(counts, edges, names)
    decreases |names|, 1
  {
    if names == [] then counts
    else ReadBy(After(counts, edges, names[..|names| - 1]), edges, names[|names| - 1])
  }

  ghost function ReadBy(counts: map<Key, nat>, edges: seq<Edge>, name: string): (counts': map<Key, nat>)
    requires Enough(counts, edges, name)
    ensures Reduced(counts, edges, name, counts')
  {
    map k | k in counts :: counts[k] - EdgesTo(edges, k, name)
  }

  ghost function Reads(edges: seq<Edge>, k: Key, names: seq<string>): nat {
    if names == [] then 0 else Reads(edges, k, names[..|names| - 1]) + EdgesTo(edges, k, names[|names| - 1])
  }

  /** For each edge from `k`, the number of nodes it leads to. */
  ghost function Demand(edges: seq<Edge>, k: Key, names: seq<string>): nat {
    if edges == [] then 0
    else
      var e := edges[|edges| - 1];
      Demand(edges[..|edges| - 1], k, names) + if Source(e) == k then multiset(names)[e.toNode] else 0
  }

  lemma {:induction false} DemandOne(edges: seq<Edge>, k: Key, names: seq<string>, name: string)
    ensures Demand(edges, k, names + [name]) == Demand(edges, k, names) + EdgesTo(edges, k, name)
  {
    if edges != [] {
      DemandOne(edges[..|edges| - 1], k, names, name);
    }
  }

  lemma {:induction false} DemandNone(edges: seq<Edge>, k: Key)
    ensures Demand(edges, k, []) == 0
  {
    if edges != [] {
      DemandNone(edges[..|edges| - 1], k);
    }
  }

  /** Counted by nodes or by edges, the reads are the same. */
  lemma {:induction false} ReadsAreDemand(edges: seq<Edge>, k: Key, names: seq<string>)
    ensures Reads(edges, k, names) == Demand(edges, k, names)
  {
    if names == [] {
      DemandNone(edges, k);
    } else {
      var init, last := names[..|names| - 1], names[|names| - 1];
      ReadsAreDemand(edges, k, init);
      DemandOne(edges, k, init, last);
      assert init + [last] == names;
    }
  }

  lemma {:induction false} ReadsGrow(edges: seq<Edge>, k: Key, names: seq<string>, n: nat)
    requires n <= |names|
    ensures Reads(edges, k, names[..n]) <= Reads(edges, k, names)
  {
    if n == |names| {
      assert names[..n] == names;
    } else {
      ReadsGrow(edges, k, names[..|names| - 1], n);
      assert names[..|names| - 1][..n] == names[..n];
    }
  }

  lemma {:induction false} AfterReads(counts: map<Key, nat>, edges: seq<Edge>, names: seq<string>, k: Key)
    requires Covered(counts, edges, names)
    ensures k in After(counts, edges, names) <==> k in counts
    ensures k in counts ==> After(counts, edges, names)[k] == counts[k] - Reads(edges, k, names)
  {
    if names != [] {
      AfterReads(counts, edges, names[..|names| - 1], k);
    }
  }

  lemma {:induction false} DemandOfOne(edges: seq<Edge>, k: Key, names: seq<string>)
    requires forall e | e in edges :: multiset(names)[e.toNode] == 1
    ensures Demand(edges, k, names) == Remaining(edges, k, {})
  {
    if edges != [] {
      DemandOfOne(edges[..|edges| - 1], k, names);
      assert edges[|edges| - 1] in edges;
    }
  }

  lemma {:induction false} DemandOfMore(edges: seq<Edge>, k: Key, names: seq<string>)
    requires forall e | e in edges :: multiset(names)[e.toNode] >= 1
    ensures Demand(edges, k, names) >= Remaining(edges, k, {})
    ensures (exists e :: e in edges && Source(e) == k && multiset(names)[e.toNode] > 1)
            ==> Demand(edges, k, names) > Remaining(edges, k, {})
  {
    if edges != [] {
      var init, last := edges[..|edges| - 1], edges[|edges| - 1];
      DemandOfMore(init, k, names);
      assert last in edges && forall e | e in init :: e in edges;
    }
  }

  lemma {:induction false} CoveredPrefix(counts: map<Key, nat>, edges: seq<Edge>, names: seq<string>, n: nat)
    requires IsCount(counts, edges) && n <= |names|
    requires forall k :: Reads(edges, k, names) <= Remaining(edges, k, {})
    ensures Covered(counts, edges, names[..n])
    decreases n
  {
    if n > 0 {
      CoveredPrefix(counts, edges, names, n - 1);
      var init, last := names[..n - 1], names[n - 1];
      assert names[..n][..n - 1] == init;
      forall k | EdgesTo(edges, k, last) > 0
        ensures k in After(counts, edges, init) && EdgesTo(edges, k, last) <= After(counts, edges, init)[k]
      {
        AfterReads(counts, edges, init, k);
        ReadsGrow(edges, k, names, n);
      }
    }
  }

  /**
   * In any order of nodes that includes the target of every edge, the counts last to the end if and
   * only if every edge target is the name of exactly one node.
   */
  lemma CountsLast(counts: map<Key, nat>, edges: seq<Edge>, names: seq<string>)
    requires IsCount(counts, edges) && forall e | e in edges :: e.toNode in names
    ensures Covered(counts, edges, names) <==> forall e | e in edges :: multiset(names)[e.toNode] == 1
  {
    if forall e | e in edges :: multiset(names)[e.toNode] == 1 {
      forall k
        ensures Reads(edges, k, names) <= Remaining(edges, k, {})
      {
        ReadsAreDemand(edges, k, names);
        DemandOfOne(edges, k, names);
      }
      CoveredPrefix(counts, edges, names, |names|);
      assert names[..|names|] == names;
    }
    forall e | e in edges && Covered(counts, edges, names)
      ensures multiset(names)[e.toNode] == 1
    {
      var k := Source(e);
      AfterReads(counts, edges, names, k);
      ReadsAreDemand(edges, k, names);
      DemandOfMore(edges, k, names);
      RemainingPositive(edges, k, {});
    }
  }

  /** Where every edge of a port leads to one name, the second node of that name finds nothing left. */
  lemma TwinStarves(counts: map<Key, nat>, counts': map<Key, nat>, edges: seq<Edge>, name: string, e: Edge)
    requires IsCount(counts, edges) && Reduced(counts, edges, name, counts')
    requires e in edges && e.toNode == name && forall d | d in edges && Source(d) == Source(e) :: d.toNode == name
    ensures !Enough(counts', edges, name)
  {
    var k := Source(e);
    RemainingAfter(edges, k, {}, name);
    RemainingPositive(edges, k, {});
    RemainingPositive(edges, k, {} + {name});
  }

  lemma ReducedIs<V>(counts: map<Key, nat>, edges: seq<Edge>, name: string, data: map<Key, V>, data': map<Key, V>,
                     counts': map<Key, nat>)
    requires Enough(counts, edges, name) && Collected(edges, name, data, counts, data', counts')
    ensures counts' == ReadBy(counts, edges, name)
  {
    forall k
      ensures k in counts' <==> k in counts
      ensures k in counts ==> counts'[k] == counts[k] - EdgesTo(edges, k, name)
    {
      assert CollectedAt(edges, name, data, counts, data', counts', k);
    }
  }

  /** All nodes collect their inputs, in this order: no decrement underflows and every count ends at zero. */
  method CollectAll<V>(edges: seq<Edge>, names: seq<string>, data: map<Key, V>) returns (counts: map<Key, nat>)
    requires forall e | e in edges :: multiset(names)[e.toNode] == 1
    ensures forall k | k in counts :: counts[k] == 0
  {
    var start := ConsumerCounts(edges);
    forall k
      ensures Remaining(edges, k, {}) > 0 <==> exists e :: e in edges && Source(e) == k
    {
      RemainingPositive(edges, k, {});
    }
    CountsLast(start, edges, names);
    counts := start;
    var table := data;
    for i := 0 to |names|
      invariant Covered(start, edges, names[..i]) && counts == After(start, edges, names[..i])
    {
      CoveredNext(start, edges, names, i);
      var inputs, table', counts' := CollectInputs(names[i], edges, table, counts);
      ReducedIs(counts, edges, names[i], table, table', counts');
      table, counts := table', counts';
    }
    assert names[..|names|] == names;
    forall k | k in counts
      ensures counts[k] == 0
    {
      AfterReads(start, edges, names, k);
      ReadsAreDemand(edges, k, names);
      DemandOfOne(edges, k, names);
    }
  }

  lemma {:induction false} CoveredNext(counts: map<Key, nat>, edges: seq<Edge>, names: seq<string>, i: nat)
    requires Covered(counts, edges, names) && i < |names|
    ensures Covered(counts, edges, names[..i]) && Covered(counts, edges, names[..i + 1])
    ensures Enough(After(counts, edges, names[..i]), edges, names[i])
    ensures After(counts, edges, names[..i + 1]) == ReadBy(After(counts, edges, names[..i]), edges, names[i])
  {
    var n := |names| - 1;
    assert names[..i + 1][..i] == names[..i];
    if i == n {
      assert names[..i + 1] == names;
    } else {
      CoveredNext(counts, edges, names[..n], i);
      assert names[..n][..i] == names[..i] && names[..n][..i + 1] == names[..i + 1];
    }
  }
}
