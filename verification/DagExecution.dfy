/**
 * Executing a `Dag` level by level (luciole/src/runtime.rs), each level either node by node or as
 * parallel tasks that all read before any of them publishes.
 */
module DagExecution {
  import opened Results
  import opened Graphs
  import opened Dags
  import opened Dataflow
  import opened PortTables

  type Outs<V> = map<string, map<string, V>>

  datatype Failure = BadGraph(error: Error) | NodeFailed(name: string, reason: string)

  // ---- where a run stands ----

  /** The nodes in `done` have been dealt with, in that order. */
  ghost predicate Standing<V>(p: Plan<V>, gated: set<string>, done: seq<string>, outs: Outs<V>,
                              data: map<Key, V>, counts: map<Key, nat>) {
    && InOrder(p.edges, done) && SourcesIn(p.edges, done) && Solved(p, gated, done, outs)
    && Table(p.edges, p.initial, outs.Keys, outs, data, counts)
  }

  /** The node that failed had the inputs of the equations, and everything before it was solved. */
  ghost predicate FailedAt<V>(p: Plan<V>, gated: set<string>, done: seq<string>, outs: Outs<V>, name: string,
                              reason: string) {
    && InOrder(p.edges, done) && Solved(p, gated, done, outs) && Follows(p.edges, done, name)
    && (name in gated ==> !Idle(p, outs, name)) && p.run(name, Inputs(p.edges, p.initial, outs, name)) == Err(reason)
  }

  lemma MayReadNext<V>(edges: seq<Edge>, done: seq<string>, taken: set<string>, outs: Outs<V>, name: string)
    requires Follows(edges, done, name) && SourcesIn(edges, done) && name !in taken
    requires forall n | n in outs :: n in done
    requires forall n | n in taken :: Follows(edges, done, n)
    ensures MayRead(edges, outs.Keys + taken, outs, name)
  {
  }

  lemma InOrderSnoc(edges: seq<Edge>, done: seq<string>, name: string)
    requires InOrder(edges, done) && SourcesIn(edges, done) && Follows(edges, done, name)
    ensures InOrder(edges, done + [name]) && SourcesIn(edges, done + [name])
  {
    assert (done + [name])[..|done|] == done;
  }

  // ---- one node after the other ----

  lemma PublishedSolves<V>(p: Plan<V>, gated: set<string>, done: seq<string>, outs: Outs<V>, name: string,
                           out: map<string, V>)
    requires InOrder(p.edges, done) && SourcesIn(p.edges, done) && Solved(p, gated, done, outs)
    requires Follows(p.edges, done, name) && p.run(name, Inputs(p.edges, p.initial, outs, name)) == Ok(out)
    requires name in gated ==> !Idle(p, outs, name)
    ensures Solved(p, gated, done + [name], outs[name := out])
  {
    var outs' := outs[name := out];
    assert forall n | n in done :: SolvedAt(p, gated, outs, n);
    SolvedMore(p, gated, done, outs, outs');
    assert AgreeBefore(p.edges, name, outs, outs');
    InputsSame(p.edges, p.initial, outs, outs', name);
    IdleSame(p, outs, outs', name);
    assert SolvedAt(p, gated, outs', name);
  }

  method CollectFor<V>(name: string, p: Plan<V>, data: map<Key, V>, counts: map<Key, nat>,
                       ghost read: set<string>, ghost outs: Outs<V>)
      returns (inputs: map<string, V>, data': map<Key, V>, counts': map<Key, nat>)
    requires Table(p.edges, p.initial, read, outs, data, counts) && MayRead(p.edges, read, outs, name)
    requires forall n | n in outs :: n in read
    ensures inputs == Inputs(p.edges, p.initial, outs, name)
    ensures Table(p.edges, p.initial, read + {name}, outs, data', counts')
  {
    EnoughLeft(p.edges, p.initial, read, outs, data, counts, name);
    InputsRead(p.edges, p.initial, read, outs, data, counts, name);
    inputs, data', counts' := CollectInputs(name, p.edges, data, counts);
    CollectStep(p.edges, p.initial, read, outs, data, counts, data', counts', name);
  }

  method ExecuteNode<V>(name: string, p: Plan<V>, data: map<Key, V>, counts: map<Key, nat>,
                        ghost gated: set<string>, ghost done: seq<string>, ghost outs: Outs<V>)
      returns (r: Result<(), string>, data': map<Key, V>, counts': map<Key, nat>, ghost outs': Outs<V>)
    requires Standing(p, gated, done, outs, data, counts) && Follows(p.edges, done, name) && name !in gated
    ensures r == match p.run(name, Inputs(p.edges, p.initial, outs, name)) case Ok(_) => Ok(()) case Err(e) => Err(e)
    ensures r.Ok? ==> Standing(p, gated, done + [name], outs', data', counts')
    ensures r.Err? ==> FailedAt(p, gated, done, outs, name, r.error)
  {
    assert outs.Keys + {} == outs.Keys;
    MayReadNext(p.edges, done, {}, outs, name);
    var inputs;
    inputs, data', counts' := CollectFor(name, p, data, counts, outs.Keys, outs);
    var result := p.run(name, inputs);
    outs' := outs;
    if result.Err? {
      return Err(result.error), data', counts', outs';
    }
    PublishStep(p.edges, p.initial, outs.Keys + {name}, outs, data', counts', name, result.value);
    outs' := outs[name := result.value];
    assert outs'.Keys == outs.Keys + {name};
    data' := WithOutputs(data', name, result.value);
    PublishedSolves(p, gated, done, outs, name, result.value);
    InOrderSnoc(p.edges, done, name);
    r := Ok(());
  }

  /** A level: its nodes follow what is done, and not each other. */
  ghost predicate IsLevel(edges: seq<Edge>, done: seq<string>, names: seq<string>) {
    NoDuplicates(names) && forall name | name in names :: Follows(edges, done, name)
  }

  lemma FollowsInLevel(edges: seq<Edge>, done: seq<string>, names: seq<string>, j: nat)
    requires IsLevel(edges, done, names) && j < |names|
    ensures Follows(edges, done + names[..j], names[j])
  {
    assert names[j] in names;
  }

  method RunInline<V>(names: seq<string>, p: Plan<V>, data: map<Key, V>, counts: map<Key, nat>,
                      ghost gated: set<string>, ghost done: seq<string>, ghost outs: Outs<V>)
      returns (failure: Option<(string, string)>, data': map<Key, V>, counts': map<Key, nat>,
               ghost done': seq<string>, ghost outs': Outs<V>)
    requires Standing(p, gated, done, outs, data, counts) && IsLevel(p.edges, done, names)
    requires forall name | name in names :: name !in gated
    ensures failure.None? ==> done' == done + names && Standing(p, gated, done', outs', data', counts')
    ensures failure.Some? ==> done' + [failure.value.0] <= done + names
                              && FailedAt(p, gated, done', outs', failure.value.0, failure.value.1)
  {
    data', counts', done', outs' := data, counts, done, outs;
    for j := 0 to |names|
      invariant done' == done + names[..j] && Standing(p, gated, done', outs', data', counts')
    {
      FollowsInLevel(p.edges, done, names, j);
      assert names[j] in names;
      var r;
      ghost var before := outs';
      r, data', counts', outs' := ExecuteNode(names[j], p, data', counts', gated, done', outs');
      if r.Err? {
        return Some((names[j], r.error)), data', counts', done', before;
      }
      done' := done' + [names[j]];
      assert done' == done + names[..j + 1];
    }
    failure := None;
  }

  // ---- a level of parallel tasks ----

  method HasTrigger<V>(k: Key, edges: seq<Edge>, data: map<Key, V>) returns (r: bool)
    ensures r <==> Fires(edges, k, x => Lookup(data, x))
  {
    r := false;
    for i := 0 to |edges|
      invariant r <==> Fires(edges[..i], k, x => Lookup(data, x))
    {
      assert edges[..i + 1] == edges[..i] + [edges[i]];
      if (edges[i].toNode, edges[i].toPort) == k && Source(edges[i]) in data {
        r := true;
      }
    }
    assert edges[..|edges|] == edges;
  }

  ghost predicate HasValue<V>(edges: seq<Edge>, data: map<Key, V>, name: string, port: string) {
    exists e | e in edges :: e.toNode == name && e.toPort == port && (e.fromNode, e.fromPort) in data
  }

  lemma LacksMeans<V>(p: Plan<V>, name: string, data: map<Key, V>)
    ensures Lacks(p, name, k => Lookup(data, k)) <==>
            exists q | q in p.ports(name) ::
              q.required && q.portType == Trigger && !HasValue(p.edges, data, name, q.name)
  {
    var value := k => Lookup(data, k);
    forall port
      ensures Fires(p.edges, (name, port), value) <==> HasValue(p.edges, data, name, port)
    {
      assert forall e | e in p.edges :: value((e.fromNode, e.fromPort)).Some? <==> (e.fromNode, e.fromPort) in data;
    }
    if Lacks(p, name, value) {
      var port :| port in RequiredTriggers(p.ports(name)) && !Fires(p.edges, (name, port), value);
      var q :| q in p.ports(name) && q.required && q.portType == Trigger && q.name == port;
      assert !HasValue(p.edges, data, name, q.name);
    }
    if q :| q in p.ports(name) && q.required && q.portType == Trigger && !HasValue(p.edges, data, name, q.name) {
      assert q.name in RequiredTriggers(p.ports(name)) && !Fires(p.edges, (name, q.name), value);
    }
  }

  /** Whether a required trigger port has no edge with a value. */
  method TriggerUnsatisfied<V>(name: string, p: Plan<V>, data: map<Key, V>) returns (r: bool)
    ensures r <==> Lacks(p, name, k => Lookup(data, k))
    ensures r <==> exists q | q in p.ports(name) ::
                     q.required && q.portType == Trigger && !HasValue(p.edges, data, name, q.name)
  {
    LacksMeans(p, name, data);
    var ports := p.ports(name);
    r := false;
    for i := 0 to |ports|
      invariant r ==> Lacks(p, name, k => Lookup(data, k))
      invariant !r ==> forall port | port in RequiredTriggers(ports[..i]) ::
                         Fires(p.edges, (name, port), k => Lookup(data, k))
    {
      if ports[i].required && ports[i].portType == Trigger {
        var fires := HasTrigger((name, ports[i].name), p.edges, data);
        if !fires {
          assert ports[i] in ports && ports[i].name in RequiredTriggers(ports);
          r := true;
        }
      }
      assert ports[..i + 1] == ports[..i] + [ports[i]];
    }
    assert ports[..|ports|] == ports;
  }

  /** What a task of the level gets: nothing when it is skipped, its inputs otherwise. */
  ghost predicate SlotAt<V>(p: Plan<V>, outs: Outs<V>, name: string, slot: Option<map<string, V>>) {
    match slot
    case None => Idle(p, outs, name)
    case Some(inputs) => !Idle(p, outs, name) && inputs == Inputs(p.edges, p.initial, outs, name)
  }

  ghost predicate SlotsFit<V>(p: Plan<V>, outs: Outs<V>, names: seq<string>, slots: seq<Option<map<string, V>>>) {
    && |slots| <= |names|
    && forall j {:trigger SlotAt(p, outs, names[j], slots[j])} | 0 <= j < |slots| :: SlotAt(p, outs, names[j], slots[j])
  }

  ghost function Taken<V>(names: seq<string>, slots: seq<Option<map<string, V>>>): (taken: set<string>)
    requires |names| == |slots|
    ensures forall n | n in taken :: n in names
  {
    if names == [] then {}
    else
      var taken := Taken(names[..|names| - 1], slots[..|slots| - 1]);
      if slots[|slots| - 1].Some? then taken + {names[|names| - 1]} else taken
  }

  method TakeNext<V>(name: string, p: Plan<V>, data: map<Key, V>, counts: map<Key, nat>,
                     ghost taken: set<string>, ghost outs: Outs<V>)
      returns (slot: Option<map<string, V>>, data': map<Key, V>, counts': map<Key, nat>)
    requires Table(p.edges, p.initial, outs.Keys + taken, outs, data, counts)
    requires MayRead(p.edges, outs.Keys + taken, outs, name)
    ensures SlotAt(p, outs, name, slot)
    ensures Table(p.edges, p.initial, outs.Keys + if slot.Some? then taken + {name} else taken, outs, data', counts')
  {
    ghost var read := outs.Keys + taken;
    var lacking := TriggerUnsatisfied(name, p, data);
    EdgeValues(p.edges, p.initial, read, outs, data, counts, name);
    LacksSame(p, name, k => Lookup(data, k), k => Value(p.edges, p.initial, outs, k));
    if lacking {
      return None, data, counts;
    }
    var inputs;
    inputs, data', counts' := CollectFor(name, p, data, counts, read, outs);
    assert outs.Keys + (taken + {name}) == read + {name};
    slot := Some(inputs);
  }

  lemma MayReadInLevel<V>(edges: seq<Edge>, done: seq<string>, names: seq<string>, j: nat, taken: set<string>,
                          outs: Outs<V>)
    requires IsLevel(edges, done, names) && SourcesIn(edges, done) && j < |names|
    requires (forall n | n in outs :: n in done) && forall n | n in taken :: n in names[..j]
    ensures MayRead(edges, outs.Keys + taken, outs, names[j])
  {
    assert names[j] in names && forall n | n in taken :: n in names;
    assert names[j] !in names[..j];
    MayReadNext(edges, done, taken, outs, names[j]);
  }

  lemma SlotsNext<V>(p: Plan<V>, outs: Outs<V>, names: seq<string>, slots: seq<Option<map<string, V>>>,
                     slot: Option<map<string, V>>)
    requires SlotsFit(p, outs, names, slots) && |slots| < |names| && SlotAt(p, outs, names[|slots|], slot)
    ensures SlotsFit(p, outs, names, slots + [slot])
  {
    forall j | 0 <= j < |slots + [slot]|
      ensures SlotAt(p, outs, names[j], (slots + [slot])[j])
    {
      if j < |slots| {
        assert SlotAt(p, outs, names[j], slots[j]);
      }
    }
  }

  lemma TakenNext<V>(names: seq<string>, slots: seq<Option<map<string, V>>>, j: nat, slot: Option<map<string, V>>)
    requires |slots| == j < |names|
    ensures Taken(names[..j + 1], slots + [slot]) ==
            if slot.Some? then Taken(names[..j], slots) + {names[j]} else Taken(names[..j], slots)
  {
    assert names[..j + 1][..j] == names[..j] && (slots + [slot])[..j] == slots;
  }

  /** All tasks of the level take their inputs before any of them publishes. */
  method TakeLevel<V>(names: seq<string>, p: Plan<V>, data: map<Key, V>, counts: map<Key, nat>,
                      ghost done: seq<string>, ghost outs: Outs<V>)
      returns (slots: seq<Option<map<string, V>>>, data': map<Key, V>, counts': map<Key, nat>)
    requires IsLevel(p.edges, done, names) && SourcesIn(p.edges, done) && forall n | n in outs :: n in done
    requires Table(p.edges, p.initial, outs.Keys, outs, data, counts)
    ensures |slots| == |names| && SlotsFit(p, outs, names, slots)
    ensures Table(p.edges, p.initial, outs.Keys + Taken(names, slots), outs, data', counts')
  {
    slots, data', counts' := [], data, counts;
    assert outs.Keys + {} == outs.Keys;
    for j := 0 to |names|
      invariant |slots| == j && SlotsFit(p, outs, names, slots)
      invariant Table(p.edges, p.initial, outs.Keys + Taken(names[..j], slots), outs, data', counts')
    {
      ghost var taken := Taken(names[..j], slots);
      MayReadInLevel(p.edges, done, names, j, taken, outs);
      var slot;
      slot, data', counts' := TakeNext(names[j], p, data', counts', taken, outs);
      TakenNext(names, slots, j, slot);
      SlotsNext(p, outs, names, slots, slot);
      slots := slots + [slot];
    }
    assert names[..|names|] == names;
  }

  lemma SkippedSolves<V>(p: Plan<V>, gated: set<string>, done: seq<string>, outs: Outs<V>, name: string)
    requires Solved(p, gated, done, outs) && name in gated && name !in outs && Idle(p, outs, name)
    ensures Solved(p, gated, done + [name], outs)
  {
    assert SolvedAt(p, gated, outs, name);
  }

  /** The tasks of `names[..j]` have been received, without a failure. */
  ghost predicate Published<V>(p: Plan<V>, gated: set<string>, done: seq<string>, outs: Outs<V>, names: seq<string>,
                               slots: seq<Option<map<string, V>>>, j: nat, outs': Outs<V>, data: map<Key, V>,
                               counts: map<Key, nat>)
    requires j <= |names| == |slots|
  {
    && InOrder(p.edges, done + names[..j]) && SourcesIn(p.edges, done + names[..j])
    && Solved(p, gated, done + names[..j], outs')
    && Table(p.edges, p.initial, outs.Keys + Taken(names, slots), outs', data, counts)
    && outs'.Keys == outs.Keys + Taken(names[..j], slots[..j])
    && forall n | n in done :: AgreeAt(outs, outs', n)
  }

  lemma {:induction false} TakenAt<V>(names: seq<string>, slots: seq<Option<map<string, V>>>, j: nat)
    requires |names| == |slots| && j < |names| && slots[j].Some?
    ensures names[j] in Taken(names, slots)
  {
    if j < |names| - 1 {
      TakenAt(names[..|names| - 1], slots[..|slots| - 1], j);
    }
  }

  lemma NobodyRead<V>(edges: seq<Edge>, done: seq<string>, outs: Outs<V>, names: seq<string>, taken: set<string>,
                      name: string)
    requires IsLevel(edges, done, names) && SourcesIn(edges, done) && name in names
    requires (forall n | n in outs :: n in done) && forall n | n in taken :: n in names
    ensures Unread(edges, outs.Keys + taken, name)
  {
  }

  lemma LevelInputs<V>(p: Plan<V>, done: seq<string>, outs: Outs<V>, outs': Outs<V>, name: string)
    requires Follows(p.edges, done, name) && forall n | n in done :: AgreeAt(outs, outs', n)
    ensures Inputs(p.edges, p.initial, outs', name) == Inputs(p.edges, p.initial, outs, name)
    ensures Idle(p, outs', name) <==> Idle(p, outs, name)
  {
    InputsSame(p.edges, p.initial, outs, outs', name);
    IdleSame(p, outs, outs', name);
  }

  lemma PrefixNext<V>(names: seq<string>, slots: seq<Option<map<string, V>>>, done: seq<string>, j: nat)
    requires j < |names| == |slots|
    ensures done + names[..j + 1] == done + names[..j] + [names[j]]
    ensures Taken(names[..j + 1], slots[..j + 1]) ==
            Taken(names[..j], slots[..j]) + if slots[j].Some? then {names[j]} else {}
  {
    assert names[..j + 1][..j] == names[..j] && slots[..j + 1][..j] == slots[..j];
  }

  lemma SkipTask<V>(p: Plan<V>, gated: set<string>, done: seq<string>, outs: Outs<V>, names: seq<string>,
                    slots: seq<Option<map<string, V>>>, j: nat, outs': Outs<V>, data: map<Key, V>,
                    counts: map<Key, nat>)
    requires j < |names| == |slots| && IsLevel(p.edges, done, names) && SourcesIn(p.edges, done)
    requires Published(p, gated, done, outs, names, slots, j, outs', data, counts) && names[j] in gated
    requires slots[j].None? && SlotAt(p, outs, names[j], slots[j]) && forall n | n in outs :: n in done
    ensures Published(p, gated, done, outs, names, slots, j + 1, outs', data, counts)
  {
    FollowsInLevel(p.edges, done, names, j);
    LevelInputs(p, done, outs, outs', names[j]);
    SkippedSolves(p, gated, done + names[..j], outs', names[j]);
    InOrderSnoc(p.edges, done + names[..j], names[j]);
    PrefixNext(names, slots, done, j);
  }

  lemma TaskTable<V>(p: Plan<V>, done: seq<string>, outs: Outs<V>, names: seq<string>,
                     slots: seq<Option<map<string, V>>>, j: nat, outs': Outs<V>, data: map<Key, V>,
                     counts: map<Key, nat>, out: map<string, V>)
    requires j < |names| == |slots| && IsLevel(p.edges, done, names) && SourcesIn(p.edges, done)
    requires Table(p.edges, p.initial, outs.Keys + Taken(names, slots), outs', data, counts)
    requires slots[j].Some? && names[j] !in outs' && forall n | n in outs :: n in done
    ensures Table(p.edges, p.initial, outs.Keys + Taken(names, slots), outs'[names[j] := out],
                  WithOutputs(data, names[j], out), counts)
  {
    assert names[j] in names;
    TakenAt(names, slots, j);
    NobodyRead(p.edges, done, outs, names, Taken(names, slots), names[j]);
    PublishStep(p.edges, p.initial, outs.Keys + Taken(names, slots), outs', data, counts, names[j], out);
  }

  lemma TaskSolves<V>(p: Plan<V>, gated: set<string>, done: seq<string>, outs: Outs<V>, names: seq<string>, j: nat,
                      outs': Outs<V>, inputs: map<string, V>, out: map<string, V>)
    requires j < |names| && IsLevel(p.edges, done, names) && Follows(p.edges, done + names[..j], names[j])
    requires InOrder(p.edges, done + names[..j]) && SourcesIn(p.edges, done + names[..j])
    requires Solved(p, gated, done + names[..j], outs') && forall n | n in done :: AgreeAt(outs, outs', n)
    requires SlotAt(p, outs, names[j], Some(inputs)) && p.run(names[j], inputs) == Ok(out)
    ensures InOrder(p.edges, done + names[..j + 1]) && SourcesIn(p.edges, done + names[..j + 1])
    ensures Solved(p, gated, done + names[..j + 1], outs'[names[j] := out])
  {
    assert names[j] in names;
    LevelInputs(p, done, outs, outs', names[j]);
    PublishedSolves(p, gated, done + names[..j], outs', names[j], out);
    InOrderSnoc(p.edges, done + names[..j], names[j]);
    assert done + names[..j] + [names[j]] == done + names[..j + 1];
  }

  lemma TaskFresh<V>(edges: seq<Edge>, done: seq<string>, outs: Outs<V>, names: seq<string>,
                     slots: seq<Option<map<string, V>>>, j: nat, outs': Outs<V>)
    requires j < |names| == |slots| && IsLevel(edges, done, names)
    requires outs'.Keys == outs.Keys + Taken(names[..j], slots[..j]) && forall n | n in outs :: n in done
    ensures names[j] !in outs' && names[j] !in done && Follows(edges, done + names[..j], names[j])
  {
    FollowsInLevel(edges, done, names, j);
    assert names[j] !in names[..j];
  }

  lemma TaskKeys<V>(done: seq<string>, outs: Outs<V>, names: seq<string>, slots: seq<Option<map<string, V>>>, j: nat,
                    outs': Outs<V>, out: map<string, V>)
    requires j < |names| == |slots| && slots[j].Some? && names[j] !in done
    requires outs'.Keys == outs.Keys + Taken(names[..j], slots[..j]) && forall n | n in done :: AgreeAt(outs, outs', n)
    ensures outs'[names[j] := out].Keys == outs.Keys + Taken(names[..j + 1], slots[..j + 1])
    ensures forall n | n in done :: AgreeAt(outs, outs'[names[j] := out], n)
  {
    PrefixNext(names, slots, done, j);
    assert outs'[names[j] := out].Keys == outs'.Keys + {names[j]};
    assert forall n | n in done :: AgreeAt(outs, outs', n) && n != names[j];
  }

  lemma PublishTask<V>(p: Plan<V>, gated: set<string>, done: seq<string>, outs: Outs<V>, names: seq<string>,
                       slots: seq<Option<map<string, V>>>, j: nat, outs': Outs<V>, data: map<Key, V>,
                       counts: map<Key, nat>, out: map<string, V>)
    requires j < |names| == |slots| && IsLevel(p.edges, done, names) && SourcesIn(p.edges, done)
    requires Published(p, gated, done, outs, names, slots, j, outs', data, counts)
    requires slots[j].Some? && SlotAt(p, outs, names[j], slots[j]) && forall n | n in outs :: n in done
    requires p.run(names[j], slots[j].value) == Ok(out)
    ensures Published(p, gated, done, outs, names, slots, j + 1, outs'[names[j] := out],
                      WithOutputs(data, names[j], out), counts)
  {
    TaskFresh(p.edges, done, outs, names, slots, j, outs');
    TaskTable(p, done, outs, names, slots, j, outs', data, counts, out);
    TaskSolves(p, gated, done, outs, names, j, outs', slots[j].value, out);
    TaskKeys(done, outs, names, slots, j, outs', out);
  }

  lemma PublishedNone<V>(p: Plan<V>, gated: set<string>, done: seq<string>, outs: Outs<V>, names: seq<string>,
                         slots: seq<Option<map<string, V>>>, data: map<Key, V>, counts: map<Key, nat>)
    requires |slots| == |names| && InOrder(p.edges, done) && SourcesIn(p.edges, done) && Solved(p, gated, done, outs)
    requires Table(p.edges, p.initial, outs.Keys + Taken(names, slots), outs, data, counts)
    ensures Published(p, gated, done, outs, names, slots, 0, outs, data, counts)
  {
    assert done + names[..0] == done;
  }

  /** The task `at` failed, and those before it were received. */
  ghost predicate FailedTask<V>(p: Plan<V>, gated: set<string>, done: seq<string>, outs: Outs<V>, names: seq<string>,
                                at: nat, failure: (string, string)) {
    at < |names| && names[at] == failure.0 && FailedAt(p, gated, done + names[..at], outs, failure.0, failure.1)
  }

  lemma TaskFails<V>(p: Plan<V>, gated: set<string>, done: seq<string>, outs: Outs<V>, names: seq<string>,
                     slots: seq<Option<map<string, V>>>, j: nat, outs': Outs<V>, data: map<Key, V>,
                     counts: map<Key, nat>, reason: string)
    requires j < |names| == |slots| && IsLevel(p.edges, done, names)
    requires Published(p, gated, done, outs, names, slots, j, outs', data, counts)
    requires slots[j].Some? && SlotAt(p, outs, names[j], slots[j]) && p.run(names[j], slots[j].value) == Err(reason)
    ensures FailedTask(p, gated, done, outs', names, j, (names[j], reason))
  {
    assert names[j] in names;
    FollowsInLevel(p.edges, done, names, j);
    LevelInputs(p, done, outs, outs', names[j]);
  }

  /** Receives one task; after a failure nothing more is published. */
  method ReceiveTask<V>(names: seq<string>, slots: seq<Option<map<string, V>>>, j: nat, p: Plan<V>,
                        failure: Option<(string, string)>, data: map<Key, V>, ghost counts: map<Key, nat>,
                        ghost gated: set<string>, ghost done: seq<string>, ghost outs: Outs<V>, ghost outs0: Outs<V>,
                        ghost at: nat)
      returns (failure': Option<(string, string)>, data': map<Key, V>, ghost outs': Outs<V>, ghost at': nat)
    requires j < |names| == |slots| && SlotAt(p, outs0, names[j], slots[j]) && names[j] in gated
    requires IsLevel(p.edges, done, names) && SourcesIn(p.edges, done) && forall n | n in outs0 :: n in done
    requires failure.None? ==> Published(p, gated, done, outs0, names, slots, j, outs, data, counts)
    requires failure.Some? ==> FailedTask(p, gated, done, outs, names, at, failure.value)
    ensures failure'.None? ==> Published(p, gated, done, outs0, names, slots, j + 1, outs', data', counts)
    ensures failure'.Some? ==> FailedTask(p, gated, done, outs', names, at', failure'.value)
  {
    failure', data', outs', at' := failure, data, outs, at;
    if slots[j].None? {
      if failure.None? {
        SkipTask(p, gated, done, outs0, names, slots, j, outs, data, counts);
      }
    } else {
      var result := p.run(names[j], slots[j].value);
      if result.Ok? {
        if failure.None? {
          PublishTask(p, gated, done, outs0, names, slots, j, outs, data, counts, result.value);
          data', outs' := WithOutputs(data, names[j], result.value), outs[names[j] := result.value];
        }
      } else if failure.None? {
        TaskFails(p, gated, done, outs0, names, slots, j, outs, data, counts, result.error);
        failure', at' := Some((names[j], result.error)), j;
      }
    }
  }

  /** Receives every task, in order; the first failure is the one that counts. */
  method PublishLevel<V>(names: seq<string>, slots: seq<Option<map<string, V>>>, p: Plan<V>, data: map<Key, V>,
                         ghost counts: map<Key, nat>, ghost gated: set<string>, ghost done: seq<string>,
                         ghost outs: Outs<V>)
      returns (failure: Option<(string, string)>, data': map<Key, V>, ghost outs': Outs<V>, ghost at: nat)
    requires |slots| == |names| && SlotsFit(p, outs, names, slots) && forall name | name in names :: name in gated
    requires IsLevel(p.edges, done, names) && InOrder(p.edges, done) && SourcesIn(p.edges, done)
    requires Solved(p, gated, done, outs)
    requires Table(p.edges, p.initial, outs.Keys + Taken(names, slots), outs, data, counts)
    ensures failure.None? ==> Published(p, gated, done, outs, names, slots, |names|, outs', data', counts)
    ensures failure.Some? ==> FailedTask(p, gated, done, outs', names, at, failure.value)
  {
    failure, data', outs', at := None, data, outs, 0;
    PublishedNone(p, gated, done, outs, names, slots, data, counts);
    for j := 0 to |names|
      invariant failure.None? ==> Published(p, gated, done, outs, names, slots, j, outs', data', counts)
      invariant failure.Some? ==> FailedTask(p, gated, done, outs', names, at, failure.value)
    {
      assert names[j] in names && SlotAt(p, outs, names[j], slots[j]);
      failure, data', outs', at :=
        ReceiveTask(names, slots, j, p, failure, data', counts, gated, done, outs', outs, at);
    }
  }

  method RunParallel<V>(names: seq<string>, p: Plan<V>, data: map<Key, V>, counts: map<Key, nat>,
                        ghost gated: set<string>, ghost done: seq<string>, ghost outs: Outs<V>)
      returns (failure: Option<(string, string)>, data': map<Key, V>, counts': map<Key, nat>,
               ghost done': seq<string>, ghost outs': Outs<V>)
    requires Standing(p, gated, done, outs, data, counts) && IsLevel(p.edges, done, names)
    requires forall name | name in names :: name in gated
    ensures failure.None? ==> done' == done + names && Standing(p, gated, done', outs', data', counts')
    ensures failure.Some? ==> done' + [failure.value.0] <= done + names
                              && FailedAt(p, gated, done', outs', failure.value.0, failure.value.1)
  {
    var slots;
    ghost var at;
    slots, data', counts' := TakeLevel(names, p, data, counts, done, outs);
    failure, data', outs', at := PublishLevel(names, slots, p, data', counts', gated, done, outs);
    if failure.Some? {
      done' := done + names[..at];
      assert done' + [names[at]] == done + names[..at + 1];
    } else {
      done' := done + names;
      assert names[..|names|] == names && slots[..|slots|] == slots;
    }
  }

  // ---- the order of the levels ----

  ghost function Flat(levels: seq<seq<nat>>, l: nat): seq<nat>
    requires l <= |levels|
  {
    if l == 0 then [] else Flat(levels, l - 1) + levels[l - 1]
  }

  lemma {:induction false} FlatMember(levels: seq<seq<nat>>, l: nat, v: nat)
    requires l <= |levels|
    ensures v in Flat(levels, l) <==> Before(levels, l, v)
  {
    if l > 0 {
      FlatMember(levels, l - 1, v);
      if Before(levels, l, v) {
        var j :| 0 <= j < l && v in levels[j];
        assert j < l - 1 ==> Before(levels, l - 1, v);
      }
      if v in levels[l - 1] {
        assert Before(levels, l, v);
      }
    }
  }

  lemma EdgeClimbs(g: Graph, u: nat, i: nat, v: nat, j: nat)
    requires (u, v) in g && HasDepth(g, u, i) && HasDepth(g, v, j)
    ensures i < j
  {
    var p :| WalkTo(g, p, u) && |p| == i + 1;
    assert WalkTo(g, p + [v], v);
  }

  function NameAt(nodes: seq<Entry>, v: nat): string { if v < |nodes| then nodes[v].name else "" }

  function NamesAt(nodes: seq<Entry>, vs: seq<nat>): seq<string> {
    seq(|vs|, i requires 0 <= i < |vs| => NameAt(nodes, vs[i]))
  }

  lemma LastIndexUnique(nodes: seq<Entry>, v: nat)
    requires UniqueNames(nodes) && v < |nodes|
    ensures LastIndex(nodes, nodes[v].name) == v
  {
    LastIndexSpec(nodes, nodes[v].name);
    assert HasName(nodes, nodes[v].name);
  }

  /** What IsLevelling says about one level: its nodes are new, and their sources lie before it. */
  lemma NotBefore(g: Graph, n: nat, levels: seq<seq<nat>>, l: nat, v: nat)
    requires IsLevelling(g, n, levels) && l < |levels| && v in levels[l]
    ensures v < n && v !in Flat(levels, l)
  {
    FlatMember(levels, l, v);
    if Before(levels, l, v) {
      var i :| 0 <= i < l && v in levels[i];
      DepthIsUnique(g, v, i, l);
    }
  }

  lemma SourceBefore(nodes: seq<Entry>, edges: seq<Edge>, levels: seq<seq<nat>>, l: nat, v: nat,
                     e: Edge) returns (u: nat)
    requires UniqueNames(nodes) && Resolved(nodes, edges) && IsLevelling(GraphOf(nodes, edges), |nodes|, levels)
    requires l < |levels| && v in levels[l] && v < |nodes| && e in edges && e.toNode == nodes[v].name
    ensures u < |nodes| && u in Flat(levels, l) && nodes[u].name == e.fromNode
  {
    var g := GraphOf(nodes, edges);
    u := LastIndex(nodes, e.fromNode);
    LastIndexSpec(nodes, e.fromNode);
    LastIndexUnique(nodes, v);
    assert (u, v) in g;
    assert Before(levels, |levels|, u);
    var i :| 0 <= i < |levels| && u in levels[i];
    EdgeClimbs(g, u, i, v, l);
    FlatMember(levels, l, u);
  }

  lemma NamedAt(nodes: seq<Entry>, vs: seq<nat>, v: nat)
    requires v in vs
    ensures NameAt(nodes, v) in NamesAt(nodes, vs)
  {
    var i :| 0 <= i < |vs| && vs[i] == v;
    assert NamesAt(nodes, vs)[i] == NameAt(nodes, v);
  }

  lemma {:induction false} FlatInRange(g: Graph, n: nat, levels: seq<seq<nat>>, l: nat)
    requires IsLevelling(g, n, levels) && l <= |levels|
    ensures forall v | v in Flat(levels, l) :: v < n
  {
    if l > 0 {
      FlatInRange(g, n, levels, l - 1);
    }
  }

  /** The nodes of a level follow the nodes of the levels before it. */
  lemma NodeFollows(nodes: seq<Entry>, edges: seq<Edge>, levels: seq<seq<nat>>, l: nat, v: nat)
    requires UniqueNames(nodes) && Resolved(nodes, edges) && IsLevelling(GraphOf(nodes, edges), |nodes|, levels)
    requires l < |levels| && v in levels[l]
    ensures Follows(edges, NamesAt(nodes, Flat(levels, l)), NameAt(nodes, v))
  {
    var done, flat := NamesAt(nodes, Flat(levels, l)), Flat(levels, l);
    NotBefore(GraphOf(nodes, edges), |nodes|, levels, l, v);
    FlatInRange(GraphOf(nodes, edges), |nodes|, levels, l);
    forall i | 0 <= i < |done|
      ensures done[i] != nodes[v].name
    {
      assert flat[i] in flat;
    }
    forall e | e in edges && e.toNode == nodes[v].name
      ensures e.fromNode in done
    {
      var u := SourceBefore(nodes, edges, levels, l, v, e);
      NamedAt(nodes, flat, u);
    }
  }

  lemma LevelFollows(nodes: seq<Entry>, edges: seq<Edge>, levels: seq<seq<nat>>, l: nat)
    requires UniqueNames(nodes) && Resolved(nodes, edges) && IsLevelling(GraphOf(nodes, edges), |nodes|, levels)
    requires l < |levels|
    ensures IsLevel(edges, NamesAt(nodes, Flat(levels, l)), NamesAt(nodes, levels[l]))
  {
    var level, names := levels[l], NamesAt(nodes, levels[l]);
    forall i | 0 <= i < |names|
      ensures level[i] < |nodes| && Follows(edges, NamesAt(nodes, Flat(levels, l)), names[i])
    {
      assert level[i] in level;
      NodeFollows(nodes, edges, levels, l, level[i]);
      NotBefore(GraphOf(nodes, edges), |nodes|, levels, l, level[i]);
    }
    forall i, j | 0 <= i < j < |names|
      ensures names[i] != names[j]
    {
      assert level[i] != level[j];
    }
  }

  lemma AllNamed(g: Graph, nodes: seq<Entry>, levels: seq<seq<nat>>)
    requires IsLevelling(g, |nodes|, levels)
    ensures Elements(NamesAt(nodes, Flat(levels, |levels|))) == set e | e in nodes :: e.name
  {
    var flat := Flat(levels, |levels|);
    FlatInRange(g, |nodes|, levels, |levels|);
    forall v | 0 <= v < |nodes|
      ensures nodes[v].name in NamesAt(nodes, flat)
    {
      assert Before(levels, |levels|, v);
      FlatMember(levels, |levels|, v);
      NamedAt(nodes, flat, v);
    }
    forall i | 0 <= i < |flat|
      ensures NamesAt(nodes, flat)[i] in set e | e in nodes :: e.name
    {
      assert flat[i] in flat && nodes[flat[i]] in nodes;
    }
  }

  ghost predicate LevelAt(nodes: seq<Entry>, edges: seq<Edge>, levels: seq<seq<nat>>, l: nat)
    requires l < |levels|
  {
    IsLevel(edges, NamesAt(nodes, Flat(levels, l)), NamesAt(nodes, levels[l]))
  }

  ghost predicate Layout(nodes: seq<Entry>, edges: seq<Edge>, levels: seq<seq<nat>>) {
    && (forall l {:trigger LevelAt(nodes, edges, levels, l)} | 0 <= l < |levels| :: LevelAt(nodes, edges, levels, l))
    && Elements(NamesAt(nodes, Flat(levels, |levels|))) == set e | e in nodes :: e.name
  }

  lemma LevellingIsLayout(nodes: seq<Entry>, edges: seq<Edge>, levels: seq<seq<nat>>)
    requires UniqueNames(nodes) && Resolved(nodes, edges) && IsLevelling(GraphOf(nodes, edges), |nodes|, levels)
    ensures Layout(nodes, edges, levels)
  {
    forall l | 0 <= l < |levels|
      ensures LevelAt(nodes, edges, levels, l)
    {
      LevelFollows(nodes, edges, levels, l);
    }
    AllNamed(GraphOf(nodes, edges), nodes, levels);
  }

  // ---- the whole execution ----

  /** What is left in the table: the values that some consumer has not read. */
  ghost predicate Leftover<V>(p: Plan<V>, outs: Outs<V>, data: map<Key, V>) {
    forall k :: Lookup(data, k) == if Consumed(p.edges, outs, k) then None else Value(p.edges, p.initial, outs, k)
  }

  ghost predicate Consumed<V>(edges: seq<Edge>, outs: Outs<V>, k: Key) {
    && (exists e :: e in edges && Source(e) == k)
    && forall e | e in edges && Source(e) == k :: e.toNode in outs
  }

  lemma RunStart<V>(p: Plan<V>, gated: set<string>, counts: map<Key, nat>)
    requires forall k :: k in counts <==> exists e :: e in p.edges && Source(e) == k
    requires forall k | k in counts :: counts[k] == Remaining(p.edges, k, {})
    ensures Standing(p, gated, [], map[], p.initial, counts)
  {
    var none: Outs<V> := map[];
    assert none.Keys == {};
    forall k
      ensures TableAt(p.edges, p.initial, {}, none, p.initial, counts, k)
    {
      RemainingPositive(p.edges, k, {});
    }
  }

  lemma RunEnd<V>(p: Plan<V>, outs: Outs<V>, data: map<Key, V>, counts: map<Key, nat>)
    requires Table(p.edges, p.initial, outs.Keys, outs, data, counts)
    ensures Leftover(p, outs, data)
  {
    forall k
      ensures Lookup(data, k) == if Consumed(p.edges, outs, k) then None else Value(p.edges, p.initial, outs, k)
    {
      assert TableAt(p.edges, p.initial, outs.Keys, outs, data, counts, k);
      RemainingPositive(p.edges, k, {});
      RemainingPositive(p.edges, k, outs.Keys);
    }
  }

  /** The nodes of the first `l` levels that run as parallel tasks: those may be skipped. */
  ghost function Gated(nodes: seq<Entry>, levels: seq<seq<nat>>, inline: nat -> bool, l: nat): set<string>
    requires l <= |levels|
  {
    if l == 0 then {}
    else
      var gated := Gated(nodes, levels, inline, l - 1);
      if inline(l - 1) || |levels[l - 1]| == 1 then gated else gated + Elements(NamesAt(nodes, levels[l - 1]))
  }

  /** A node is gated exactly when its own level runs as tasks. */
  ghost predicate GatedAsRun(nodes: seq<Entry>, levels: seq<seq<nat>>, inline: nat -> bool, gated: set<string>, l: nat)
    requires l < |levels|
  {
    forall name | name in NamesAt(nodes, levels[l]) :: name in gated <==> !(inline(l) || |levels[l]| == 1)
  }

  ghost predicate GatesFit(nodes: seq<Entry>, levels: seq<seq<nat>>, inline: nat -> bool, gated: set<string>) {
    forall l {:trigger GatedAsRun(nodes, levels, inline, gated, l)} | 0 <= l < |levels| ::
      GatedAsRun(nodes, levels, inline, gated, l)
  }

  lemma LevelOfName(g: Graph, nodes: seq<Entry>, levels: seq<seq<nat>>, i: nat, j: nat, name: string)
    requires UniqueNames(nodes) && IsLevelling(g, |nodes|, levels) && i < |levels| && j < |levels|
    requires name in NamesAt(nodes, levels[i]) && name in NamesAt(nodes, levels[j])
    ensures i == j
  {
    var a :| 0 <= a < |levels[i]| && NamesAt(nodes, levels[i])[a] == name;
    var b :| 0 <= b < |levels[j]| && NamesAt(nodes, levels[j])[b] == name;
    var u, v := levels[i][a], levels[j][b];
    assert u in levels[i] && v in levels[j];
    DepthIsUnique(g, u, i, j);
  }

  lemma {:induction false} GatedAt(g: Graph, nodes: seq<Entry>, levels: seq<seq<nat>>, inline: nat -> bool, n: nat,
                                   l: nat, name: string)
    requires UniqueNames(nodes) && IsLevelling(g, |nodes|, levels) && n <= |levels| && l < |levels|
    requires name in NamesAt(nodes, levels[l])
    ensures name in Gated(nodes, levels, inline, n) <==> l < n && !(inline(l) || |levels[l]| == 1)
  {
    if n > 0 {
      GatedAt(g, nodes, levels, inline, n - 1, l, name);
      if name in NamesAt(nodes, levels[n - 1]) {
        LevelOfName(g, nodes, levels, l, n - 1, name);
      }
    }
  }

  lemma GatesOf(g: Graph, nodes: seq<Entry>, levels: seq<seq<nat>>, inline: nat -> bool)
    requires UniqueNames(nodes) && IsLevelling(g, |nodes|, levels)
    ensures GatesFit(nodes, levels, inline, Gated(nodes, levels, inline, |levels|))
  {
    var gated := Gated(nodes, levels, inline, |levels|);
    forall l | 0 <= l < |levels|
      ensures GatedAsRun(nodes, levels, inline, gated, l)
    {
      forall name | name in NamesAt(nodes, levels[l])
        ensures name in gated <==> !(inline(l) || |levels[l]| == 1)
      {
        GatedAt(g, nodes, levels, inline, |levels|, l, name);
      }
    }
  }

  lemma {:induction false} GatedInline(nodes: seq<Entry>, levels: seq<seq<nat>>, inline: nat -> bool, l: nat)
    requires l <= |levels| && forall i: nat :: inline(i)
    ensures Gated(nodes, levels, inline, l) == {}
  {
    if l > 0 {
      GatedInline(nodes, levels, inline, l - 1);
    }
  }

  method RunLevel<V>(names: seq<string>, p: Plan<V>, inline: bool, data: map<Key, V>, counts: map<Key, nat>,
                     ghost gated: set<string>, ghost done: seq<string>, ghost outs: Outs<V>)
      returns (failure: Option<(string, string)>, data': map<Key, V>, counts': map<Key, nat>,
               ghost done': seq<string>, ghost outs': Outs<V>)
    requires Standing(p, gated, done, outs, data, counts) && IsLevel(p.edges, done, names)
    requires forall name | name in names :: name in gated <==> !inline
    ensures failure.None? ==> done' == done + names && Standing(p, gated, done', outs', data', counts')
    ensures failure.Some? ==> done' + [failure.value.0] <= done + names
                              && FailedAt(p, gated, done', outs', failure.value.0, failure.value.1)
  {
    if inline {
      failure, data', counts', done', outs' := RunInline(names, p, data, counts, gated, done, outs);
    } else {
      failure, data', counts', done', outs' := RunParallel(names, p, data, counts, gated, done, outs);
    }
  }

  lemma {:induction false} FlatNames(nodes: seq<Entry>, levels: seq<seq<nat>>, l: nat, n: nat)
    requires l < n <= |levels|
    ensures NamesAt(nodes, Flat(levels, l + 1)) == NamesAt(nodes, Flat(levels, l)) + NamesAt(nodes, levels[l])
    ensures NamesAt(nodes, Flat(levels, l + 1)) <= NamesAt(nodes, Flat(levels, n))
  {
    if l < n - 1 {
      FlatNames(nodes, levels, l, n - 1);
    }
  }

  /** Runs the levels in order; `inline` says where the caller's thread must not wait for tasks. */
  method RunLevels<V>(nodes: seq<Entry>, levels: seq<seq<nat>>, p: Plan<V>, inline: nat -> bool,
                      counts: map<Key, nat>, ghost gated: set<string>)
      returns (failure: Option<(string, string)>, data: map<Key, V>, ghost counts': map<Key, nat>,
               ghost done: seq<string>, ghost outs: Outs<V>)
    requires Layout(nodes, p.edges, levels) && GatesFit(nodes, levels, inline, gated)
    requires Standing(p, gated, [], map[], p.initial, counts)
    ensures failure.None? ==> done == NamesAt(nodes, Flat(levels, |levels|))
                              && Standing(p, gated, done, outs, data, counts')
    ensures failure.Some? ==> done + [failure.value.0] <= NamesAt(nodes, Flat(levels, |levels|))
                              && FailedAt(p, gated, done, outs, failure.value.0, failure.value.1)
  {
    data := p.initial;
    var left := counts;
    done, outs := [], map[];
    for l := 0 to |levels|
      invariant done == NamesAt(nodes, Flat(levels, l)) && Standing(p, gated, done, outs, data, left)
    {
      FlatNames(nodes, levels, l, |levels|);
      assert LevelAt(nodes, p.edges, levels, l) && GatedAsRun(nodes, levels, inline, gated, l);
      failure, data, left, done, outs :=
        RunLevel(NamesAt(nodes, levels[l]), p, inline(l) || |levels[l]| == 1, data, left, gated, done, outs);
      if failure.Some? {
        counts' := left;
        return;
      }
    }
    failure, counts' := None, left;
  }

  function PortsOf(nodes: seq<Entry>, name: string): seq<PortDef> {
    match FindNode(nodes, name)
    case Some(node) => node.inputs
    case None => []
  }

  /** The first entry of a name is the one looked up, so with unique names each node has its own ports. */
  lemma PortsOfEntry(nodes: seq<Entry>, e: Entry)
    requires UniqueNames(nodes) && e in nodes
    ensures PortsOf(nodes, e.name) == e.node.inputs
  {
    var i :| 0 <= i < |nodes| && nodes[i] == e;
    assert FirstNamed(nodes, i, e.name);
    FindsFirst(nodes, i, e.name);
  }

  /** The graph's own plan: its edges, the preset values, the behaviour, and the ports each node declares. */
  method PlanOf<V>(dag: Dag, initial: map<Key, V>, run: Behaviour<V>) returns (p: Plan<V>)
    requires UniqueNames(dag.nodes)
    ensures p.edges == dag.edges && p.initial == initial && p.run == run
    ensures forall e | e in dag.nodes :: p.ports(e.name) == e.node.inputs
  {
    var nodes := dag.nodes;
    p := Plan(dag.edges, initial, run, name => PortsOf(nodes, name));
    forall e | e in nodes
      ensures p.ports(e.name) == e.node.inputs
    {
      PortsOfEntry(nodes, e);
    }
  }

  /** The result is what evaluating the nodes in this order gives, and the values left over. */
  ghost predicate IsResult<V>(p: Plan<V>, gated: set<string>, names: seq<string>, r: Result<map<Key, V>, Failure>) {
    match Eval(p, gated, names)
    case Going(outs) => r.Ok? && Solved(p, gated, names, outs) && Leftover(p, outs, r.value)
    case Stopped(_, name, reason) => r == Err(NodeFailed(name, reason))
  }

  lemma FailureIsResult<V>(p: Plan<V>, gated: set<string>, names: seq<string>, done: seq<string>, outs: Outs<V>,
                           name: string, reason: string)
    requires FailedAt(p, gated, done, outs, name, reason) && done + [name] <= names
    ensures Eval(p, gated, names) == Stopped(outs, name, reason)
  {
    SolutionIsEval(p, gated, done, outs);
    EvalNext(p, gated, done, name);
    assert names[..|done| + 1] == done + [name];
    EvalStops(p, gated, names, |done| + 1);
  }

  /** An order of all nodes in which sources come first. */
  ghost predicate OrdersNodes(nodes: seq<Entry>, edges: seq<Edge>, names: seq<string>) {
    InOrder(edges, names) && Elements(names) == set e | e in nodes :: e.name
  }

  lemma LayoutOrders(nodes: seq<Entry>, edges: seq<Edge>, levels: seq<seq<nat>>)
    requires Layout(nodes, edges, levels)
    ensures OrdersNodes(nodes, edges, NamesAt(nodes, Flat(levels, |levels|)))
  {
    LevelsInOrder(nodes, edges, levels, |levels|);
  }

  lemma {:induction false} LevelsInOrder(nodes: seq<Entry>, edges: seq<Edge>, levels: seq<seq<nat>>, l: nat)
    requires Layout(nodes, edges, levels) && l <= |levels|
    ensures InOrder(edges, NamesAt(nodes, Flat(levels, l))) && SourcesIn(edges, NamesAt(nodes, Flat(levels, l)))
    decreases l
  {
    if l > 0 {
      var done, names := NamesAt(nodes, Flat(levels, l - 1)), NamesAt(nodes, levels[l - 1]);
      LevelsInOrder(nodes, edges, levels, l - 1);
      FlatNames(nodes, levels, l - 1, |levels|);
      assert LevelAt(nodes, edges, levels, l - 1);
      LevelAppended(edges, done, names, |names|);
      assert names[..|names|] == names;
    }
  }

  lemma {:induction false} LevelAppended(edges: seq<Edge>, done: seq<string>, names: seq<string>, j: nat)
    requires IsLevel(edges, done, names) && InOrder(edges, done) && SourcesIn(edges, done) && j <= |names|
    ensures InOrder(edges, done + names[..j]) && SourcesIn(edges, done + names[..j])
    decreases j
  {
    if j == 0 {
      assert done + names[..0] == done;
    } else {
      LevelAppended(edges, done, names, j - 1);
      FollowsInLevel(edges, done, names, j - 1);
      InOrderSnoc(edges, done + names[..j - 1], names[j - 1]);
      assert done + names[..j] == done + names[..j - 1] + [names[j - 1]];
    }
  }

  /** Runs the levels from the start and hands out what is left. */
  method ExecuteLevels<V>(nodes: seq<Entry>, levels: seq<seq<nat>>, p: Plan<V>, inline: nat -> bool)
      returns (r: Result<map<Key, V>, Failure>)
    requires UniqueNames(nodes) && Resolved(nodes, p.edges) && IsLevelling(GraphOf(nodes, p.edges), |nodes|, levels)
    ensures OrdersNodes(nodes, p.edges, NamesAt(nodes, Flat(levels, |levels|)))
    ensures IsResult(p, Gated(nodes, levels, inline, |levels|), NamesAt(nodes, Flat(levels, |levels|)), r)
  {
    ghost var gated := Gated(nodes, levels, inline, |levels|);
    LevellingIsLayout(nodes, p.edges, levels);
    LayoutOrders(nodes, p.edges, levels);
    GatesOf(GraphOf(nodes, p.edges), nodes, levels, inline);
    var counts := ConsumerCounts(p.edges);
    RunStart(p, gated, counts);
    var failure, data;
    ghost var left, done, outs;
    failure, data, left, done, outs := RunLevels(nodes, levels, p, inline, counts, gated);
    if failure.Some? {
      FailureIsResult(p, gated, NamesAt(nodes, Flat(levels, |levels|)), done, outs, failure.value.0, failure.value.1);
      return Err(NodeFailed(failure.value.0, failure.value.1));
    }
    SolutionIsEval(p, gated, done, outs);
    RunEnd(p, outs, data, left);
    r := Ok(data);
  }

  /** The nodes of a level may be skipped exactly when it is not run inline and is not a single node. */
  ghost predicate MayBeSkipped(nodes: seq<Entry>, levels: seq<seq<nat>>, inline: nat -> bool, gated: set<string>) {
    forall l: nat, v: nat | l < |levels| && v in levels[l] && v < |nodes| ::
      nodes[v].name in gated <==> !inline(l) && |levels[l]| > 1
  }

  lemma GatedMeans(g: Graph, nodes: seq<Entry>, levels: seq<seq<nat>>, inline: nat -> bool)
    requires UniqueNames(nodes) && IsLevelling(g, |nodes|, levels)
    ensures MayBeSkipped(nodes, levels, inline, Gated(nodes, levels, inline, |levels|))
  {
    forall l: nat, v: nat | l < |levels| && v in levels[l] && v < |nodes|
      ensures nodes[v].name in Gated(nodes, levels, inline, |levels|) <==> !inline(l) && |levels[l]| > 1
    {
      NamedAt(nodes, levels[l], v);
      GatedAt(g, nodes, levels, inline, |levels|, l, nodes[v].name);
    }
  }

  /**
   * Runs the graph on the preset values, `p` being its own plan; `gated` are the tasks that may be
   * skipped.
   */
  method ExecuteDag<V>(dag: Dag, initial: map<Key, V>, run: Behaviour<V>, inline: nat -> bool)
      returns (r: Result<map<Key, V>, Failure>, ghost levels: seq<seq<nat>>, ghost p: Plan<V>, ghost gated: set<string>)
    requires dag.Valid() && UniqueNames(dag.nodes)
    ensures p.edges == dag.edges && p.initial == initial && p.run == run
    ensures forall e | e in dag.nodes :: p.ports(e.name) == e.node.inputs
    ensures Cyclic(dag.Graph()) ==> r == Err(BadGraph(CycleDetected))
    ensures !Cyclic(dag.Graph()) ==>
              var names := NamesAt(dag.nodes, Flat(levels, |levels|));
              && IsLevelling(dag.Graph(), |dag.nodes|, levels) && LevelsOrdered(dag.Graph(), levels)
              && OrdersNodes(dag.nodes, dag.edges, names)
              && MayBeSkipped(dag.nodes, levels, inline, gated) && IsResult(p, gated, names, r)
  {
    var plan := PlanOf(dag, initial, run);
    p := plan;
    var sorted := dag.TopologicalLevels();
    if sorted.Err? {
      return Err(BadGraph(sorted.error)), [], p, {};
    }
    levels := sorted.value;
    gated := Gated(dag.nodes, levels, inline, |levels|);
    GatedMeans(dag.Graph(), dag.nodes, levels, inline);
    r := ExecuteLevels(dag.nodes, sorted.value, plan, inline);
  }

  /** The same without tasks: no node is ever skipped. */
  method ExecuteSequential<V>(dag: Dag, initial: map<Key, V>, run: Behaviour<V>)
      returns (r: Result<map<Key, V>, Failure>, ghost levels: seq<seq<nat>>, ghost p: Plan<V>)
    requires dag.Valid() && UniqueNames(dag.nodes)
    ensures p.edges == dag.edges && p.initial == initial && p.run == run
    ensures Cyclic(dag.Graph()) ==> r == Err(BadGraph(CycleDetected))
    ensures !Cyclic(dag.Graph()) ==>
              var names := NamesAt(dag.nodes, Flat(levels, |levels|));
              && IsLevelling(dag.Graph(), |dag.nodes|, levels) && LevelsOrdered(dag.Graph(), levels)
              && OrdersNodes(dag.nodes, dag.edges, names)
              && IsResult(p, {}, names, r)
  {
    var plan := PlanOf(dag, initial, run);
    p := plan;
    var sorted := dag.TopologicalLevels();
    if sorted.Err? {
      return Err(BadGraph(sorted.error)), [], p;
    }
    levels := sorted.value;
    var always := (_: nat) => true;
    r := ExecuteLevels(dag.nodes, sorted.value, plan, always);
    GatedInline(dag.nodes, levels, always, |levels|);
  }

  /** An output that no edge takes is handed out; one whose consumers have all run is not. */
  lemma OutputsLeft<V>(p: Plan<V>, outs: Outs<V>, data: map<Key, V>, name: string, port: string)
    requires Leftover(p, outs, data) && name in outs && port in outs[name]
    ensures (forall e | e in p.edges :: e.fromNode != name || e.fromPort != port) ==>
              (name, port) in data && data[(name, port)] == outs[name][port]
    ensures (forall e | e in p.edges && e.fromNode == name && e.fromPort == port :: e.toNode in outs) ==>
              ((name, port) in data <==> forall e | e in p.edges :: e.fromNode != name || e.fromPort != port)
  {
    var k := (name, port);
    assert Lookup(data, k) == if Consumed(p.edges, outs, k) then None else Value(p.edges, p.initial, outs, k);
  }

  lemma OnlyName(edges: seq<Edge>, names: seq<string>, name: string)
    requires InOrder(edges, names) && Elements(names) == {name}
    ensures names == [name]
  {
    OrderedNames(edges, names);
    assert name in Elements(names);
    assert forall i | 0 <= i < |names| :: names[i] in Elements(names);
  }

  lemma OneNodeEval<V>(p: Plan<V>, name: string, presets: map<string, V>)
    requires p.edges == [] && ArePresets(p.initial, name, presets)
    ensures Eval(p, {}, [name]) == match p.run(name, presets)
                                   case Ok(out) => Going(map[name := out])
                                   case Err(reason) => Stopped(map[], name, reason)
  {
    PresetsOnly(p.edges, p.initial, map[], name);
    assert Inputs(p.edges, p.initial, map[], name) == presets;
    assert [name][..0] == [];
    assert Eval(p, {}, [name]) == Next(p, {}, Eval(p, {}, []), name);
  }

  lemma OneNodeLeft<V>(p: Plan<V>, name: string, out: map<string, V>, data: map<Key, V>)
    requires p.edges == [] && Leftover(p, map[name := out], data)
    ensures forall k :: k in data <==> if k.0 == name then k.1 in out else k in p.initial
    ensures forall k | k in data :: data[k] == if k.0 == name then out[k.1] else p.initial[k]
  {
    var outs := map[name := out];
    forall k
      ensures k in data <==> if k.0 == name then k.1 in out else k in p.initial
      ensures k in data ==> data[k] == if k.0 == name then out[k.1] else p.initial[k]
    {
      assert Lookup(data, k) == if Consumed(p.edges, outs, k) then None else Value(p.edges, p.initial, outs, k);
    }
  }

  /** What a graph of one node gives: its outputs in place of its preset values, or its error. */
  ghost predicate RanAlone<V>(name: string, presets: map<string, V>, initial: map<Key, V>, run: Behaviour<V>,
                              r: Result<map<Key, V>, Failure>) {
    match run(name, presets)
    case Err(reason) => r == Err(NodeFailed(name, reason))
    case Ok(out) =>
      && r.Ok?
      && (forall k :: k in r.value <==> if k.0 == name then k.1 in out else k in initial)
      && (forall k | k in r.value :: r.value[k] == if k.0 == name then out[k.1] else initial[k])
  }

  method ExecuteSingle<V>(name: string, node: Node, initial: map<Key, V>, run: Behaviour<V>,
                          ghost presets: map<string, V>)
      returns (r: Result<map<Key, V>, Failure>)
    requires ArePresets(initial, name, presets)
    ensures RanAlone(name, presets, initial, run, r)
  {
    var dag := new Dag();
    dag.AddNode(name, node);
    assert dag.nodes == [Entry(name, node)] && dag.Graph() == {};
    LayeredIsAcyclic(dag.Graph(), []);
    ghost var levels, p;
    r, levels, p := ExecuteSequential(dag, initial, run);
    ghost var names := NamesAt(dag.nodes, Flat(levels, |levels|));
    assert (set e | e in dag.nodes :: e.name) == {name};
    OnlyName(dag.edges, names, name);
    OneNodeEval(p, name, presets);
    if r.Ok? {
      OneNodeLeft(p, name, Eval(p, {}, [name]).outs[name], r.value);
    }
  }

  /** The outputs determine the values left over. */
  lemma LeftoverUnique<V>(p: Plan<V>, outs: Outs<V>, data: map<Key, V>, data': map<Key, V>)
    requires Leftover(p, outs, data) && Leftover(p, outs, data')
    ensures data == data'
  {
    forall k
      ensures k in data <==> k in data'
      ensures k in data ==> data[k] == data'[k]
    {
      assert Lookup(data, k) == Lookup(data', k);
    }
  }

  /** Equal progress gives equal results, errors included. */
  lemma SameResult<V>(p: Plan<V>, a: set<string>, b: set<string>, names: seq<string>,
                      r: Result<map<Key, V>, Failure>, r': Result<map<Key, V>, Failure>)
    requires IsResult(p, a, names, r) && IsResult(p, b, names, r') && Eval(p, a, names) == Eval(p, b, names)
    ensures r == r'
  {
    if r.Ok? {
      LeftoverUnique(p, Eval(p, a, names).outs, r.value, r'.value);
    }
  }

  /** Two choices of levels to run inline get equally far exactly when no node without triggers is gated by one only. */
  lemma ChoicesMatch<V>(p: Plan<V>, a: set<string>, b: set<string>, names: seq<string>,
                        r: Result<map<Key, V>, Failure>, r': Result<map<Key, V>, Failure>)
    requires InOrder(p.edges, names) && IsResult(p, a, names, r) && IsResult(p, b, names, r')
    ensures Eval(p, a, names) == Eval(p, b, names) <==> NoClash(p, a, b, names)
    ensures NoClash(p, a, b, names) ==> r == r'
  {
    OrderedNames(p.edges, names);
    EvalAgrees(p, a, b, names);
    if NoClash(p, a, b, names) {
      SameResult(p, a, b, names, r, r');
    }
  }

  /** Running tasks gets as far as running in sequence exactly when every task that is reached has its triggers. */
  lemma ParallelMatchesSequential<V>(p: Plan<V>, gated: set<string>, names: seq<string>,
                                     r: Result<map<Key, V>, Failure>, s: Result<map<Key, V>, Failure>)
    requires InOrder(p.edges, names) && IsResult(p, gated, names, r) && IsResult(p, {}, names, s)
    ensures Eval(p, gated, names) == Eval(p, {}, names) <==> AllTriggered(p, gated, names)
    ensures AllTriggered(p, gated, names) ==> r == s
  {
    OrderedNames(p.edges, names);
    GatingIsInvisible(p, gated, names);
    if AllTriggered(p, gated, names) {
      SameResult(p, gated, {}, names, r, s);
    }
  }

  /** Both executors on the same levels. */
  method ExecuteBothWays<V>(dag: Dag, initial: map<Key, V>, run: Behaviour<V>, inline: nat -> bool)
      returns (r: Result<map<Key, V>, Failure>, s: Result<map<Key, V>, Failure>, ghost levels: seq<seq<nat>>,
               ghost p: Plan<V>)
    requires dag.Valid() && UniqueNames(dag.nodes)
    ensures p.edges == dag.edges && p.initial == initial && p.run == run
    ensures forall e | e in dag.nodes :: p.ports(e.name) == e.node.inputs
    ensures Cyclic(dag.Graph()) ==> r == s == Err(BadGraph(CycleDetected))
    ensures !Cyclic(dag.Graph()) ==>
              var names := NamesAt(dag.nodes, Flat(levels, |levels|));
              var gated := Gated(dag.nodes, levels, inline, |levels|);
              && IsLevelling(dag.Graph(), |dag.nodes|, levels)
              && IsResult(p, gated, names, r) && IsResult(p, {}, names, s)
              && (Eval(p, gated, names) == Eval(p, {}, names) <==> AllTriggered(p, gated, names))
              && (AllTriggered(p, gated, names) ==> r == s)
  {
    var plan := PlanOf(dag, initial, run);
    p := plan;
    var sorted := dag.TopologicalLevels();
    if sorted.Err? {
      return Err(BadGraph(sorted.error)), Err(BadGraph(sorted.error)), [], p;
    }
    levels := sorted.value;
    var always := (_: nat) => true;
    r := ExecuteLevels(dag.nodes, sorted.value, plan, inline);
    s := ExecuteLevels(dag.nodes, sorted.value, plan, always);
    GatedInline(dag.nodes, levels, always, |levels|);
    ParallelMatchesSequential(p, Gated(dag.nodes, levels, inline, |levels|),
                              NamesAt(dag.nodes, Flat(levels, |levels|)), r, s);
  }
}
