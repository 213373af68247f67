/**
 * What executing a `Dag` computes (luciole/src/runtime.rs): every node's outputs are a function of
 * the values that reach its inputs. For an acyclic graph these equations have one solution.
 */
module Dataflow {
  import opened Results
  import opened Graphs
  import opened Dags

  /** A node name and one of its ports. */
  type Key = (string, string)

  /** What each node does with its inputs. */
  type Behaviour<!V> = (string, map<string, V>) -> Result<map<string, V>, string>

  function Lookup<V>(m: map<Key, V>, k: Key): Option<V> {
    if k in m then Some(m[k]) else None
  }

  function Source(e: Edge): Key { (e.fromNode, e.fromPort) }

  predicate HasEdgeInto(edges: seq<Edge>, k: Key) {
    edges != [] && ((edges[0].toNode, edges[0].toPort) == k || HasEdgeInto(edges[1..], k))
  }

  // ---- the dataflow equations ----

  /** The value at a key once the nodes in `outs` have run. A preset value is handed to its own
      node as an input, unless an edge feeds that port. */
  ghost function Value<V>(edges: seq<Edge>, initial: map<Key, V>, outs: map<string, map<string, V>>,
                          k: Key): Option<V> {
    if k.0 !in outs then Lookup(initial, k)
    else if k.1 in outs[k.0] then Some(outs[k.0][k.1])
    else if HasEdgeInto(edges, k) then Lookup(initial, k)
    else None
  }

  predicate IsDirect(edges: seq<Edge>, name: string, k: Key) {
    k.0 == name && !HasEdgeInto(edges, k)
  }

  function Direct<V>(edges: seq<Edge>, name: string, data: map<Key, V>): map<string, V> {
    map k | k in data && IsDirect(edges, name, k) :: k.1 := data[k]
  }

  /** Reads every edge into `name`, a later edge into the same port winning. */
  ghost function Fed<V>(edges: seq<Edge>, name: string, base: map<string, V>, value: Key -> Option<V>): map<string, V> {
    if edges == [] then base
    else
      var e := edges[|edges| - 1];
      var inputs := Fed(edges[..|edges| - 1], name, base, value);
      if e.toNode == name && value(Source(e)).Some? then inputs[e.toPort := value(Source(e)).value] else inputs
  }

  ghost function Inputs<V>(edges: seq<Edge>, initial: map<Key, V>, outs: map<string, map<string, V>>,
                           name: string): map<string, V> {
    Fed(edges, name, Direct(edges, name, initial), k => Value(edges, initial, outs, k))
  }

  lemma {:induction false} FedSame<V>(edges: seq<Edge>, name: string, base: map<string, V>,
                                      f: Key -> Option<V>, g: Key -> Option<V>)
    requires forall e | e in edges && e.toNode == name :: f(Source(e)) == g(Source(e))
    ensures Fed(edges, name, base, f) == Fed(edges, name, base, g)
  {
    if edges != [] {
      FedSame(edges[..|edges| - 1], name, base, f, g);
    }
  }

  ghost predicate AgreeAt<V>(a: map<string, map<string, V>>, b: map<string, map<string, V>>, name: string) {
    (name in a <==> name in b) && (name in a ==> a[name] == b[name])
  }

  ghost predicate AgreeBefore<V>(edges: seq<Edge>, name: string, a: map<string, map<string, V>>,
                                 b: map<string, map<string, V>>) {
    forall e | e in edges && e.toNode == name :: AgreeAt(a, b, e.fromNode)
  }

  /** Only the outputs of direct predecessors matter. */
  lemma InputsSame<V>(edges: seq<Edge>, initial: map<Key, V>, a: map<string, map<string, V>>,
                      b: map<string, map<string, V>>, name: string)
    requires AgreeBefore(edges, name, a, b)
    ensures Inputs(edges, initial, a, name) == Inputs(edges, initial, b, name)
  {
    FedSame(edges, name, Direct(edges, name, initial),
            k => Value(edges, initial, a, k), k => Value(edges, initial, b, k));
  }

  // ---- what reaches a port ----

  /** The values preset for the ports of a node. */
  ghost predicate ArePresets<V>(initial: map<Key, V>, name: string, inputs: map<string, V>) {
    && (forall port :: port in inputs <==> (name, port) in initial)
    && (forall port | port in inputs :: inputs[port] == initial[(name, port)])
  }

  /** A node that no edge enters gets exactly its preset values. */
  lemma PresetsOnly<V>(edges: seq<Edge>, initial: map<Key, V>, outs: map<string, map<string, V>>, name: string)
    requires forall e | e in edges :: e.toNode != name
    ensures ArePresets(initial, name, Inputs(edges, initial, outs, name))
  {
    FedByNone(edges, name, Direct(edges, name, initial), k => Value(edges, initial, outs, k));
    forall port
      ensures IsDirect(edges, name, (name, port))
    {
      EdgeInto(edges, (name, port));
    }
    var direct := Direct(edges, name, initial);
    forall port
      ensures port in direct <==> (name, port) in initial
      ensures port in direct ==> direct[port] == initial[(name, port)]
    {
      assert IsDirect(edges, name, (name, port)) && (name, port).1 == port;
      if port in direct {
        var k :| k in initial && IsDirect(edges, name, k) && k.1 == port;
        assert k == (name, port);
      }
    }
  }

  lemma {:induction false} FedByNone<V>(edges: seq<Edge>, name: string, base: map<string, V>, value: Key -> Option<V>)
    requires forall e | e in edges :: e.toNode != name
    ensures Fed(edges, name, base, value) == base
  {
    if edges != [] {
      FedByNone(edges[..|edges| - 1], name, base, value);
    }
  }

  lemma {:induction false} EdgeInto(edges: seq<Edge>, k: Key)
    ensures HasEdgeInto(edges, k) <==> exists e :: e in edges && (e.toNode, e.toPort) == k
  {
    if edges != [] {
      EdgeInto(edges[1..], k);
      assert edges == [edges[0]] + edges[1..];
    }
  }

  lemma {:induction false} FedByLast<V>(edges: seq<Edge>, name: string, base: map<string, V>, value: Key -> Option<V>,
                                        i: nat)
    requires i < |edges| && edges[i].toNode == name && value(Source(edges[i])).Some?
    requires forall j | i < j < |edges| :: edges[j].toNode != name || edges[j].toPort != edges[i].toPort
    ensures var inputs := Fed(edges, name, base, value);
            edges[i].toPort in inputs && inputs[edges[i].toPort] == value(Source(edges[i])).value
  {
    if i < |edges| - 1 {
      var init := edges[..|edges| - 1];
      assert forall j | i < j < |init| :: init[j] == edges[j];
      FedByLast(init, name, base, value, i);
    }
  }

  /** The last edge into a port hands it what its source has put out. */
  lemma EdgeDelivers<V>(edges: seq<Edge>, initial: map<Key, V>, outs: map<string, map<string, V>>, i: nat)
    requires i < |edges| && edges[i].fromNode in outs && edges[i].fromPort in outs[edges[i].fromNode]
    requires forall j | i < j < |edges| :: edges[j].toNode != edges[i].toNode || edges[j].toPort != edges[i].toPort
    ensures var e := edges[i];
            var inputs := Inputs(edges, initial, outs, e.toNode);
            e.toPort in inputs && inputs[e.toPort] == outs[e.fromNode][e.fromPort]
  {
    var name := edges[i].toNode;
    FedByLast(edges, name, Direct(edges, name, initial), k => Value(edges, initial, outs, k), i);
  }

  lemma {:induction false} FedNothing<V>(edges: seq<Edge>, name: string, base: map<string, V>, value: Key -> Option<V>,
                                         port: string)
    requires forall e | e in edges && e.toNode == name && e.toPort == port :: value(Source(e)).None?
    ensures var inputs := Fed(edges, name, base, value);
            (port in inputs <==> port in base) && (port in base ==> inputs[port] == base[port])
  {
    if edges != [] {
      var init := edges[..|edges| - 1];
      assert forall e | e in init :: e in edges;
      FedNothing(init, name, base, value, port);
    }
  }

  /** A port with edges into it whose sources have run without output there, and no presets, gets nothing. */
  lemma SilentPort<V>(edges: seq<Edge>, outs: map<string, map<string, V>>, name: string, port: string)
    requires forall e | e in edges && e.toNode == name && e.toPort == port ::
               e.fromNode in outs && e.fromPort !in outs[e.fromNode]
    ensures port !in Inputs(edges, map[], outs, name)
  {
    FedNothing(edges, name, Direct(edges, name, map[]), k => Value(edges, map[], outs, k), port);
  }

  // ---- skipped nodes ----

  function RequiredTriggers(ports: seq<PortDef>): set<string> {
    set p | p in ports && p.required && p.portType == Trigger :: p.name
  }

  /** Some edge into `k` carries a value. */
  ghost predicate Fires<V>(edges: seq<Edge>, k: Key, value: Key -> Option<V>) {
    exists e :: e in edges && e.toNode == k.0 && e.toPort == k.1 && value((e.fromNode, e.fromPort)).Some?
  }

  lemma FiresSame<V>(edges: seq<Edge>, k: Key, f: Key -> Option<V>, g: Key -> Option<V>)
    requires forall e | e in edges && e.toNode == k.0 :: f(Source(e)) == g(Source(e))
    ensures Fires(edges, k, f) <==> Fires(edges, k, g)
  {
    forall e | e in edges && e.toNode == k.0
      ensures f((e.fromNode, e.fromPort)) == g((e.fromNode, e.fromPort))
    {
      assert Source(e) == (e.fromNode, e.fromPort);
    }
  }

  /** The graph, the preset values, and what each node requires and does. */
  datatype Plan<!V> = Plan(edges: seq<Edge>, initial: map<Key, V>, run: Behaviour<V>, ports: string -> seq<PortDef>)

  /** A required trigger of `name` has no value. */
  ghost predicate Lacks<V>(p: Plan<V>, name: string, value: Key -> Option<V>) {
    exists port :: port in RequiredTriggers(p.ports(name)) && !Fires(p.edges, (name, port), value)
  }

  ghost predicate Idle<V>(p: Plan<V>, outs: map<string, map<string, V>>, name: string) {
    Lacks(p, name, k => Value(p.edges, p.initial, outs, k))
  }

  lemma LacksSame<V>(p: Plan<V>, name: string, f: Key -> Option<V>, g: Key -> Option<V>)
    requires forall e | e in p.edges && e.toNode == name :: f(Source(e)) == g(Source(e))
    ensures Lacks(p, name, f) <==> Lacks(p, name, g)
  {
    forall port
      ensures Fires(p.edges, (name, port), f) <==> Fires(p.edges, (name, port), g)
    {
      FiresSame(p.edges, (name, port), f, g);
    }
  }

  lemma IdleSame<V>(p: Plan<V>, a: map<string, map<string, V>>, b: map<string, map<string, V>>, name: string)
    requires AgreeBefore(p.edges, name, a, b)
    ensures Idle(p, a, name) <==> Idle(p, b, name)
  {
    LacksSame(p, name, k => Value(p.edges, p.initial, a, k), k => Value(p.edges, p.initial, b, k));
  }

  // ---- solutions ----

  /** A gated node without its triggers is skipped; any other node computes from its inputs. */
  ghost predicate SolvedAt<V>(p: Plan<V>, gated: set<string>, outs: map<string, map<string, V>>, name: string) {
    if name in gated && Idle(p, outs, name) then name !in outs
    else name in outs && p.run(name, Inputs(p.edges, p.initial, outs, name)) == Ok(outs[name])
  }

  ghost predicate Solved<V>(p: Plan<V>, gated: set<string>, done: seq<string>, outs: map<string, map<string, V>>) {
    && (forall name | name in outs :: name in done)
    && forall name {:trigger SolvedAt(p, gated, outs, name)} | name in done :: SolvedAt(p, gated, outs, name)
  }

  /** Nodes in an order where the source of every edge comes before its target. */
  ghost predicate InOrder(edges: seq<Edge>, names: seq<string>) {
    names == [] || (InOrder(edges, names[..|names| - 1]) && Follows(edges, names[..|names| - 1], names[|names| - 1]))
  }

  ghost predicate Follows(edges: seq<Edge>, done: seq<string>, name: string) {
    name !in done && forall e | e in edges && e.toNode == name :: e.fromNode in done
  }

  lemma SameAt<V>(p: Plan<V>, gated: set<string>, name: string, a: map<string, map<string, V>>,
                  b: map<string, map<string, V>>)
    requires SolvedAt(p, gated, a, name) && SolvedAt(p, gated, b, name) && AgreeBefore(p.edges, name, a, b)
    ensures AgreeAt(a, b, name)
  {
    InputsSame(p.edges, p.initial, a, b, name);
    IdleSame(p, a, b, name);
  }

  ghost predicate SameOn<V>(names: seq<string>, a: map<string, map<string, V>>, b: map<string, map<string, V>>) {
    forall name | name in names :: AgreeAt(a, b, name)
  }

  lemma SolutionNext<V>(p: Plan<V>, gated: set<string>, done: seq<string>, init: seq<string>, last: string,
                        a: map<string, map<string, V>>, b: map<string, map<string, V>>)
    requires SameOn(init, a, b) && Follows(p.edges, init, last) && last in done
    requires Solved(p, gated, done, a) && Solved(p, gated, done, b)
    ensures AgreeAt(a, b, last)
  {
    assert AgreeBefore(p.edges, last, a, b);
    assert SolvedAt(p, gated, a, last) && SolvedAt(p, gated, b, last);
    SameAt(p, gated, last, a, b);
  }

  lemma {:induction false} SolutionSame<V>(p: Plan<V>, gated: set<string>, done: seq<string>, names: seq<string>,
                                           a: map<string, map<string, V>>, b: map<string, map<string, V>>)
    requires InOrder(p.edges, names) && (forall name | name in names :: name in done)
    requires Solved(p, gated, done, a) && Solved(p, gated, done, b)
    ensures SameOn(names, a, b)
  {
    if names != [] {
      var init, last := names[..|names| - 1], names[|names| - 1];
      SolutionSame(p, gated, done, init, a, b);
      SolutionNext(p, gated, done, init, last, a, b);
      assert names == init + [last];
    }
  }

  /** The equations of an acyclic graph have one solution, in whatever order its nodes run. */
  lemma SolutionUnique<V>(p: Plan<V>, gated: set<string>, names: seq<string>,
                          a: map<string, map<string, V>>, b: map<string, map<string, V>>)
    requires InOrder(p.edges, names) && Solved(p, gated, names, a) && Solved(p, gated, names, b)
    ensures a == b
  {
    SolutionSame(p, gated, names, names, a, b);
    forall name
      ensures name in a <==> name in b
      ensures name in a ==> a[name] == b[name]
    {
      assert name in names ==> AgreeAt(a, b, name);
    }
  }

  /** Skipping nodes without triggers changes the outcome exactly if it skips one. */
  lemma GatesMatter<V>(p: Plan<V>, gated: set<string>, names: seq<string>,
                       skipping: map<string, map<string, V>>, all: map<string, map<string, V>>)
    requires InOrder(p.edges, names) && Solved(p, gated, names, skipping) && Solved(p, {}, names, all)
    ensures skipping == all <==> forall name | name in names && name in gated :: !Idle(p, all, name)
  {
    if forall name | name in names && name in gated :: !Idle(p, all, name) {
      forall name | name in names
        ensures SolvedAt(p, gated, all, name)
      {
        assert SolvedAt(p, {}, all, name);
      }
      SolutionUnique(p, gated, names, skipping, all);
    }
    forall name | name in names && name in gated && Idle(p, all, name)
      ensures skipping != all
    {
      assert SolvedAt(p, gated, skipping, name) && SolvedAt(p, {}, all, name);
    }
  }

  /** A node that lacks its trigger runs alone or inline, and is skipped beside another task. */
  lemma GateSkips<V>(p: Plan<V>)
    requires p.edges == [] && p.initial == map[] && p.run("a", map[]) == p.run("b", map[]) == Ok(map[])
    requires p.ports("a") == [] && p.ports("b") == [PortDef("trigger", Trigger, true)]
    ensures Solved(p, {}, ["a", "b"], map["a" := map[], "b" := map[]])
    ensures Solved(p, {"a", "b"}, ["a", "b"], map["a" := map[]])
  {
    assert p.ports("b")[0] in p.ports("b");
    assert "trigger" in RequiredTriggers(p.ports("b"));
    assert RequiredTriggers(p.ports("a")) == {};
    assert Direct(p.edges, "a", p.initial) == map[] && Direct(p.edges, "b", p.initial) == map[];
  }

  lemma SilentEdge<V>(p: Plan<V>, outs: map<string, map<string, V>>)
    requires p.edges == [Edge("a", "done", "b", "trigger")] && p.initial == map[]
    requires "a" in outs && outs["a"] == map[]
    requires p.ports("b") == [PortDef("trigger", Trigger, true)]
    ensures Inputs(p.edges, p.initial, outs, "a") == Inputs(p.edges, p.initial, outs, "b") == map[]
    ensures Idle(p, outs, "b")
  {
    assert "a"[0] != "b"[0];
    forall port
      ensures port !in Inputs(p.edges, p.initial, outs, "a") && port !in Inputs(p.edges, p.initial, outs, "b")
    {
      SilentPort(p.edges, outs, "a", port);
      SilentPort(p.edges, outs, "b", port);
    }
    assert p.ports("b")[0] in p.ports("b");
    assert "trigger" in RequiredTriggers(p.ports("b"));
    assert !Fires(p.edges, ("b", "trigger"), k => Value(p.edges, p.initial, outs, k));
  }

  /** The same with an edge to the trigger whose source puts nothing out. */
  lemma SilentEdgeSkips<V>(p: Plan<V>)
    requires p.edges == [Edge("a", "done", "b", "trigger")] && p.initial == map[]
    requires p.run("a", map[]) == p.run("b", map[]) == Ok(map[])
    requires p.ports("a") == [] && p.ports("b") == [PortDef("trigger", Trigger, true)]
    ensures Solved(p, {}, ["a", "b"], map["a" := map[], "b" := map[]])
    ensures Solved(p, {"a", "b"}, ["a", "b"], map["a" := map[]])
  {
    assert RequiredTriggers(p.ports("a")) == {};
    SilentEdge(p, map["a" := map[], "b" := map[]]);
    SilentEdge(p, map["a" := map[]]);
  }

  // ---- evaluation in order ----

  ghost predicate SourcesIn(edges: seq<Edge>, done: seq<string>) {
    forall e | e in edges && e.toNode in done :: e.fromNode in done
  }

  lemma {:induction false} OrderedSources(edges: seq<Edge>, names: seq<string>)
    requires InOrder(edges, names)
    ensures SourcesIn(edges, names)
  {
    if names != [] {
      OrderedSources(edges, names[..|names| - 1]);
    }
  }

  lemma {:induction false} OrderedNames(edges: seq<Edge>, names: seq<string>)
    requires InOrder(edges, names)
    ensures NoDuplicates(names)
  {
    if names != [] {
      OrderedNames(edges, names[..|names| - 1]);
      assert forall i | 0 <= i < |names| - 1 :: names[i] in names[..|names| - 1];
    }
  }

  /** The equations of nodes that are done do not see a node that is not. */
  lemma SolvedMore<V>(p: Plan<V>, gated: set<string>, done: seq<string>, outs: map<string, map<string, V>>,
                      outs': map<string, map<string, V>>)
    requires SourcesIn(p.edges, done) && forall n | n in done :: AgreeAt(outs, outs', n)
    requires forall n | n in done :: SolvedAt(p, gated, outs, n)
    ensures forall n | n in done :: SolvedAt(p, gated, outs', n)
  {
    forall n | n in done
      ensures SolvedAt(p, gated, outs', n)
    {
      assert SolvedAt(p, gated, outs, n) && AgreeAt(outs, outs', n);
      assert AgreeBefore(p.edges, n, outs, outs');
      InputsSame(p.edges, p.initial, outs, outs', n);
      IdleSame(p, outs, outs', n);
    }
  }

  /** How far the nodes got: all of them, or up to one that failed. */
  datatype Progress<!V> =
    | Going(outs: map<string, map<string, V>>)
    | Stopped(outs: map<string, map<string, V>>, name: string, reason: string)

  ghost function Next<V>(p: Plan<V>, gated: set<string>, at: Progress<V>, name: string): Progress<V> {
    if at.Stopped? || (name in gated && Idle(p, at.outs, name)) then at
    else
      match p.run(name, Inputs(p.edges, p.initial, at.outs, name))
      case Ok(out) => Going(at.outs[name := out])
      case Err(reason) => Stopped(at.outs, name, reason)
  }

  /** One node after the other, each on the outputs of those before it, until one fails. */
  ghost function Eval<V>(p: Plan<V>, gated: set<string>, names: seq<string>): Progress<V> {
    if names == [] then Going(map[])
    else Next(p, gated, Eval(p, gated, names[..|names| - 1]), names[|names| - 1])
  }

  lemma EvalNext<V>(p: Plan<V>, gated: set<string>, done: seq<string>, name: string)
    ensures Eval(p, gated, done + [name]) == Next(p, gated, Eval(p, gated, done), name)
  {
    assert (done + [name])[..|done|] == done;
  }

  /** Without a failure, evaluation gives the solution of the equations. */
  lemma {:induction false} SolutionIsEval<V>(p: Plan<V>, gated: set<string>, names: seq<string>,
                                             outs: map<string, map<string, V>>)
    requires InOrder(p.edges, names) && Solved(p, gated, names, outs)
    ensures Eval(p, gated, names) == Going(outs)
  {
    if names == [] {
      assert outs == map[];
    } else {
      var init, last := names[..|names| - 1], names[|names| - 1];
      var before := outs - {last};
      OrderedSources(p.edges, init);
      assert forall n | n in init :: SolvedAt(p, gated, outs, n);
      SolvedMore(p, gated, init, outs, before);
      assert names == init + [last];
      SolutionIsEval(p, gated, init, before);
      LastSolved(p, gated, init, last, outs);
    }
  }

  lemma LastSolved<V>(p: Plan<V>, gated: set<string>, done: seq<string>, name: string,
                      outs: map<string, map<string, V>>)
    requires Follows(p.edges, done, name) && SolvedAt(p, gated, outs, name)
    ensures Next(p, gated, Going(outs - {name}), name) == Going(outs)
  {
    var before := outs - {name};
    assert AgreeBefore(p.edges, name, outs, before);
    InputsSame(p.edges, p.initial, outs, before, name);
    IdleSame(p, outs, before, name);
    if name in outs {
      assert before[name := outs[name]] == outs;
    } else {
      assert before == outs;
    }
  }

  lemma {:induction false} EvalStops<V>(p: Plan<V>, gated: set<string>, names: seq<string>, n: nat)
    requires n <= |names| && Eval(p, gated, names[..n]).Stopped?
    ensures Eval(p, gated, names) == Eval(p, gated, names[..n])
  {
    if n == |names| {
      assert names[..n] == names;
    } else {
      var init := names[..|names| - 1];
      assert init[..n] == names[..n];
      EvalStops(p, gated, init, n);
    }
  }

  // ---- two ways of gating ----

  lemma {:induction false} EvalKnows<V>(p: Plan<V>, gated: set<string>, names: seq<string>)
    ensures forall n | n in Eval(p, gated, names).outs :: n in names
    ensures Eval(p, gated, names).Stopped? ==> Eval(p, gated, names).name in names
  {
    if names != [] {
      var init := names[..|names| - 1];
      EvalKnows(p, gated, init);
      assert names == init + [names[|names| - 1]];
    }
  }

  /** No node that is reached without its triggers is gated on one side only. */
  ghost predicate NoClash<V>(p: Plan<V>, a: set<string>, b: set<string>, names: seq<string>) {
    names == [] ||
    var at, last := Eval(p, a, names[..|names| - 1]), names[|names| - 1];
    && NoClash(p, a, b, names[..|names| - 1])
    && (at.Going? && Idle(p, at.outs, last) ==> (last in a <==> last in b))
  }

  lemma NextKeeps<V>(p: Plan<V>, gated: set<string>, at: Progress<V>, name: string)
    requires name !in at.outs && (at.Stopped? ==> at.name != name)
    ensures var next := Next(p, gated, at, name);
            && next.outs - {name} == at.outs
            && (at.Stopped? <==> next.Stopped? && next.name != name) && (at.Stopped? ==> next == at)
  {
  }

  /** What differs before a new node differs after it. */
  lemma NextDiffers<V>(p: Plan<V>, a: set<string>, b: set<string>, x: Progress<V>, y: Progress<V>, name: string)
    requires x != y && name !in x.outs && name !in y.outs
    requires (x.Stopped? ==> x.name != name) && (y.Stopped? ==> y.name != name)
    ensures Next(p, a, x, name) != Next(p, b, y, name)
  {
    NextKeeps(p, a, x, name);
    NextKeeps(p, b, y, name);
  }

  lemma NextAgrees<V>(p: Plan<V>, a: set<string>, b: set<string>, at: Progress<V>, name: string)
    requires name !in at.outs
    ensures Next(p, a, at, name) == Next(p, b, at, name) <==>
            (at.Going? && Idle(p, at.outs, name) ==> (name in a <==> name in b))
  {
    if at.Going? {
      var result := p.run(name, Inputs(p.edges, p.initial, at.outs, name));
      assert result.Ok? ==> name in at.outs[name := result.value];
    }
  }

  /** Gating different nodes gives the same progress exactly when no clash is reached. */
  lemma {:induction false} EvalAgrees<V>(p: Plan<V>, a: set<string>, b: set<string>, names: seq<string>)
    requires NoDuplicates(names)
    ensures Eval(p, a, names) == Eval(p, b, names) <==> NoClash(p, a, b, names)
  {
    if names != [] {
      var init, last := names[..|names| - 1], names[|names| - 1];
      EvalAgrees(p, a, b, init);
      EvalKnows(p, a, init);
      EvalKnows(p, b, init);
      if NoClash(p, a, b, init) {
        NextAgrees(p, a, b, Eval(p, a, init), last);
      } else {
        NextDiffers(p, a, b, Eval(p, a, init), Eval(p, b, init), last);
      }
    }
  }

  /** Every gated node that is reached without gating has its triggers. */
  ghost predicate AllTriggered<V>(p: Plan<V>, gated: set<string>, names: seq<string>) {
    names == [] ||
    var init, last := names[..|names| - 1], names[|names| - 1];
    AllTriggered(p, gated, init) && (last in gated ==> TriggeredAt(p, init, last))
  }

  ghost predicate TriggeredAt<V>(p: Plan<V>, done: seq<string>, name: string) {
    var at := Eval(p, {}, done);
    at.Going? ==> !Idle(p, at.outs, name)
  }

  lemma {:induction false} NoClashTriggered<V>(p: Plan<V>, gated: set<string>, names: seq<string>)
    ensures NoClash(p, {}, gated, names) <==> AllTriggered(p, gated, names)
  {
    if names != [] {
      NoClashTriggered(p, gated, names[..|names| - 1]);
    }
  }

  /** Gating changes nothing exactly when every gated node that is reached has its triggers. */
  lemma GatingIsInvisible<V>(p: Plan<V>, gated: set<string>, names: seq<string>)
    requires NoDuplicates(names)
    ensures Eval(p, gated, names) == Eval(p, {}, names) <==> AllTriggered(p, gated, names)
  {
    EvalAgrees(p, {}, gated, names);
    NoClashTriggered(p, gated, names);
  }
}
