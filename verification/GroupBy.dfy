/**
 * Grouping of consecutive items with equal keys (common/src/group_by.rs). The outer iterator and
 * every group iterator it hands out advance one shared cursor.
 */
module GroupBy {
  import opened Results

  /** The peekable iterator and the key function, shared by all iterators. */
  class Shared<T, K> {
    const items: seq<T>
    const key: T -> K
    var pos: nat

    constructor (items: seq<T>, key: T -> K)
      ensures this.items == items && this.key == key && pos == 0
    {
      this.items, this.key, pos := items, key, 0;
    }

    ghost predicate Valid()
      reads this
    {
      pos <= |items|
    }

    function Peek(): (r: Option<T>)
      requires Valid()
      reads this
      ensures r.None? <==> pos == |items|
    {
      if pos < |items| then Some(items[pos]) else None
    }
  }

  class GroupByIterator<T, K(==)> {
    const inner: Shared<T, K>

    constructor (items: seq<T>, key: T -> K)
      ensures fresh(inner) && inner.Valid() && inner.items == items && inner.key == key && inner.pos == 0
    {
      inner := new Shared(items, key);
    }

    /** Opens a group for the item at the cursor, and leaves the cursor there. */
    method Next() returns (r: Option<(K, GroupIterator<T, K>)>)
      requires inner.Valid()
      ensures r.None? <==> inner.pos == |inner.items|
      ensures r.Some? ==> fresh(r.value.1) && r.value.1.inner == inner
                          && r.value.1.groupKey == r.value.0 == inner.key(inner.items[inner.pos])
    {
      var value := inner.Peek();
      if value.None? {
        return None;
      }
      var key := inner.key(value.value);
      var group := new GroupIterator(inner, key);
      r := Some((key, group));
    }
  }

  class GroupIterator<T, K(==)> {
    const inner: Shared<T, K>
    const groupKey: K

    constructor (inner: Shared<T, K>, groupKey: K)
      ensures this.inner == inner && this.groupKey == groupKey
    {
      this.inner, this.groupKey := inner, groupKey;
    }

    method Next() returns (r: Option<T>)
      requires inner.Valid()
      modifies inner
      ensures inner.Valid()
      ensures Drawn(inner.items, inner.key, old(inner.pos), groupKey) == (r, inner.pos)
    {
      var value := inner.Peek();
      if value.None? {
        return None;
      }
      if inner.key(value.value) == groupKey {
        r := value;
        inner.pos := inner.pos + 1;
      } else {
        r := None;
      }
    }

    /** Draws the rest of the group. */
    method Collect() returns (drawn: seq<T>)
      requires inner.Valid()
      modifies inner
      ensures inner.Valid() && old(inner.pos) <= inner.pos && drawn == inner.items[old(inner.pos)..inner.pos]
      ensures forall x | x in drawn :: inner.key(x) == groupKey
      ensures inner.pos < |inner.items| ==> inner.key(inner.items[inner.pos]) != groupKey
    {
      drawn := [];
      var item := Next();
      while item.Some?
        invariant inner.Valid() && old(inner.pos) <= inner.pos
        invariant drawn + (if item.Some? then [item.value] else []) == inner.items[old(inner.pos)..inner.pos]
        invariant item.Some? ==> inner.key(item.value) == groupKey
        invariant forall x | x in drawn :: inner.key(x) == groupKey
        invariant item.None? && inner.pos < |inner.items| ==> inner.key(inner.items[inner.pos]) != groupKey
        decreases |inner.items| - inner.pos, item.Some?
      {
        ghost var start, before := old(inner.pos), inner.pos;
        drawn := drawn + [item.value];
        item := Next();
        assert item.Some? ==> inner.items[start..inner.pos] == inner.items[start..before] + [item.value];
      }
    }
  }

  /** What a group with this key draws at a cursor position, and the next position. */
  function Drawn<T, K(==)>(items: seq<T>, key: T -> K, pos: nat, groupKey: K): (Option<T>, nat) {
    if pos < |items| && key(items[pos]) == groupKey then (Some(items[pos]), pos + 1) else (None, pos)
  }

  // ---- draining every group ----

  function Flatten<T, K>(groups: seq<(K, seq<T>)>): seq<T> {
    if groups == [] then [] else Flatten(groups[..|groups| - 1]) + groups[|groups| - 1].1
  }

  ghost predicate IsGroup<T, K>(key: T -> K, group: (K, seq<T>)) {
    group.1 != [] && forall x | x in group.1 :: key(x) == group.0
  }

  /** Non-empty runs of equal keys, none of which could be longer, that make up `items`. */
  ghost predicate AreRuns<T, K>(items: seq<T>, key: T -> K, groups: seq<(K, seq<T>)>) {
    && Flatten(groups) == items
    && (forall i | 0 <= i < |groups| :: IsGroup(key, groups[i]))
    && (forall i, j | 0 <= i && j == i + 1 < |groups| :: groups[i].0 != groups[j].0)
  }

  method CollectGroups<T, K(==)>(items: seq<T>, key: T -> K) returns (groups: seq<(K, seq<T>)>)
    ensures AreRuns(items, key, groups)
  {
    var iter := new GroupByIterator(items, key);
    var inner := iter.inner;
    groups := [];
    var next := iter.Next();
    while next.Some?
      invariant inner.Valid() && iter.inner == inner && inner.items == items && inner.key == key && fresh(inner)
      invariant AreRuns(items[..inner.pos], key, groups)
      invariant groups != [] && inner.pos < |items| ==> key(items[inner.pos]) != groups[|groups| - 1].0
      invariant next.None? <==> inner.pos == |items|
      invariant next.Some? ==> next.value.1.inner == inner
                               && next.value.1.groupKey == next.value.0 == key(items[inner.pos])
      decreases |items| - inner.pos
    {
      ghost var from := inner.pos;
      var (groupKey, group) := next.value;
      var drawn := group.Collect();
      RunsSnoc(items, key, groups, from, inner.pos, groupKey);
      groups := groups + [(groupKey, drawn)];
      next := iter.Next();
    }
    assert items[..inner.pos] == items;
  }

  lemma RunsSnoc<T, K>(items: seq<T>, key: T -> K, groups: seq<(K, seq<T>)>, from: nat, to: nat, k: K)
    requires from <= to <= |items| && AreRuns(items[..from], key, groups)
    requires IsGroup(key, (k, items[from..to])) && (groups != [] ==> groups[|groups| - 1].0 != k)
    ensures AreRuns(items[..to], key, groups + [(k, items[from..to])])
  {
    var more := groups + [(k, items[from..to])];
    assert more[..|groups|] == groups;
    assert items[..from] + items[from..to] == items[..to];
  }

  lemma LastRun<T, K>(items: seq<T>, key: T -> K, groups: seq<(K, seq<T>)>) returns (p: nat)
    requires AreRuns(items, key, groups) && groups != []
    ensures p < |items| && groups[|groups| - 1].1 == items[p..]
    ensures AreRuns(items[..p], key, groups[..|groups| - 1])
    ensures forall i | p <= i < |items| :: key(items[i]) == groups[|groups| - 1].0
    ensures p > 0 ==> key(items[p - 1]) != groups[|groups| - 1].0
  {
    var init, last := groups[..|groups| - 1], groups[|groups| - 1];
    p := |Flatten(init)|;
    assert items == Flatten(init) + last.1 && IsGroup(key, last);
    assert items[..p] == Flatten(init);
    assert forall i | p <= i < |items| :: items[i] in last.1;
    if p > 0 {
      assert init != [];
      var before := init[|init| - 1];
      assert IsGroup(key, groups[|init| - 1]);
      assert Flatten(init) == Flatten(init[..|init| - 1]) + before.1;
      assert items[p - 1] in before.1;
    }
  }

  /** There is only one way to cut the input into maximal runs. */
  lemma {:induction false} RunsUnique<T, K>(items: seq<T>, key: T -> K, a: seq<(K, seq<T>)>, b: seq<(K, seq<T>)>)
    requires AreRuns(items, key, a) && AreRuns(items, key, b)
    ensures a == b
    decreases |items|
  {
    if items == [] {
      if a != [] {
        var p := LastRun(items, key, a);
      }
      if b != [] {
        var p := LastRun(items, key, b);
      }
    } else {
      var p := LastRun(items, key, a);
      var q := LastRun(items, key, b);
      assert key(items[|items| - 1]) == a[|a| - 1].0 == b[|b| - 1].0;
      RunsUnique(items[..p], key, a[..|a| - 1], b[..|b| - 1]);
    }
  }

  // ---- any interleaving ----

  /** A caller advances the outer iterator or one of the groups opened so far. */
  datatype Call = Outer | Group(g: nat)

  /** For each open group its key and the cursor position it was opened at; the items drawn, by group. */
  datatype State<T, K> = State(pos: nat, open: seq<K>, at: seq<nat>, draws: seq<(nat, T)>)

  function Step<T, K(==)>(items: seq<T>, key: T -> K, s: State<T, K>, call: Call): State<T, K> {
    match call
    case Outer => if s.pos < |items| then s.(open := s.open + [key(items[s.pos])], at := s.at + [s.pos]) else s
    case Group(g) =>
      if g >= |s.open| then s
      else
        var (item, pos) := Drawn(items, key, s.pos, s.open[g]);
        if item.Some? then s.(pos := pos, draws := s.draws + [(g, item.value)]) else s
  }

  function Run<T, K(==)>(items: seq<T>, key: T -> K, calls: seq<Call>): State<T, K> {
    if calls == [] then State(0, [], [], [])
    else Step(items, key, Run(items, key, calls[..|calls| - 1]), calls[|calls| - 1])
  }

  ghost predicate InOrder<T, K>(items: seq<T>, key: T -> K, s: State<T, K>) {
    && |s.draws| == s.pos <= |items|
    && (forall i | 0 <= i < s.pos ::
          s.draws[i].1 == items[i] && s.draws[i].0 < |s.open| && key(items[i]) == s.open[s.draws[i].0])
    && |s.at| == |s.open|
    && (forall g | 0 <= g < |s.at| :: s.at[g] <= s.pos && s.at[g] < |items| && s.open[g] == key(items[s.at[g]]))
    && (forall i | 0 <= i < s.pos :: s.at[s.draws[i].0] <= i)
  }

  /** No call order loses, repeats or reorders an item, and a group only draws its own key. */
  lemma {:induction false} DrawsArePrefix<T, K>(items: seq<T>, key: T -> K, calls: seq<Call>)
    ensures InOrder(items, key, Run(items, key, calls))
  {
    if calls != [] {
      DrawsArePrefix(items, key, calls[..|calls| - 1]);
      StaysInOrder(items, key, Run(items, key, calls[..|calls| - 1]), calls[|calls| - 1]);
    }
  }

  lemma StaysInOrder<T, K>(items: seq<T>, key: T -> K, s: State<T, K>, call: Call)
    requires InOrder(items, key, s)
    ensures InOrder(items, key, Step(items, key, s, call))
  {
  }

  // ---- groups and runs ----

  ghost function Start<T, K>(runs: seq<(K, seq<T>)>, r: nat): nat
    requires r <= |runs|
  {
    |Flatten(runs[..r])|
  }

  /** Item `i` belongs to the maximal run `r`. */
  ghost predicate InRun<T, K>(runs: seq<(K, seq<T>)>, r: nat, i: nat) {
    r < |runs| && Start(runs, r) <= i < Start(runs, r + 1)
  }

  /** From `a` to `b` the key does not change. */
  ghost predicate SameKeys<T, K>(items: seq<T>, key: T -> K, a: nat, b: nat) {
    a <= b < |items| && forall m | a <= m <= b :: key(items[m]) == key(items[a])
  }

  lemma {:induction false} RunSlice<T, K>(runs: seq<(K, seq<T>)>, r: nat)
    requires r < |runs|
    ensures Start(runs, r + 1) == Start(runs, r) + |runs[r].1| <= |Flatten(runs)|
    ensures Flatten(runs)[Start(runs, r)..Start(runs, r + 1)] == runs[r].1
    decreases |runs|
  {
    var n := |runs| - 1;
    assert runs[..r + 1][..r] == runs[..r];
    if r < n {
      RunSlice(runs[..n], r);
      assert runs[..n][..r] == runs[..r] && runs[..n][..r + 1] == runs[..r + 1];
      assert Flatten(runs)[..|Flatten(runs[..n])|] == Flatten(runs[..n]);
    } else {
      assert runs[..r + 1] == runs;
    }
  }

  lemma RunKey<T, K>(items: seq<T>, key: T -> K, runs: seq<(K, seq<T>)>, r: nat, i: nat)
    requires AreRuns(items, key, runs) && InRun(runs, r, i)
    ensures i < |items| && key(items[i]) == runs[r].0
  {
    RunSlice(runs, r);
    assert IsGroup(key, runs[r]);
    assert items[i] == runs[r].1[i - Start(runs, r)];
  }

  /** Two items are in the same maximal run exactly when the key does not change between them. */
  lemma SameRun<T, K>(items: seq<T>, key: T -> K, runs: seq<(K, seq<T>)>, r: nat, a: nat, b: nat)
    requires AreRuns(items, key, runs) && InRun(runs, r, a) && a <= b < |items|
    ensures InRun(runs, r, b) <==> SameKeys(items, key, a, b)
  {
    RunKey(items, key, runs, r, a);
    if InRun(runs, r, b) {
      forall m | a <= m <= b
        ensures key(items[m]) == key(items[a])
      {
        RunKey(items, key, runs, r, m);
      }
    } else {
      NextRun(items, key, runs, r, b);
    }
  }

  lemma LastStart<T, K>(runs: seq<(K, seq<T>)>)
    ensures Start(runs, |runs|) == |Flatten(runs)|
  {
    assert runs[..|runs|] == runs;
  }

  lemma NextRun<T, K>(items: seq<T>, key: T -> K, runs: seq<(K, seq<T>)>, r: nat, b: nat)
    requires AreRuns(items, key, runs) && r < |runs| && Start(runs, r + 1) <= b < |items|
    ensures key(items[Start(runs, r + 1)]) != runs[r].0
  {
    LastStart(runs);
    RunSlice(runs, r + 1);
    assert IsGroup(key, runs[r + 1]);
    RunKey(items, key, runs, r + 1, Start(runs, r + 1));
  }

  /** Every item a group draws is in the run the group was opened on. */
  ghost predicate StaysInRun<T, K>(runs: seq<(K, seq<T>)>, s: State<T, K>) {
    forall i | 0 <= i < |s.draws| :: s.draws[i].0 < |s.at| && Together(runs, s.at[s.draws[i].0], i)
  }

  ghost predicate Together<T, K>(runs: seq<(K, seq<T>)>, a: nat, b: nat) {
    exists r :: InRun(runs, r, a) && InRun(runs, r, b)
  }

  /** The call draws from a group after an item of another key has been drawn since it was opened. */
  ghost predicate Stale<T, K>(items: seq<T>, key: T -> K, s: State<T, K>, call: Call) {
    && call.Group? && call.g < |s.open| && |s.at| == |s.open|
    && s.pos < |items| && key(items[s.pos]) == s.open[call.g]
    && exists m :: s.at[call.g] <= m < |s.draws| && key(s.draws[m].1) != s.open[call.g]
  }

  ghost predicate NeverStale<T, K>(items: seq<T>, key: T -> K, calls: seq<Call>) {
    calls == [] ||
    (NeverStale(items, key, calls[..|calls| - 1])
     && !Stale(items, key, Run(items, key, calls[..|calls| - 1]), calls[|calls| - 1]))
  }

  lemma {:induction false} InSomeRun<T, K>(runs: seq<(K, seq<T>)>, i: nat) returns (r: nat)
    requires i < |Flatten(runs)|
    ensures InRun(runs, r, i)
    decreases |runs|
  {
    var n := |runs| - 1;
    if i < |Flatten(runs[..n])| {
      r := InSomeRun(runs[..n], i);
      assert runs[..n][..r] == runs[..r] && runs[..n][..r + 1] == runs[..r + 1];
    } else {
      r := n;
      assert runs[..n + 1] == runs;
    }
  }

  lemma TogetherIff<T, K>(items: seq<T>, key: T -> K, runs: seq<(K, seq<T>)>, a: nat, b: nat)
    requires AreRuns(items, key, runs) && a <= b < |items|
    ensures Together(runs, a, b) <==> SameKeys(items, key, a, b)
  {
    var r := InSomeRun(runs, a);
    SameRun(items, key, runs, r, a, b);
    if Together(runs, a, b) {
      var r' :| InRun(runs, r', a) && InRun(runs, r', b);
      SameRun(items, key, runs, r', a, b);
    }
  }

  /** A draw stays in its group's run exactly when the call was not stale. */
  lemma DrawStays<T, K>(items: seq<T>, key: T -> K, runs: seq<(K, seq<T>)>, s: State<T, K>, g: nat)
    requires AreRuns(items, key, runs) && InOrder(items, key, s)
    requires g < |s.open| && s.pos < |items| && key(items[s.pos]) == s.open[g]
    ensures Together(runs, s.at[g], s.pos) <==> !Stale(items, key, s, Group(g))
  {
    TogetherIff(items, key, runs, s.at[g], s.pos);
    forall m | s.at[g] <= m < |s.draws|
      ensures key(s.draws[m].1) == key(items[m])
    {
    }
  }

  /** Groups stay in their runs exactly when no group is drawn from once another key has been. */
  lemma {:induction false} GroupsStay<T, K>(items: seq<T>, key: T -> K, runs: seq<(K, seq<T>)>, calls: seq<Call>)
    requires AreRuns(items, key, runs)
    ensures StaysInRun(runs, Run(items, key, calls)) <==> NeverStale(items, key, calls)
  {
    if calls != [] {
      var init, last := calls[..|calls| - 1], calls[|calls| - 1];
      GroupsStay(items, key, runs, init);
      DrawsArePrefix(items, key, init);
      LastCall(items, key, runs, Run(items, key, init), last);
    }
  }

  lemma MoreGroups<T, K>(runs: seq<(K, seq<T>)>, s: State<T, K>, s': State<T, K>)
    requires s'.draws == s.draws && s.at <= s'.at && forall i | 0 <= i < |s.draws| :: s.draws[i].0 < |s.at|
    ensures StaysInRun(runs, s') <==> StaysInRun(runs, s)
  {
    assert forall i | 0 <= i < |s.draws| :: s'.at[s.draws[i].0] == s.at[s.draws[i].0];
  }

  lemma MoreDraws<T, K>(runs: seq<(K, seq<T>)>, s: State<T, K>, s': State<T, K>, g: nat, item: T)
    requires s'.draws == s.draws + [(g, item)] && s'.at == s.at && g < |s.at|
    ensures StaysInRun(runs, s') <==> StaysInRun(runs, s) && Together(runs, s.at[g], |s.draws|)
  {
    assert s'.draws[|s.draws|] == (g, item);
    assert forall i | 0 <= i < |s.draws| :: s'.draws[i] == s.draws[i];
  }

  lemma LastCall<T, K>(items: seq<T>, key: T -> K, runs: seq<(K, seq<T>)>, s: State<T, K>, call: Call)
    requires AreRuns(items, key, runs) && InOrder(items, key, s)
    ensures StaysInRun(runs, Step(items, key, s, call)) <==> StaysInRun(runs, s) && !Stale(items, key, s, call)
  {
    if call.Group? && call.g < |s.open| && s.pos < |items| && key(items[s.pos]) == s.open[call.g] {
      DrawStays(items, key, runs, s, call.g);
      MoreDraws(runs, s, Step(items, key, s, call), call.g, items[s.pos]);
    } else {
      MoreGroups(runs, s, Step(items, key, s, call));
    }
  }

  /** All items a group draws are in one run, be it the one it was opened on or a later one. */
  ghost predicate OneRunEach<T, K>(runs: seq<(K, seq<T>)>, s: State<T, K>) {
    forall i, j | 0 <= i < j < |s.draws| && s.draws[i].0 == s.draws[j].0 :: Together(runs, i, j)
  }

  /** The call draws from a group after an item of another key has been drawn since its first draw. */
  ghost predicate Splits<T, K>(items: seq<T>, key: T -> K, s: State<T, K>, call: Call) {
    && call.Group? && call.g < |s.open| && s.pos < |items| && key(items[s.pos]) == s.open[call.g]
    && exists i, m :: 0 <= i < m < |s.draws| && s.draws[i].0 == call.g && key(s.draws[m].1) != s.open[call.g]
  }

  ghost predicate NeverSplits<T, K>(items: seq<T>, key: T -> K, calls: seq<Call>) {
    calls == [] ||
    (NeverSplits(items, key, calls[..|calls| - 1])
     && !Splits(items, key, Run(items, key, calls[..|calls| - 1]), calls[|calls| - 1]))
  }

  lemma DrawTogether<T, K>(items: seq<T>, key: T -> K, runs: seq<(K, seq<T>)>, s: State<T, K>, i: nat)
    requires AreRuns(items, key, runs) && InOrder(items, key, s)
    requires i < s.pos < |items| && key(items[s.pos]) == key(items[i])
    ensures Together(runs, i, s.pos) <==> forall m | i < m < |s.draws| :: key(s.draws[m].1) == key(items[i])
  {
    TogetherIff(items, key, runs, i, s.pos);
    forall m | i < m < |s.draws|
      ensures key(s.draws[m].1) == key(items[m])
    {
    }
  }

  lemma LastDraw<T, K>(items: seq<T>, key: T -> K, runs: seq<(K, seq<T>)>, s: State<T, K>, g: nat)
    requires AreRuns(items, key, runs) && InOrder(items, key, s)
    requires g < |s.open| && s.pos < |items| && key(items[s.pos]) == s.open[g]
    ensures Splits(items, key, s, Group(g)) <==>
            !forall i | 0 <= i < |s.draws| && s.draws[i].0 == g :: Together(runs, i, s.pos)
  {
    forall i | 0 <= i < |s.draws| && s.draws[i].0 == g
      ensures Together(runs, i, s.pos) <==> forall m | i < m < |s.draws| :: key(s.draws[m].1) == s.open[g]
    {
      DrawTogether(items, key, runs, s, i);
    }
  }

  lemma LastCallShares<T, K>(items: seq<T>, key: T -> K, runs: seq<(K, seq<T>)>, s: State<T, K>, call: Call)
    requires AreRuns(items, key, runs) && InOrder(items, key, s)
    ensures OneRunEach(runs, Step(items, key, s, call)) <==> OneRunEach(runs, s) && !Splits(items, key, s, call)
  {
    if call.Group? && call.g < |s.open| && s.pos < |items| && key(items[s.pos]) == s.open[call.g] {
      LastDraw(items, key, runs, s, call.g);
      OneMoreDraw(runs, s, Step(items, key, s, call), call.g, items[s.pos]);
    }
  }

  lemma OneMoreDraw<T, K>(runs: seq<(K, seq<T>)>, s: State<T, K>, s': State<T, K>, g: nat, item: T)
    requires s'.draws == s.draws + [(g, item)]
    ensures OneRunEach(runs, s') <==>
            OneRunEach(runs, s) && forall i | 0 <= i < |s.draws| && s.draws[i].0 == g :: Together(runs, i, |s.draws|)
  {
    assert s'.draws[|s.draws|] == (g, item);
    assert forall i | 0 <= i < |s.draws| :: s'.draws[i] == s.draws[i];
  }

  /** Every group draws from one run exactly when no group draws once another key has been since its first draw. */
  lemma {:induction false} DrawsShareRun<T, K>(items: seq<T>, key: T -> K, runs: seq<(K, seq<T>)>, calls: seq<Call>)
    requires AreRuns(items, key, runs)
    ensures OneRunEach(runs, Run(items, key, calls)) <==> NeverSplits(items, key, calls)
  {
    if calls != [] {
      var init, last := calls[..|calls| - 1], calls[|calls| - 1];
      DrawsShareRun(items, key, runs, init);
      DrawsArePrefix(items, key, init);
      LastCallShares(items, key, runs, Run(items, key, init), last);
    }
  }

  // ---- a rule for callers ----

  /** Only the group opened last is called. */
  ghost predicate LatestOnly<T, K>(items: seq<T>, key: T -> K, calls: seq<Call>) {
    calls == [] ||
    (LatestOnly(items, key, calls[..|calls| - 1])
     && (calls[|calls| - 1].Group? ==> calls[|calls| - 1].g + 1 >= |Run(items, key, calls[..|calls| - 1]).open|))
  }

  ghost predicate LatestDraws<T, K>(s: State<T, K>) {
    |s.at| == |s.open| &&
    (s.open != [] ==> forall m | s.at[|s.at| - 1] <= m < |s.draws| :: s.draws[m].0 == |s.open| - 1)
  }

  /** Calling only the group opened last keeps every group in its run. */
  lemma {:induction false} LatestStays<T, K>(items: seq<T>, key: T -> K, calls: seq<Call>)
    requires LatestOnly(items, key, calls)
    ensures NeverStale(items, key, calls) && LatestDraws(Run(items, key, calls))
  {
    if calls != [] {
      var init := calls[..|calls| - 1];
      LatestStays(items, key, init);
      DrawsArePrefix(items, key, init);
      LatestNotStale(items, key, Run(items, key, init), calls[|calls| - 1]);
      LatestStep(items, key, Run(items, key, init), calls[|calls| - 1]);
    }
  }

  /** So a caller that leaves a group for good when opening the next one gets the runs. */
  lemma LatestInRun<T, K>(items: seq<T>, key: T -> K, runs: seq<(K, seq<T>)>, calls: seq<Call>)
    requires AreRuns(items, key, runs) && LatestOnly(items, key, calls)
    ensures StaysInRun(runs, Run(items, key, calls))
  {
    LatestStays(items, key, calls);
    GroupsStay(items, key, runs, calls);
  }

  lemma LatestNotStale<T, K>(items: seq<T>, key: T -> K, s: State<T, K>, call: Call)
    requires InOrder(items, key, s) && LatestDraws(s) && (call.Group? ==> call.g + 1 >= |s.open|)
    ensures !Stale(items, key, s, call)
  {
  }

  lemma LatestStep<T, K>(items: seq<T>, key: T -> K, s: State<T, K>, call: Call)
    requires |s.draws| == s.pos && LatestDraws(s) && (call.Group? ==> call.g + 1 >= |s.open|)
    ensures LatestDraws(Step(items, key, s, call))
  {
  }

  /** A group left open takes items of a later run with its key. */
  lemma OldGroupStillDraws()
    ensures Run([1, 2, 1], (x: int) => x, [Outer, Group(0), Outer, Group(1), Group(0)]).draws ==
            [(0, 1), (1, 2), (0, 1)]
  {
    var items, key := [1, 2, 1], (x: int) => x;
    var calls := [Outer, Group(0), Outer, Group(1), Group(0)];
    assert Run(items, key, calls[..0]) == State(0, [], [], []);
    RunNext(items, key, calls, 0);
    RunNext(items, key, calls, 1);
    RunNext(items, key, calls, 2);
    RunNext(items, key, calls, 3);
    RunNext(items, key, calls, 4);
    assert calls[..5] == calls;
  }

  lemma RunNext<T, K>(items: seq<T>, key: T -> K, calls: seq<Call>, i: nat)
    requires i < |calls|
    ensures Run(items, key, calls[..i + 1]) == Step(items, key, Run(items, key, calls[..i]), calls[i])
  {
    assert calls[..i + 1][..i] == calls[..i];
  }

  /** The iterators take the steps of `Run`. */
  method Drive<T, K(==)>(items: seq<T>, key: T -> K, calls: seq<Call>) returns (draws: seq<(nat, T)>)
    ensures draws == Run(items, key, calls).draws
  {
    var iter := new GroupByIterator(items, key);
    var inner := iter.inner;
    var groups: seq<GroupIterator<T, K>> := [];
    ghost var at: seq<nat> := [];
    draws := [];
    for i := 0 to |calls|
      invariant inner.Valid() && iter.inner == inner && inner.items == items && inner.key == key && fresh(inner)
      invariant forall g | 0 <= g < |groups| :: groups[g].inner == inner
      invariant Run(items, key, calls[..i]) == State(inner.pos, Keys(groups), at, draws)
    {
      assert calls[..i + 1][..i] == calls[..i];
      match calls[i]
      case Outer =>
        var next := iter.Next();
        if next.Some? {
          groups, at := groups + [next.value.1], at + [inner.pos];
        }
      case Group(g) =>
        if g < |groups| {
          var item := groups[g].Next();
          if item.Some? {
            draws := draws + [(g, item.value)];
          }
        }
    }
    assert calls[..|calls|] == calls;
  }

  function Keys<T, K(==)>(groups: seq<GroupIterator<T, K>>): seq<K> {
    seq(|groups|, i requires 0 <= i < |groups| => groups[i].groupKey)
  }
}
