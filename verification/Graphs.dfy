/** Finite directed graphs on node indices: walks, cycles, and the layering by longest walk. */
module Graphs {

  type Graph = set<(nat, nat)>

  ghost predicate Walk(g: Graph, p: seq<nat>) {
    && |p| > 0
    && forall i, j | 0 <= i && j == i + 1 < |p| :: (p[i], p[j]) in g
  }

  ghost predicate WalkTo(g: Graph, p: seq<nat>, v: nat) {
    Walk(g, p) && p[|p| - 1] == v
  }

  /** Some non-trivial walk returns to its start; a self-loop is a cycle. */
  ghost predicate Cyclic(g: Graph) {
    exists p :: Walk(g, p) && |p| >= 2 && p[0] == p[|p| - 1]
  }

  /** The longest walk ending in `v` has exactly `k` edges. */
  ghost predicate HasDepth(g: Graph, v: nat, k: nat) {
    && (exists p :: WalkTo(g, p, v) && |p| == k + 1)
    && (forall p | WalkTo(g, p, v) :: |p| <= k + 1)
  }

  ghost predicate NoDuplicates<T>(s: seq<T>) {
    forall i, j | 0 <= i < j < |s| :: s[i] != s[j]
  }

  ghost function Elements<T>(s: seq<T>): set<T> {
    set x | x in s
  }

  ghost function NodesOf(levels: seq<seq<nat>>): set<nat> {
    if levels == [] then {} else NodesOf(levels[..|levels| - 1]) + Elements(levels[|levels| - 1])
  }

  /** Predecessors of `v` among the first `n` nodes that are not in `done`. */
  ghost function Waiting(g: Graph, n: nat, done: set<nat>, v: nat): set<nat> {
    set u | 0 <= u < n && u !in done && (u, v) in g
  }

  ghost predicate HasPredecessorIn(g: Graph, s: set<nat>, v: nat) {
    exists u :: u in s && (u, v) in g
  }

  /** `v` lies in a level before `k`. */
  ghost predicate Before(levels: seq<seq<nat>>, k: nat, v: nat)
    requires k <= |levels|
  {
    exists j :: 0 <= j < k && v in levels[j]
  }

  /** No node is in two levels; all predecessors of a node lie in earlier levels, and past the
      first level one of them lies in the level just before. */
  ghost predicate Layered(g: Graph, levels: seq<seq<nat>>) {
    && (forall i, v | 0 <= i < |levels| && v in levels[i] :: !Before(levels, i, v))
    && (forall i, u, v | 0 <= i < |levels| && v in levels[i] && (u, v) in g :: Before(levels, i, u))
    && (forall i, j, v | 0 <= j && i == j + 1 < |levels| && v in levels[i] ::
          HasPredecessorIn(g, Elements(levels[j]), v))
  }

  lemma InSomeLevel(levels: seq<seq<nat>>, v: nat)
    ensures v in NodesOf(levels) <==> Before(levels, |levels|, v)
  {
    if levels != [] {
      var k := |levels| - 1;
      InSomeLevel(levels[..k], v);
      if v in levels[k] {
        assert Before(levels, |levels|, v);
      }
      if Before(levels[..k], k, v) {
        var j :| 0 <= j < k && v in levels[..k][j];
        assert v in levels[j];
      }
      if Before(levels, |levels|, v) && v !in levels[k] {
        var j :| 0 <= j < |levels| && v in levels[j];
        assert v in levels[..k][j];
      }
    }
  }

  /** Along a walk the level rises with every edge. */
  lemma {:induction false} WalkClimbs(g: Graph, levels: seq<seq<nat>>, p: seq<nat>, i: nat) returns (j: nat)
    requires Layered(g, levels)
    requires Walk(g, p) && i < |levels| && p[|p| - 1] in levels[i]
    ensures j < |levels| && p[0] in levels[j] && j + |p| - 1 <= i
    decreases |p|
  {
    if |p| == 1 {
      j := i;
    } else {
      var q := p[..|p| - 1];
      assert (p[|p| - 2], p[|p| - 1]) in g;
      assert Before(levels, i, p[|p| - 2]);
      var k :| 0 <= k < i && p[|p| - 2] in levels[k];
      j := WalkClimbs(g, levels, q, k);
    }
  }

  lemma {:induction false} WalkDown(g: Graph, levels: seq<seq<nat>>, v: nat, i: nat) returns (p: seq<nat>)
    requires Layered(g, levels)
    requires i < |levels| && v in levels[i]
    ensures WalkTo(g, p, v) && |p| == i + 1
    decreases i
  {
    if i == 0 {
      p := [v];
    } else {
      assert HasPredecessorIn(g, Elements(levels[i - 1]), v);
      var u :| u in Elements(levels[i - 1]) && (u, v) in g;
      var q := WalkDown(g, levels, u, i - 1);
      p := q + [v];
    }
  }

  /** In a layering the level of a node is the length of the longest walk that reaches it. */
  lemma LevelIsDepth(g: Graph, levels: seq<seq<nat>>, v: nat, i: nat)
    requires Layered(g, levels)
    requires i < |levels| && v in levels[i]
    ensures HasDepth(g, v, i)
  {
    var w := WalkDown(g, levels, v, i);
    forall p | WalkTo(g, p, v) ensures |p| <= i + 1 {
      var j := WalkClimbs(g, levels, p, i);
    }
  }

  lemma DepthIsUnique(g: Graph, v: nat, i: nat, j: nat)
    requires HasDepth(g, v, i) && HasDepth(g, v, j)
    ensures i == j
  {
    var p :| WalkTo(g, p, v) && |p| == i + 1;
    var q :| WalkTo(g, q, v) && |q| == j + 1;
  }

  /** A graph whose nodes are all layered has no cycle. */
  lemma LayeredIsAcyclic(g: Graph, levels: seq<seq<nat>>)
    requires Layered(g, levels)
    requires forall e | e in g :: e.1 in NodesOf(levels)
    ensures !Cyclic(g)
  {
    if Cyclic(g) {
      var p :| Walk(g, p) && |p| >= 2 && p[0] == p[|p| - 1];
      var v := p[|p| - 1];
      assert (p[|p| - 2], v) in g;
      InSomeLevel(levels, v);
      var i :| 0 <= i < |levels| && v in levels[i];
      var j := WalkClimbs(g, levels, p, i);
    }
  }

  lemma {:induction false} Pigeonhole(p: seq<nat>, s: set<nat>) returns (i: nat, j: nat)
    requires forall x | x in p :: x in s
    requires |p| > |s|
    ensures i < j < |p| && p[i] == p[j]
    decreases |p|
  {
    var last, rest := p[|p| - 1], p[..|p| - 1];
    if last in rest {
      i, j := var i :| 0 <= i < |rest| && rest[i] == last; i, |p| - 1;
    } else {
      assert last in p;
      i, j := Pigeonhole(rest, s - {last});
    }
  }

  /** Prepending predecessors yields walks of any length inside `s`. */
  lemma {:induction false} BackwardWalk(g: Graph, s: set<nat>, k: nat) returns (p: seq<nat>)
    requires s != {}
    requires forall v | v in s :: HasPredecessorIn(g, s, v)
    ensures Walk(g, p) && |p| == k + 1 && forall x | x in p :: x in s
  {
    if k == 0 {
      var v :| v in s;
      p := [v];
    } else {
      var q := BackwardWalk(g, s, k - 1);
      assert q[0] in q;
      var u :| u in s && (u, q[0]) in g;
      p := [u] + q;
    }
  }

  /** A non-empty set in which every node has a predecessor in the set contains a cycle. */
  lemma StuckIsCyclic(g: Graph, s: set<nat>)
    requires s != {}
    requires forall v | v in s :: HasPredecessorIn(g, s, v)
    ensures Cyclic(g)
  {
    var p := BackwardWalk(g, s, |s|);
    var i, j := Pigeonhole(p, s);
    var c := p[i..j + 1];
    assert Walk(g, c) by {
      forall a, b | 0 <= a && b == a + 1 < |c| ensures (c[a], c[b]) in g {
        assert c[a] == p[i + a] && c[b] == p[i + b];
      }
    }
    assert c[0] == c[|c| - 1];
  }

  lemma BeforeSnoc(levels: seq<seq<nat>>, next: seq<nat>, i: nat, v: nat)
    requires i <= |levels|
    ensures Before(levels + [next], i, v) <==> Before(levels, i, v)
  {
    var all := levels + [next];
    if Before(levels, i, v) {
      var j :| 0 <= j < i && v in levels[j];
      assert v in all[j];
    }
    if Before(all, i, v) {
      var j :| 0 <= j < i && v in all[j];
      assert v in levels[j];
    }
  }

  /** Appending a level of nodes whose predecessors are all placed keeps the layering. */
  lemma LayeredSnoc(g: Graph, levels: seq<seq<nat>>, next: seq<nat>)
    requires Layered(g, levels)
    requires forall v | v in next :: v !in NodesOf(levels)
    requires forall u, v | v in next && (u, v) in g :: u in NodesOf(levels)
    requires levels != [] ==> forall v | v in next :: HasPredecessorIn(g, Elements(levels[|levels| - 1]), v)
    ensures Layered(g, levels + [next])
    ensures NodesOf(levels + [next]) == NodesOf(levels) + Elements(next)
  {
    var all, n := levels + [next], |levels|;
    assert all[..n] == levels;
    forall i, v | 0 <= i < |all| && v in all[i] ensures !Before(all, i, v) {
      BeforeSnoc(levels, next, i, v);
      if i == n {
        InSomeLevel(levels, v);
      }
    }
    forall i, u, v | 0 <= i < |all| && v in all[i] && (u, v) in g ensures Before(all, i, u) {
      BeforeSnoc(levels, next, i, u);
      if i == n {
        InSomeLevel(levels, u);
      }
    }
  }
}
