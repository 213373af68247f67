/**
 * Sorted-string tables (sstable/src): a writer stores each key as a change to the key before it,
 * in blocks with a separator behind each, and a reader finds a key from the separators and the
 * changes, without rebuilding keys.
 */
module SortedTables {
  import opened Results
  import opened Bits

  type Term = seq<byte>

  // ---- byte-wise order ----

  predicate Less(a: Term, b: Term) {
    b != [] && (a == [] || a[0] < b[0] || (a[0] == b[0] && Less(a[1..], b[1..])))
  }

  lemma {:induction false} LessTotal(a: Term, b: Term)
    ensures Less(a, b) || Less(b, a) || a == b
  {
    if a != [] && b != [] && a[0] == b[0] {
      LessTotal(a[1..], b[1..]);
      assert a == [a[0]] + a[1..] && b == [b[0]] + b[1..];
    }
  }

  lemma {:induction false} LessTransitive(a: Term, b: Term, c: Term)
    requires Less(a, b) && Less(b, c)
    ensures Less(a, c)
  {
    if a != [] && a[0] == b[0] == c[0] {
      LessTransitive(a[1..], b[1..], c[1..]);
    }
  }

  lemma {:induction false} LessIrreflexive(a: Term)
    ensures !Less(a, a)
  {
    if a != [] {
      LessIrreflexive(a[1..]);
    }
  }

  lemma LessAsymmetric(a: Term, b: Term)
    requires Less(a, b)
    ensures !Less(b, a) && a != b
  {
    LessIrreflexive(a);
    if Less(b, a) {
      LessTransitive(a, b, a);
    }
  }

  lemma NotLessTransitive(a: Term, b: Term, c: Term)
    requires !Less(b, a) && !Less(c, b)
    ensures !Less(c, a)
  {
    if Less(c, a) {
      LessTotal(a, b);
      if a != b {
        LessTransitive(c, a, b);
      }
    }
  }

  /** `a <= b < c`. */
  lemma NotLessThenLess(a: Term, b: Term, c: Term)
    requires !Less(b, a) && Less(b, c)
    ensures Less(a, c)
  {
    LessTotal(a, b);
    if a != b {
      LessTransitive(a, b, c);
    }
  }

  /** `a < b <= c`. */
  lemma LessThenNotLess(a: Term, b: Term, c: Term)
    requires Less(a, b) && !Less(c, b)
    ensures Less(a, c)
  {
    LessTotal(b, c);
    if b != c {
      LessTransitive(a, b, c);
    }
  }

  /** The longest common prefix. */
  function CommonPrefix(a: Term, b: Term): (k: nat)
    ensures k <= |a| && k <= |b| && a[..k] == b[..k]
    ensures k < |a| && k < |b| ==> a[k] != b[k]
  {
    if a == [] || b == [] || a[0] != b[0] then 0
    else
      var k := 1 + CommonPrefix(a[1..], b[1..]);
      assert a[..k] == [a[0]] + a[1..][..k - 1] && b[..k] == [b[0]] + b[1..][..k - 1];
      k
  }

  lemma CommonPrefixIs(a: Term, b: Term, k: nat)
    requires k <= |a| && k <= |b| && a[..k] == b[..k] && (k < |a| && k < |b| ==> a[k] != b[k])
    ensures CommonPrefix(a, b) == k
  {
    var c := CommonPrefix(a, b);
    assert forall i | 0 <= i < c :: a[..c][i] == b[..c][i];
    assert forall i | 0 <= i < k :: a[..k][i] == b[..k][i];
  }

  /** The order is decided where the common prefix ends. */
  lemma {:induction false} LessByPrefix(a: Term, b: Term)
    ensures var k := CommonPrefix(a, b);
            Less(a, b) <==> k < |b| && (k == |a| || a[k] < b[k])
  {
    if a != [] && b != [] && a[0] == b[0] {
      LessByPrefix(a[1..], b[1..]);
    }
  }

  lemma LessAt(a: Term, b: Term, k: nat)
    requires k <= |a| && k < |b| && a[..k] == b[..k] && (k == |a| || a[k] < b[k])
    ensures Less(a, b)
  {
    CommonPrefixIs(a, b, k);
    LessByPrefix(a, b);
  }

  predicate Ascending(keys: seq<Term>) {
    forall i, j | 0 <= i < j < |keys| :: Less(keys[i], keys[j])
  }

  // ---- a block as changes ----

  /** A key as the length it shares with the key before it, and the rest. */
  datatype Delta = Delta(keep: nat, suffix: Term)

  function Before(keys: seq<Term>, i: nat): Term
    requires i <= |keys|
  {
    if i == 0 then [] else keys[i - 1]
  }

  function Change(previous: Term, key: Term): Delta {
    var keep := CommonPrefix(previous, key);
    Delta(keep, key[keep..])
  }

  function DeltaAt(keys: seq<Term>, i: nat): Delta
    requires i < |keys|
  {
    Change(Before(keys, i), keys[i])
  }

  /** What is written for the keys of a block. */
  function DeltasOf(keys: seq<Term>): seq<Delta> {
    seq(|keys|, i requires 0 <= i < |keys| => DeltaAt(keys, i))
  }

  function LastKey(deltas: seq<Delta>): Term {
    if deltas == [] then []
    else
      var before, d := LastKey(deltas[..|deltas| - 1]), deltas[|deltas| - 1];
      (if d.keep <= |before| then before[..d.keep] else before) + d.suffix
  }

  /** The keys a reader rebuilds. */
  function ReadKeys(deltas: seq<Delta>): seq<Term> {
    if deltas == [] then [] else ReadKeys(deltas[..|deltas| - 1]) + [LastKey(deltas)]
  }

  lemma DeltasSnoc(keys: seq<Term>, key: Term)
    ensures DeltasOf(keys + [key]) == DeltasOf(keys) + [Change(Before(keys, |keys|), key)]
  {
    var keys' := keys + [key];
    assert forall i | 0 <= i <= |keys| :: Before(keys', i) == Before(keys, i);
  }

  lemma ReadSnoc(deltas: seq<Delta>, keep: nat, key: Term)
    requires keep <= |key| && keep <= |LastKey(deltas)| && LastKey(deltas)[..keep] == key[..keep]
    ensures LastKey(deltas + [Delta(keep, key[keep..])]) == key
    ensures ReadKeys(deltas + [Delta(keep, key[keep..])]) == ReadKeys(deltas) + [key]
  {
    assert (deltas + [Delta(keep, key[keep..])])[..|deltas|] == deltas;
    assert key[..keep] + key[keep..] == key;
  }

  lemma ReadsOneMore(keys: seq<Term>, key: Term, deltas: seq<Delta>)
    requires deltas == DeltasOf(keys) && ReadKeys(deltas) == keys && LastKey(deltas) == Before(keys, |keys|)
    ensures ReadKeys(DeltasOf(keys + [key])) == keys + [key] && LastKey(DeltasOf(keys + [key])) == key
  {
    DeltasSnoc(keys, key);
    ReadSnoc(deltas, CommonPrefix(LastKey(deltas), key), key);
  }

  /** A reader gets every key back, whatever their order. */
  lemma {:induction false} ReadsBack(keys: seq<Term>)
    ensures ReadKeys(DeltasOf(keys)) == keys && LastKey(DeltasOf(keys)) == Before(keys, |keys|)
  {
    if keys != [] {
      var init, last := keys[..|keys| - 1], keys[|keys| - 1];
      assert keys == init + [last];
      ReadsBack(init);
      ReadsOneMore(init, last, DeltasOf(init));
    }
  }

  // ---- the order of insertion ----

  /** The writer's test; `None` is an index out of range. */
  function IncreasingKeys(previous: Term, key: Term): Option<bool> {
    var keep := CommonPrefix(previous, key);
    if |key| > keep && |previous| == keep then Some(true)
    else if previous == [] then Some(true)
    else if keep >= |previous| || keep >= |key| then None
    else Some(previous[keep] < key[keep])
  }

  /** It accepts the keys above the previous one and, after an empty key, everything. */
  lemma IncreasingIsLess(previous: Term, key: Term)
    ensures IncreasingKeys(previous, key) == Some(true) <==> previous == [] || Less(previous, key)
    ensures IncreasingKeys(previous, key) == None <==> previous != [] && key <= previous
  {
    var keep := CommonPrefix(previous, key);
    LessByPrefix(previous, key);
    assert keep == |key| ==> key[..keep] == key;
    if key <= previous {
      CommonPrefixIs(previous, key, |key|);
    }
  }

  /** Each key above the one before it, except that an empty key may be repeated. */
  predicate Ordered(keys: seq<Term>) {
    forall i {:trigger OrderedAt(keys, i)} | 0 < i < |keys| :: OrderedAt(keys, i)
  }

  predicate OrderedAt(keys: seq<Term>, i: nat)
    requires 0 < i < |keys|
  {
    keys[i - 1] == [] || Less(keys[i - 1], keys[i])
  }

  lemma {:induction false} OrderedNotLess(keys: seq<Term>, i: nat, j: nat)
    requires Ordered(keys) && i < j < |keys|
    ensures !Less(keys[j], keys[i])
    decreases j
  {
    assert OrderedAt(keys, j);
    if keys[j - 1] != [] {
      LessAsymmetric(keys[j - 1], keys[j]);
    }
    if i < j - 1 {
      OrderedNotLess(keys, i, j - 1);
      NotLessTransitive(keys[i], keys[j - 1], keys[j]);
    }
  }

  /** Ordered keys, written as changes. */
  predicate Written(deltas: seq<Delta>) {
    AreChanges(deltas, ReadKeys(deltas)) && Ordered(ReadKeys(deltas))
  }

  predicate AreChanges(deltas: seq<Delta>, keys: seq<Term>) {
    && |deltas| == |keys|
    && forall i {:trigger IsChange(deltas, keys, i)} | 0 <= i < |keys| :: IsChange(deltas, keys, i)
  }

  predicate IsChange(deltas: seq<Delta>, keys: seq<Term>, i: nat)
    requires i < |deltas| == |keys|
  {
    deltas[i] == DeltaAt(keys, i)
  }

  lemma WrittenIsDeltas(deltas: seq<Delta>)
    ensures Written(deltas) <==> deltas == DeltasOf(ReadKeys(deltas)) && Ordered(ReadKeys(deltas))
  {
    var keys := ReadKeys(deltas);
    assert forall i | 0 <= i < |deltas| == |keys| :: IsChange(deltas, keys, i) <==> deltas[i] == DeltaAt(keys, i);
  }

  // ---- searching a block ----

  datatype Hit = Exact(ord: nat) | Next(ord: nat)

  /** The first key that is not below the searched one, and whether it is that one. */
  predicate IsHit(keys: seq<Term>, key: Term, hit: Hit) {
    && hit.ord <= |keys|
    && (forall i | 0 <= i < hit.ord :: Less(keys[i], key))
    && (forall i | hit.ord <= i < |keys| :: !Less(keys[i], key))
    && (hit.Exact? <==> hit.ord < |keys| && keys[hit.ord] == key)
  }

  lemma HitFrom(keys: seq<Term>, key: Term, n: nat, exact: bool)
    requires Ordered(keys) && n <= |keys| && (n > 0 ==> Less(keys[n - 1], key))
    requires n < |keys| ==> !Less(keys[n], key)
    requires exact <==> n < |keys| && keys[n] == key
    ensures IsHit(keys, key, if exact then Exact(n) else Next(n))
  {
    forall i | 0 <= i < n
      ensures Less(keys[i], key)
    {
      if i < n - 1 {
        OrderedNotLess(keys, i, n - 1);
        NotLessThenLess(keys[i], keys[n - 1], key);
      }
    }
    forall i | n <= i < |keys|
      ensures !Less(keys[i], key)
    {
      if n < i {
        OrderedNotLess(keys, n, i);
        NotLessTransitive(key, keys[n], keys[i]);
      }
    }
  }

  /** A key that gives up bytes already matched is above the searched one. */
  lemma TooFar(p: Term, q: Term, key: Term)
    requires (p == [] || Less(p, q)) && CommonPrefix(p, q) < CommonPrefix(p, key)
    ensures Less(key, q)
  {
    var k, c := CommonPrefix(p, q), CommonPrefix(p, key);
    LessByPrefix(p, q);
    assert p[..c][k] == key[..c][k];
    assert key[..k] == p[..c][..k] == q[..k];
    LessAt(key, q, k);
  }

  /** A key that keeps more than what is matched stays below the searched one. */
  lemma StillBelow(p: Term, q: Term, key: Term)
    requires Less(p, key) && CommonPrefix(p, q) > CommonPrefix(p, key)
    ensures Less(q, key) && CommonPrefix(q, key) == CommonPrefix(p, key)
  {
    var k, c := CommonPrefix(p, q), CommonPrefix(p, key);
    LessByPrefix(p, key);
    assert p[..k][c] == q[..k][c];
    assert q[..c] == p[..k][..c] == key[..c];
    CommonPrefixIs(q, key, c);
    LessAt(q, key, c);
  }

  /** Compares the new bytes of key `q` with those of the searched key. */
  method MatchSuffix(key: Term, suffix: Term, okBytes: nat, ghost q: Term) returns (matched: nat, tooFar: bool)
    requires okBytes <= |key| && q == key[..okBytes] + suffix
    ensures tooFar ==> Less(key, q)
    ensures !tooFar ==> matched == CommonPrefix(q, key)
    ensures !tooFar && matched < |key| ==> Less(q, key)
  {
    matched, tooFar := okBytes, false;
    var i := 0;
    while okBytes + i < |key| && i < |suffix|
      invariant i <= |suffix| && matched == okBytes + i <= |key| && q[..matched] == key[..matched]
    {
      assert q[matched] == suffix[i];
      if suffix[i] < key[matched] {
        CommonPrefixIs(q, key, matched);
        LessAt(q, key, matched);
        return;
      } else if suffix[i] > key[matched] {
        LessAt(key, q, matched);
        tooFar := true;
        return;
      }
      assert q[..matched + 1] == q[..matched] + [q[matched]] && key[..matched + 1] == key[..matched] + [key[matched]];
      matched, i := matched + 1, i + 1;
    }
    CommonPrefixIs(q, key, matched);
    if matched < |key| {
      LessAt(q, key, matched);
    }
  }

  datatype Side = Below | At | Above

  /** Where key `q`, written after `p`, lies, from the bytes of the searched key that `p` matches. */
  method PlaceKey(d: Delta, key: Term, okBytes: nat, ghost p: Term, ghost q: Term) returns (side: Side, matched: nat)
    requires (p == [] || Less(p, q)) && (p == [] || Less(p, key)) && okBytes == CommonPrefix(p, key)
    requires d.keep == CommonPrefix(p, q) && d.suffix == q[d.keep..]
    ensures side == if Less(q, key) then Below else if q == key then At else Above
    ensures side == Below ==> matched == CommonPrefix(q, key)
  {
    LessTotal(q, key);
    if d.keep < okBytes {
      TooFar(p, q, key);
      LessAsymmetric(key, q);
      return Above, okBytes;
    } else if d.keep > okBytes {
      StillBelow(p, q, key);
      return Below, okBytes;
    }
    assert q == q[..d.keep] + d.suffix && q[..d.keep] == p[..d.keep] == key[..d.keep];
    var tooFar;
    matched, tooFar := MatchSuffix(key, d.suffix, okBytes, q);
    if tooFar {
      LessAsymmetric(key, q);
      return Above, matched;
    }
    side := PlaceMatched(key, d, matched, q);
  }

  method PlaceMatched(key: Term, d: Delta, matched: nat, ghost q: Term) returns (side: Side)
    requires matched == CommonPrefix(q, key) && (matched < |key| ==> Less(q, key))
    requires d.keep + |d.suffix| == |q|
    ensures side == if Less(q, key) then Below else if q == key then At else Above
  {
    LessIrreflexive(key);
    LessByPrefix(q, key);
    assert q[..|q|] == q && key[..|key|] == key;
    if matched < |key| {
      side := Below;
    } else {
      side := if d.keep + |d.suffix| == matched then At else Above;
    }
  }

  /** Searches the changes of a block: the bytes matched so far stand for the key before. */
  method DecodeUpToOrNext(deltas: seq<Delta>, key: Term) returns (hit: Hit)
    requires Written(deltas)
    ensures IsHit(ReadKeys(deltas), key, hit)
  {
    ghost var keys := ReadKeys(deltas);
    var okBytes := 0;
    for termOrd := 0 to |deltas|
      invariant okBytes == CommonPrefix(Before(keys, termOrd), key) && (termOrd > 0 ==> Less(keys[termOrd - 1], key))
    {
      assert IsChange(deltas, keys, termOrd) && (termOrd > 0 ==> OrderedAt(keys, termOrd));
      var side;
      side, okBytes := PlaceKey(deltas[termOrd], key, okBytes, Before(keys, termOrd), keys[termOrd]);
      if side != Below {
        LessIrreflexive(key);
        HitFrom(keys, key, termOrd, side == At);
        return if side == At then Exact(termOrd) else Next(termOrd);
      }
    }
    HitFrom(keys, key, |keys|, false);
    hit := Next(|deltas|);
  }

  // ---- blocks and separators ----

  datatype Block = Block(deltas: seq<Delta>, lastKeyOrGreater: Term, firstOrdinal: nat)

  function KeysOf(blocks: seq<Block>): seq<Term> {
    if blocks == [] then [] else KeysOf(blocks[..|blocks| - 1]) + ReadKeys(blocks[|blocks| - 1].deltas)
  }

  /** The separator is not below any key. */
  predicate Covers(separator: Term, keys: seq<Term>) {
    forall i {:trigger Less(separator, keys[i])} | 0 <= i < |keys| :: !Less(separator, keys[i])
  }

  predicate Precedes(separator: Term, keys: seq<Term>) {
    forall i {:trigger Less(separator, keys[i])} | 0 <= i < |keys| :: Less(separator, keys[i])
  }

  predicate AllPrecede(blocks: seq<Block>, keys: seq<Term>) {
    forall i {:trigger Precedes(blocks[i].lastKeyOrGreater, keys)} | 0 <= i < |blocks| ::
      Precedes(blocks[i].lastKeyOrGreater, keys)
  }

  predicate IsBlock(b: Block) {
    b.deltas != [] && Written(b.deltas) && Covers(b.lastKeyOrGreater, ReadKeys(b.deltas))
  }

  /** Each separator lies between the keys of its block and the keys behind it. */
  predicate Separated(blocks: seq<Block>) {
    blocks == [] ||
    var init, last := blocks[..|blocks| - 1], blocks[|blocks| - 1];
    && Separated(init) && IsBlock(last) && last.firstOrdinal == |KeysOf(init)|
    && AllPrecede(init, ReadKeys(last.deltas))
  }

  /** Cut behind the first byte after position `k` that can be raised, and raised there; all of it if there is none. */
  ghost predicate IsShortened(left: Term, k: nat, r: Term) {
    if forall j | k < j < |left| :: left[j] == 0xFF then r == left
    else exists pos: nat | k < pos < |left| ::
           && left[pos] < 0xFF && (forall j | k < j < pos :: left[j] == 0xFF)
           && |r| == pos + 1 && r[..pos] == left[..pos] && r[pos] == left[pos] + 1
  }

  /** Shortens `left` to something that still separates it from `right`; `None` is the assertion. */
  method FindShorterStrInBetween(left: Term, right: Term) returns (r: Option<Term>)
    ensures r.None? <==> !Less(left, right)
    ensures r.Some? ==> !Less(r.value, left) && Less(r.value, right) && |r.value| <= |left|
    ensures r.Some? ==> IsShortened(left, CommonPrefix(left, right), r.value)
  {
    if !Less(left, right) {
      return None;
    }
    LessIrreflexive(left);
    LessByPrefix(left, right);
    var commonLen := CommonPrefix(left, right);
    if |left| == commonLen {
      return Some(left);
    }
    for pos := commonLen + 1 to |left|
      invariant forall j | commonLen < j < pos :: left[j] == 0xFF
    {
      if left[pos] != 0xFF {
        var shorter := left[..pos] + [left[pos] + 1];
        LessAt(left, shorter, pos);
        LessAsymmetric(left, shorter);
        assert shorter[..commonLen] == left[..commonLen];
        LessAt(shorter, right, commonLen);
        return Some(shorter);
      }
    }
    r := Some(left);
  }

  // ---- the writer ----

  lemma {:induction false} KeyCount(deltas: seq<Delta>)
    ensures |ReadKeys(deltas)| == |deltas|
  {
    if deltas != [] {
      KeyCount(deltas[..|deltas| - 1]);
    }
  }

  lemma OrderedSnoc(keys: seq<Term>, key: Term)
    requires Ordered(keys) && (Before(keys, |keys|) == [] || Less(Before(keys, |keys|), key))
    ensures Ordered(keys + [key])
  {
    forall i | 0 < i < |keys| + 1
      ensures OrderedAt(keys + [key], i)
    {
      assert i < |keys| ==> OrderedAt(keys, i);
    }
  }

  lemma WrittenSnoc(keys: seq<Term>, key: Term)
    requires Ordered(keys + [key])
    ensures Written(DeltasOf(keys + [key])) && ReadKeys(DeltasOf(keys + [key])) == keys + [key]
    ensures LastKey(DeltasOf(keys + [key])) == key
  {
    ReadsBack(keys + [key]);
    WrittenIsDeltas(DeltasOf(keys + [key]));
  }

  /** Appending the change from the last key appends the key. */
  lemma WriteKey(block: seq<Delta>, key: Term)
    requires Written(block) && (LastKey(block) == [] || Less(LastKey(block), key))
    ensures var block' := block + [Change(LastKey(block), key)];
            Written(block') && ReadKeys(block') == ReadKeys(block) + [key] && LastKey(block') == key
  {
    var keys := ReadKeys(block);
    WrittenIsDeltas(block);
    ReadsBack(keys);
    OrderedSnoc(keys, key);
    WrittenSnoc(keys, key);
    DeltasSnoc(keys, key);
  }

  lemma LastIsGreatest(block: seq<Delta>)
    requires Written(block)
    ensures Covers(LastKey(block), ReadKeys(block))
  {
    var keys := ReadKeys(block);
    forall i | 0 <= i < |keys|
      ensures !Less(keys[|keys| - 1], keys[i])
    {
      if i < |keys| - 1 {
        OrderedNotLess(keys, i, |keys| - 1);
      } else {
        LessIrreflexive(keys[i]);
      }
    }
  }

  /** Moving the last separator up, but below the next key, keeps the blocks separated. */
  lemma MoveSeparator(blocks: seq<Block>, key: Term, separator: Term)
    requires Separated(blocks) && blocks != [] && LastIsTight(blocks)
    requires !Less(separator, blocks[|blocks| - 1].lastKeyOrGreater) && Less(separator, key)
    ensures var last := |blocks| - 1;
            var blocks' := blocks[..last] + [blocks[last].(lastKeyOrGreater := separator)];
            Separated(blocks') && KeysOf(blocks') == KeysOf(blocks) && AllPrecede(blocks', [key])
  {
    var init, last := blocks[..|blocks| - 1], blocks[|blocks| - 1];
    var last' := last.(lastKeyOrGreater := separator);
    var keys := ReadKeys(last.deltas);
    assert (init + [last'])[..|init|] == init;
    forall i | 0 <= i < |keys|
      ensures !Less(separator, keys[i])
    {
      NotLessTransitive(keys[i], last.lastKeyOrGreater, separator);
    }
    NotLessThenLess(last.lastKeyOrGreater, separator, key);
    forall i | 0 <= i < |init|
      ensures Less(init[i].lastKeyOrGreater, key)
    {
      assert Precedes(init[i].lastKeyOrGreater, keys);
      assert keys[|keys| - 1] == last.lastKeyOrGreater;
      LessTransitive(init[i].lastKeyOrGreater, last.lastKeyOrGreater, key);
    }
  }

  /** A key above the last one of the open block is above all separators. */
  lemma PrecedeNext(blocks: seq<Block>, block: seq<Delta>, key: Term)
    requires AllPrecede(blocks, ReadKeys(block))
    requires if block == [] then AllPrecede(blocks, [key]) else LastKey(block) == [] || Less(LastKey(block), key)
    ensures AllPrecede(blocks, ReadKeys(block) + [key])
  {
    var keys := ReadKeys(block);
    forall i | 0 <= i < |blocks|
      ensures Precedes(blocks[i].lastKeyOrGreater, keys + [key])
    {
      var separator := blocks[i].lastKeyOrGreater;
      assert Precedes(separator, keys);
      if block == [] {
        assert Precedes(separator, [key]) && [key][0] == key;
      } else {
        assert keys[|keys| - 1] == LastKey(block);
        LessTransitive(separator, LastKey(block), key);
      }
    }
  }

  predicate LastIsTight(blocks: seq<Block>) {
    blocks != [] ==> blocks[|blocks| - 1].lastKeyOrGreater == LastKey(blocks[|blocks| - 1].deltas)
  }

  /** Makes the last separator short, given the next key; `None` is the failed assertion. */
  method ShortenLastBlockKeyGivenNextKey(blocks: seq<Block>, key: Term) returns (r: Option<seq<Block>>)
    requires Separated(blocks) && LastIsTight(blocks)
    ensures r.Some? <==> blocks == [] || Less(LastKey(blocks[|blocks| - 1].deltas), key)
    ensures r.Some? ==> Separated(r.value) && KeysOf(r.value) == KeysOf(blocks) && AllPrecede(r.value, [key])
  {
    if blocks == [] {
      return Some([]);
    }
    var last := blocks[|blocks| - 1];
    var shorter := FindShorterStrInBetween(last.lastKeyOrGreater, key);
    if shorter.None? {
      return None;
    }
    MoveSeparator(blocks, key, shorter.value);
    r := Some(blocks[..|blocks| - 1] + [last.(lastKeyOrGreater := shorter.value)]);
  }

  /** The last key is below the new one, or is empty and in the same block. */
  predicate MayFollow(keys: seq<Term>, inBlock: bool, key: Term) {
    keys == [] || Less(keys[|keys| - 1], key) || (inBlock && keys[|keys| - 1] == [])
  }

  /** The test on the last key of the open block, or of the last block. */
  lemma FollowsLast(blocks: seq<Block>, block: seq<Delta>, key: Term)
    requires Separated(blocks)
    ensures MayFollow(KeysOf(blocks) + ReadKeys(block), block != [], key) <==>
            if block != [] then LastKey(block) == [] || Less(LastKey(block), key)
            else blocks == [] || Less(LastKey(blocks[|blocks| - 1].deltas), key)
  {
  }

  /** Nothing is accepted out of order but an empty key behind an empty key. */
  lemma OnlyEmptyKeyRepeats(keys: seq<Term>, inBlock: bool, key: Term)
    requires keys != []
    ensures MayFollow(keys, inBlock, key) && !Less(keys[|keys| - 1], key)
            <==> inBlock && keys[|keys| - 1] == [] && key == []
  {
  }

  /** `full` is the test on the size of a block. */
  class TableWriter {
    const full: seq<Delta> -> bool
    var previousKey: Term
    var numTerms: nat
    var firstOrdinalOfTheBlock: nat
    var block: seq<Delta>
    var blocks: seq<Block>

    ghost predicate Consistent()
      reads this
    {
      && Separated(blocks) && Written(block) && previousKey == LastKey(block)
      && AllPrecede(blocks, ReadKeys(block))
      && firstOrdinalOfTheBlock == |KeysOf(blocks)| && numTerms == firstOrdinalOfTheBlock + |block|
    }

    /** Until the next block starts, the last separator is the last key. */
    ghost predicate Valid()
      reads this
    {
      && Consistent()
      && (block == [] ==> LastIsTight(blocks))
    }

    ghost function Contents(): seq<Term>
      reads this
    {
      KeysOf(blocks) + ReadKeys(block)
    }

    constructor (full: seq<Delta> -> bool)
      ensures Valid() && Contents() == [] && this.full == full && block == []
    {
      this.full := full;
      previousKey, numTerms, firstOrdinalOfTheBlock, block, blocks := [], 0, 0, [], [];
    }

    method FlushBlock()
      requires Valid()
      modifies this
      ensures Valid() && Contents() == old(Contents()) && block == []
    {
      if block == [] {
        return;
      }
      ghost var before := blocks;
      LastIsGreatest(block);
      KeyCount(block);
      blocks := blocks + [Block(block, previousKey, firstOrdinalOfTheBlock)];
      assert blocks[..|blocks| - 1] == before;
      firstOrdinalOfTheBlock, previousKey, block := numTerms, [], [];
    }

    method WriteSuffix(key: Term)
      requires Consistent() && (previousKey == [] || Less(previousKey, key))
      requires block == [] ==> AllPrecede(blocks, [key])
      modifies this
      ensures Consistent() && Contents() == old(Contents()) + [key]
      ensures block == old(block) + [Change(old(previousKey), key)]
    {
      WriteKey(block, key);
      PrecedeNext(blocks, block, key);
      block := block + [Change(previousKey, key)];
      previousKey, numTerms := key, numTerms + 1;
    }

    /** Fails, as a panic, exactly when the key may not follow those already there. */
    method Insert(key: Term) returns (ok: bool)
      requires Valid()
      modifies this
      ensures ok <==> MayFollow(old(Contents()), old(block) != [], key)
      ensures ok ==> Valid() && Contents() == old(Contents()) + [key]
      ensures ok ==> var next := old(block) + [Change(old(previousKey), key)];
                     block == if full(next) then [] else next
    {
      FollowsLast(blocks, block, key);
      if firstOrdinalOfTheBlock == numTerms {
        var shortened := ShortenLastBlockKeyGivenNextKey(blocks, key);
        if shortened.None? {
          return false;
        }
        blocks := shortened.value;
      }
      IncreasingIsLess(previousKey, key);
      if IncreasingKeys(previousKey, key) != Some(true) {
        return false;
      }
      WriteSuffix(key);
      if full(block) {
        FlushBlock();
      }
      ok := true;
    }
  }

  // ---- looking up a key ----

  /** An empty key is accepted twice, unless the first one fills a block. */
  method InsertEmptyTwice(full: seq<Delta> -> bool) returns (ok: bool)
    ensures ok <==> !full([Delta(0, [])])
  {
    var writer := new TableWriter(full);
    ok := writer.Insert([]);
    assert [] + [Change([], [])] == [Delta(0, [])];
    ok := writer.Insert([]);
  }

  lemma {:induction false} BlockAt(blocks: seq<Block>, i: nat)
    requires Separated(blocks) && i < |blocks|
    ensures IsBlock(blocks[i]) && AllPrecede(blocks[..i], ReadKeys(blocks[i].deltas))
  {
    var init := blocks[..|blocks| - 1];
    if i < |blocks| - 1 {
      BlockAt(init, i);
      assert init[..i] == blocks[..i] && init[i] == blocks[i];
    }
  }

  /** A block's keys start at its first ordinal. */
  lemma {:induction false} BlockOrdinals(blocks: seq<Block>, i: nat, j: nat)
    requires Separated(blocks) && i < |blocks| && j < |ReadKeys(blocks[i].deltas)|
    ensures blocks[i].firstOrdinal + j < |KeysOf(blocks)|
    ensures KeysOf(blocks)[blocks[i].firstOrdinal + j] == ReadKeys(blocks[i].deltas)[j]
  {
    if i < |blocks| - 1 {
      BlockOrdinals(blocks[..|blocks| - 1], i, j);
    }
  }

  /** The separators ascend strictly, as the index builder demands. */
  lemma SeparatorsAscend(blocks: seq<Block>, i: nat, j: nat)
    requires Separated(blocks) && i < j < |blocks|
    ensures Less(blocks[i].lastKeyOrGreater, blocks[j].lastKeyOrGreater)
  {
    BlockAt(blocks, j);
    var key := ReadKeys(blocks[j].deltas)[0];
    assert Precedes(blocks[..j][i].lastKeyOrGreater, ReadKeys(blocks[j].deltas));
    assert Less(blocks[i].lastKeyOrGreater, key) && !Less(blocks[j].lastKeyOrGreater, key);
    LessThenNotLess(blocks[i].lastKeyOrGreater, key, blocks[j].lastKeyOrGreater);
  }

  lemma {:induction false} BlockOf(blocks: seq<Block>, key: Term) returns (i: nat)
    requires key in KeysOf(blocks)
    ensures i < |blocks| && key in ReadKeys(blocks[i].deltas)
  {
    var init := blocks[..|blocks| - 1];
    if key in KeysOf(init) {
      i := BlockOf(init, key);
    } else {
      i := |blocks| - 1;
    }
  }

  predicate SeparatorsBelow(blocks: seq<Block>, n: nat, key: Term)
    requires n <= |blocks|
  {
    forall i {:trigger Less(blocks[i].lastKeyOrGreater, key)} | 0 <= i < n :: Less(blocks[i].lastKeyOrGreater, key)
  }

  /** The first block whose separator is not below the key. */
  predicate IsLocated(blocks: seq<Block>, key: Term, r: Option<nat>) {
    if |blocks| <= 1 then r == Some(0)
    else
      var n := if r.Some? then r.value else |blocks|;
      && (r.Some? ==> n < |blocks| && !Less(blocks[n].lastKeyOrGreater, key))
      && SeparatorsBelow(blocks, n, key)
  }

  /** The index of fewer than two blocks is empty, and names the first one for every key. */
  method LocateWithKey(blocks: seq<Block>, key: Term) returns (r: Option<nat>)
    ensures IsLocated(blocks, key, r)
  {
    if |blocks| <= 1 {
      return Some(0);
    }
    for i := 0 to |blocks|
      invariant forall j | 0 <= j < i :: Less(blocks[j].lastKeyOrGreater, key)
    {
      if !Less(blocks[i].lastKeyOrGreater, key) {
        return Some(i);
      }
    }
    r := None;
  }

  lemma Between(blocks: seq<Block>, i: nat, key: Term)
    requires Separated(blocks) && i < |blocks| && key in ReadKeys(blocks[i].deltas)
    ensures !Less(blocks[i].lastKeyOrGreater, key)
    ensures SeparatorsBelow(blocks, i, key)
  {
    BlockAt(blocks, i);
    var keys := ReadKeys(blocks[i].deltas);
    var k :| 0 <= k < |keys| && keys[k] == key;
    forall j | 0 <= j < i
      ensures Less(blocks[j].lastKeyOrGreater, key)
    {
      assert Precedes(blocks[..i][j].lastKeyOrGreater, keys);
    }
  }

  /** The located block is the one that holds the key, if any does. */
  lemma LocatedHolds(blocks: seq<Block>, key: Term, r: Option<nat>)
    requires Separated(blocks) && IsLocated(blocks, key, r) && key in KeysOf(blocks)
    ensures r.Some? && r.value < |blocks| && key in ReadKeys(blocks[r.value].deltas)
  {
    var i := BlockOf(blocks, key);
    Between(blocks, i, key);
    LocatedIs(blocks, key, r, i);
  }

  lemma LocatedIs(blocks: seq<Block>, key: Term, r: Option<nat>, i: nat)
    requires IsLocated(blocks, key, r) && i < |blocks| && !Less(blocks[i].lastKeyOrGreater, key)
    requires SeparatorsBelow(blocks, i, key)
    ensures r == Some(i)
  {
  }

  lemma HitMisses(keys: seq<Term>, key: Term, hit: Hit)
    requires Ordered(keys) && IsHit(keys, key, hit) && hit.Next?
    ensures key !in keys
  {
    LessIrreflexive(key);
    forall i | 0 <= i < |keys|
      ensures keys[i] != key
    {
      if hit.ord < i {
        OrderedNotLess(keys, hit.ord, i);
        LessTotal(keys[hit.ord], key);
      }
    }
  }

  method SearchBlock(blocks: seq<Block>, i: nat, key: Term) returns (r: Option<nat>)
    requires Separated(blocks) && i < |blocks|
    ensures r.Some? ==> r.value < |KeysOf(blocks)| && KeysOf(blocks)[r.value] == key
    ensures r.None? ==> key !in ReadKeys(blocks[i].deltas)
  {
    BlockAt(blocks, i);
    var hit := DecodeUpToOrNext(blocks[i].deltas, key);
    if hit.Next? {
      HitMisses(ReadKeys(blocks[i].deltas), key, hit);
      return None;
    }
    BlockOrdinals(blocks, i, hit.ord);
    r := Some(blocks[i].firstOrdinal + hit.ord);
  }

  /** The ordinal of a key, found by separator and then by changes. */
  method TermOrd(blocks: seq<Block>, key: Term) returns (r: Option<nat>)
    requires Separated(blocks)
    ensures r.Some? ==> r.value < |KeysOf(blocks)| && KeysOf(blocks)[r.value] == key
    ensures r.None? ==> key !in KeysOf(blocks)
  {
    var block := LocateWithKey(blocks, key);
    if key in KeysOf(blocks) {
      LocatedHolds(blocks, key, block);
    }
    if block.None? || blocks == [] {
      return None;
    }
    r := SearchBlock(blocks, block.value, key);
  }
}
