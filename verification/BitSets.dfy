/** `BitSet`, a set of numbers below a bound kept as 64-bit words with a cached size. */
module BitSets {
  import opened Bits
  import opened WordSets

  function NumBuckets(maxValue: nat): (r: nat)
    ensures 64 * r - 64 < maxValue <= 64 * r
  {
    (maxValue + 63) / 64
  }

  lemma Place(el: nat)
    ensures el == 64 * (el / 64) + el % 64 && el % 64 < 64
  {
  }

  // ---- one-bit updates of the words ----

  /** Adding bit `l` to word `h` adds bit `64h + l` to the number. */
  lemma RaisedWord(words: seq<nat>, h: nat, l: nat, x: nat)
    requires h < |words| && x == words[h] + Shl(1, l)
    ensures WordsValue(words[h := x]) == WordsValue(words) + Shl(1, 64 * h + l)
  {
    WordUpdate(words, h, x);
    ShlSum(words[h], Shl(1, l), 64 * h);
    ShlAdd(1, l, 64 * h);
  }

  lemma InsertedWord(words: seq<nat>, el: nat)
    requires AreWords(words) && el < 64 * |words|
    ensures var h, x := el / 64, Or(words[el / 64], Singleton(el % 64));
            && x < Pow2(64)
            && (x != words[h] <==> !Bit(WordsValue(words), el))
            && WordsValue(words[h := x]) == Or(WordsValue(words), Shl(1, el))
  {
    var h, l := el / 64, el % 64;
    Place(el);
    SingletonIsBit(l);
    WordBit(words, h, l);
    OpsBound(words[h], Shl(1, l), 64);
    InsertedBit(words, h, l);
  }

  lemma InsertedBit(words: seq<nat>, h: nat, l: nat)
    requires h < |words| && (Bit(WordsValue(words), 64 * h + l) <==> Bit(words[h], l))
    ensures WordsValue(words[h := Or(words[h], Shl(1, l))]) == Or(WordsValue(words), Shl(1, 64 * h + l))
    ensures Or(words[h], Shl(1, l)) != words[h] <==> !Bit(words[h], l)
  {
    SetBit(words[h], l);
    SetBit(WordsValue(words), 64 * h + l);
    if Bit(words[h], l) {
      assert words[h := words[h]] == words;
    } else {
      RaisedWord(words, h, l, words[h] + Shl(1, l));
    }
  }

  lemma RemovedWord(words: seq<nat>, el: nat, max: nat)
    requires AreWords(words) && el < 64 * |words| && el < max && WordsValue(words) < Pow2(max)
    ensures Singleton(el % 64) < Pow2(64)
    ensures var h, x := el / 64, And(words[el / 64], Not(64, Singleton(el % 64)));
            && x < Pow2(64)
            && (x != words[h] <==> Bit(WordsValue(words), el))
            && WordsValue(words[h := x]) == Without(max, WordsValue(words), el)
  {
    var h, l := el / 64, el % 64;
    Place(el);
    SingletonIsBit(l);
    WordBit(words, h, l);
    ClearBit(64, words[h], l);
    ClearBit(max, WordsValue(words), el);
    var x := Without(64, words[h], l);
    if Bit(words[h], l) {
      RaisedWord(words[h := x], h, l, words[h]);
      assert words[h := x][h := words[h]] == words;
    } else {
      assert words[h := words[h]] == words;
    }
  }

  // ---- word-wise intersection ----

  function AndWords(a: seq<nat>, b: seq<nat>): (r: seq<nat>)
    requires |a| == |b|
    ensures |r| == |a| && forall i | 0 <= i < |a| :: r[i] == And(a[i], b[i])
  {
    if a == [] then [] else [And(a[0], b[0])] + AndWords(a[1..], b[1..])
  }

  lemma HalfSum(x: nat, a: nat, k: nat)
    requires k > 0
    ensures (x + Shl(a, k)) / 2 == x / 2 + Shl(a, k - 1) && (x + Shl(a, k)) % 2 == x % 2
  {
  }

  lemma AndHalf(x: nat, y: nat)
    ensures And(x, y) == 2 * And(x / 2, y / 2) + if x % 2 == 1 && y % 2 == 1 then 1 else 0
  {
  }

  lemma AndFromHalves(s: nat, t: nat, x: nat, y: nat, high: nat)
    requires s % 2 == x % 2 && t % 2 == y % 2 && And(s / 2, t / 2) == And(x / 2, y / 2) + high
    ensures And(s, t) == And(x, y) + 2 * high
  {
    AndHalf(s, t);
    AndHalf(x, y);
  }

  lemma AndJoin(x: nat, y: nat, a: nat, b: nat, k: nat)
    requires k > 0
    requires And(x / 2 + Shl(a, k - 1), y / 2 + Shl(b, k - 1)) == And(x / 2, y / 2) + Shl(And(a, b), k - 1)
    ensures And(x + Shl(a, k), y + Shl(b, k)) == And(x, y) + Shl(And(a, b), k)
  {
    HalfSum(x, a, k);
    HalfSum(y, b, k);
    AndFromHalves(x + Shl(a, k), y + Shl(b, k), x, y, Shl(And(a, b), k - 1));
  }

  lemma {:induction false} AndSplit(x: nat, y: nat, a: nat, b: nat, k: nat)
    requires x < Pow2(k) && y < Pow2(k)
    ensures And(x + Shl(a, k), y + Shl(b, k)) == And(x, y) + Shl(And(a, b), k)
    decreases k
  {
    if k > 0 {
      AndSplit(x / 2, y / 2, a, b, k - 1);
      AndJoin(x, y, a, b, k);
    } else {
      ZeroOps(0);
    }
  }

  lemma AndAreWords(a: seq<nat>, b: seq<nat>)
    requires |a| == |b| && AreWords(a) && AreWords(b)
    ensures AreWords(AndWords(a, b))
  {
    forall k | 0 <= k < |a| ensures AndWords(a, b)[k] < Pow2(64) {
      OpsBound(a[k], b[k], 64);
    }
  }

  lemma {:induction false} AndWordsValue(a: seq<nat>, b: seq<nat>)
    requires |a| == |b| && AreWords(a) && AreWords(b)
    ensures WordsValue(AndWords(a, b)) == And(WordsValue(a), WordsValue(b))
  {
    if a == [] {
      ZeroOps(0);
    } else {
      var x, y, rest := a[0], b[0], AndWords(a[1..], b[1..]);
      AndWordsValue(a[1..], b[1..]);
      AndSplit(x, y, WordsValue(a[1..]), WordsValue(b[1..]), 64);
      assert AndWords(a, b) == [And(x, y)] + rest && AndWords(a, b)[1..] == rest;
    }
  }

  lemma AndMembers(m: nat, n: nat, w: nat)
    ensures Members(And(m, n), w) == Members(m, w) * Members(n, w)
  {
    forall i: nat ensures Bit(And(m, n), i) <==> Bit(m, i) && Bit(n, i) {
      BitAnd(m, n, i);
    }
  }

  lemma AndBound(m: nat, n: nat, w: nat)
    requires m < Pow2(w)
    ensures And(m, n) < Pow2(w)
    decreases w
  {
    if w > 0 {
      AndBound(m / 2, n / 2, w - 1);
    } else {
      AndMask(n, 0);
      ZeroOps(n);
    }
  }

  // ---- the set object ----

  /** The number whose low `k` bits are set. */
  function Ones(k: nat): nat {
    Pow2(k) - 1
  }

  lemma {:induction false} FullWords(words: seq<nat>)
    requires forall k | 0 <= k < |words| :: words[k] == Ones(64)
    ensures WordsValue(words) == Ones(64 * |words|)
  {
    if words != [] {
      var n := |words| - 1;
      FullWords(words[..n]);
      assert words == words[..n] + [Ones(64)];
      FullSnoc(words[..n], 64 * n, 64);
    }
  }

  /** Full words followed by one with the low `l` bits set. */
  lemma FullSnoc(words: seq<nat>, m: nat, l: nat)
    requires m == 64 * |words| && WordsValue(words) == Ones(m)
    ensures WordsValue(words + [Ones(l)]) == Ones(m + l)
  {
    var x := Ones(l);
    WordsSnoc(words, x);
    OnesSum(m, l);
  }

  lemma OnesSum(m: nat, l: nat)
    ensures Ones(m) + Shl(Ones(l), m) == Ones(m + l)
  {
    ShlSum(Ones(l), 1, m);
    ShlAdd(1, l, m);
  }

  lemma {:induction false} AllOnes(k: nat)
    ensures Popcount(Ones(k)) == k
    ensures forall i: nat | i < k :: Bit(Ones(k), i)
    decreases k
  {
    if k > 0 {
      AllOnes(k - 1);
      assert Ones(k) / 2 == Ones(k - 1) && Ones(k) % 2 == 1;
      forall i: nat | i < k ensures Bit(Ones(k), i) {
        if i > 0 {
          assert Bit(Ones(k - 1), i - 1);
        }
      }
    }
  }

  /** `range_lower`: the numbers below `upper % 64`. */
  function RangeLower(upper: nat): (r: nat)
    ensures r == Ones(upper % 64) < Pow2(64)
  {
    Pow2Mono(upper % 64, 64);
    Small(Pow2(upper % 64), 64);
    Low(Pow2(upper % 64), 64) - 1
  }

  lemma LastWord(words: seq<nat>, n: nat, l: nat)
    requires |words| == n + 1 && words[n] == Ones(l)
    requires forall k | 0 <= k < n :: words[k] == Ones(64)
    ensures WordsValue(words) == Ones(64 * n + l)
  {
    FullWords(words[..n]);
    assert words == words[..n] + [Ones(l)];
    FullSnoc(words[..n], 64 * n, l);
  }

  lemma Buckets(max: nat)
    ensures max % 64 == 0 ==> 64 * NumBuckets(max) == max
    ensures max % 64 != 0 ==> NumBuckets(max) > 0 && 64 * (NumBuckets(max) - 1) + max % 64 == max
  {
  }

  /** Full words, with the padding of the last one cleared. */
  ghost predicate IsFull(max: nat, words: seq<nat>) {
    var n, lower := NumBuckets(max), max % 64;
    && |words| == n
    && (forall k | 0 <= k < n && (lower == 0 || k < n - 1) :: words[k] == Ones(64))
    && (lower != 0 ==> words[n - 1] == Ones(lower))
  }

  lemma FullValue(max: nat, words: seq<nat>)
    requires IsFull(max, words)
    ensures WordsValue(words) == Ones(max)
  {
    Buckets(max);
    if max % 64 != 0 {
      LastWord(words, |words| - 1, max % 64);
    } else {
      FullWords(words);
    }
  }

  lemma FullAreWords(max: nat, words: seq<nat>)
    requires IsFull(max, words)
    ensures AreWords(words)
  {
    Pow2Mono(max % 64, 64);
  }

  method FullArray(max: nat) returns (a: array<nat>)
    ensures fresh(a) && IsFull(max, a[..])
  {
    var n, lower, full := NumBuckets(max), max % 64, Not(64, 0);
    Buckets(max);
    a := new nat[n](_ => full);
    if lower != 0 {
      assert lower % 64 == lower;
      a[n - 1] := RangeLower(lower);
    }
  }

  // ---- intersection with more or fewer words ----

  /** The other side cut to `n` words, or filled up with words that keep everything. */
  function Padded(other: seq<nat>, n: nat): (r: seq<nat>)
    ensures |r| == n
  {
    seq(n, i requires 0 <= i < n => MaskWord(other, i))
  }

  function MaskWord(other: seq<nat>, i: nat): nat { if i < |other| then other[i] else Ones(64) }

  lemma PaddedWords(other: seq<nat>, n: nat)
    requires AreWords(other)
    ensures AreWords(Padded(other, n))
  {
    forall i | 0 <= i < n
      ensures Padded(other, n)[i] < Pow2(64)
    {
      assert Padded(other, n)[i] == MaskWord(other, i);
    }
  }

  lemma AndOnes(x: nat)
    requires x < Pow2(64)
    ensures And(x, Ones(64)) == x
  {
    AndMask(x, 64);
    Small(x, 64);
  }

  lemma PaddedBits(other: seq<nat>, n: nat, x: nat)
    requires AreWords(other) && x < 64 * n
    ensures Bit(WordsValue(Padded(other, n)), x) <==> x >= 64 * |other| || Bit(WordsValue(other), x)
  {
    var h, l := x / 64, x % 64;
    Place(x);
    PaddedWords(other, n);
    WordBit(Padded(other, n), h, l);
    MaskBit(other, h, l);
  }

  lemma MaskBit(other: seq<nat>, h: nat, l: nat)
    requires AreWords(other) && l < 64
    ensures Bit(MaskWord(other, h), l) <==> h >= |other| || Bit(WordsValue(other), 64 * h + l)
  {
    if h < |other| {
      WordBit(other, h, l);
    } else {
      AllOnes(64);
    }
  }

  /** The elements behind the other side, or in it. */
  lemma PaddedMembers(other: seq<nat>, n: nat, w: nat)
    requires AreWords(other) && w <= 64 * n
    ensures forall x: nat :: x in Members(WordsValue(Padded(other, n)), w) <==>
                             x < w && (x >= 64 * |other| || Bit(WordsValue(other), x))
  {
    forall x: nat
      ensures x in Members(WordsValue(Padded(other, n)), w) <==>
              x < w && (x >= 64 * |other| || Bit(WordsValue(other), x))
    {
      if x < w {
        PaddedBits(other, n, x);
      }
    }
  }

  lemma {:induction false} PopcountZero(x: nat)
    ensures Popcount(x) == 0 <==> x == 0
  {
    if x > 0 {
      PopcountZero(x / 2);
    }
  }

  ghost predicate EmptyFrom(words: seq<nat>, k: nat) {
    forall j | k <= j < |words| :: words[j] == 0
  }

  /** Counting the first `k` words misses nothing exactly when the others are empty. */
  lemma {:induction false} TotalPrefix(words: seq<nat>, k: nat)
    requires k <= |words|
    ensures Total(words[..k]) <= Total(words)
    ensures Total(words[..k]) == Total(words) <==> EmptyFrom(words, k)
  {
    if k == |words| {
      assert words[..k] == words;
    } else {
      var init := words[..|words| - 1];
      TotalPrefix(init, k);
      assert init[..k] == words[..k];
      PopcountZero(words[|words| - 1]);
    }
  }

  /** No bit from `64k` on is set. */
  ghost predicate BitsBelow(words: seq<nat>, k: nat) {
    forall x: nat | x < 64 * |words| && Bit(WordsValue(words), x) :: x < 64 * k
  }

  lemma EmptyHasNoBits(words: seq<nat>, k: nat)
    requires AreWords(words) && k <= |words|
    ensures EmptyFrom(words, k) <==> BitsBelow(words, k)
  {
    if BitsBelow(words, k) {
      forall j | k <= j < |words|
        ensures words[j] == 0
      {
        NoBitInWord(words, k, j);
      }
    } else {
      var x: nat :| x < 64 * |words| && Bit(WordsValue(words), x) && x >= 64 * k;
      Place(x);
      WordBit(words, x / 64, x % 64);
      NoHighBits(0, 0, x % 64);
      assert words[x / 64] != 0;
    }
  }

  lemma NoBitInWord(words: seq<nat>, k: nat, j: nat)
    requires AreWords(words) && k <= j < |words| && BitsBelow(words, k)
    ensures words[j] == 0
  {
    forall i: nat | i < 64
      ensures Bit(words[j], i) == Bit(0, i)
    {
      WordBit(words, j, i);
      NoHighBits(0, 0, i);
    }
    BitsEqual(words[j], 0, 64);
  }

  lemma AndKeepsRest(words: seq<nat>, other: seq<nat>, k: nat)
    requires AreWords(words) && |other| <= k < |words|
    ensures AndWords(words, Padded(other, |words|))[k] == words[k]
  {
    assert Padded(other, |words|)[k] == MaskWord(other, k) == Ones(64);
    AndOnes(words[k]);
  }

  /** What word-wise intersection leaves: words the other side does not have stay as they are. */
  lemma AndedWords(words: seq<nat>, other: seq<nat>, after: seq<nat>)
    requires |after| == |words| && AreWords(words)
    requires forall k | 0 <= k < |words| :: after[k] == if k < |other| then And(words[k], other[k]) else words[k]
    ensures after == AndWords(words, Padded(other, |words|))
  {
    var all := AndWords(words, Padded(other, |words|));
    forall k | 0 <= k < |words|
      ensures after[k] == all[k]
    {
      if k >= |other| {
        AndKeepsRest(words, other, k);
      } else {
        assert Padded(other, |words|)[k] == MaskWord(other, k);
      }
    }
  }

  /** Intersects word by word, as far as both sides go, and counts what is left in those words. */
  method AndInto(words: array<nat>, other: seq<nat>) returns (len: nat)
    modifies words
    ensures forall k | 0 <= k < words.Length ::
              words[k] == if k < |other| then And(old(words[k]), other[k]) else old(words[k])
    ensures len == Total(words[..if |other| <= words.Length then |other| else words.Length])
  {
    len := 0;
    var n := if |other| <= words.Length then |other| else words.Length;
    for k := 0 to n
      invariant forall i | 0 <= i < k :: words[i] == And(old(words[i]), other[i])
      invariant forall i | k <= i < words.Length :: words[i] == old(words[i])
      invariant len == Total(words[..k])
    {
      ghost var before := words[..k];
      words[k] := And(words[k], other[k]);
      assert words[..k + 1] == before + [words[k]];
      len := len + Popcount(words[k]);
    }
  }

  class BitSet {
    const tinysets: array<nat>
    var len: nat
    const maxValue: nat

    ghost function Value(): nat
      reads tinysets
    {
      WordsValue(tinysets[..])
    }

    /** `len` is the number of set bits. */
    ghost predicate Counted()
      reads this, tinysets
    {
      tinysets.Length == NumBuckets(maxValue) && AreWords(tinysets[..]) && len == Popcount(Value())
    }

    /** No bit at or above the bound is set, so padding bits are zero. */
    ghost predicate Valid()
      reads this, tinysets
    {
      Counted() && Value() < Pow2(maxValue)
    }

    /** The elements and the padding bits that are set. */
    ghost function SetBits(): set<nat>
      reads tinysets
    {
      Members(Value(), 64 * tinysets.Length)
    }

    ghost function Elements(): set<nat>
      reads tinysets
    {
      Members(Value(), maxValue)
    }

    constructor WithMaxValue(max: nat)
      ensures maxValue == max && fresh(tinysets) && Valid() && Elements() == {}
    {
      maxValue, len := max, 0;
      tinysets := new nat[NumBuckets(max)](_ => 0);
      new;
      ZeroWords(tinysets[..]);
      forall i: nat ensures !Bit(0, i) {
        NoHighBits(0, 0, i);
      }
    }

    constructor WithMaxValueAndFull(max: nat)
      ensures maxValue == max && fresh(tinysets) && Valid() && len == max
      ensures forall i: nat :: i in Elements() <==> i < max
    {
      maxValue, len := max, max;
      var words := FullArray(max);
      tinysets := words;
      new;
      FullAreWords(max, tinysets[..]);
      FullValue(max, tinysets[..]);
      AllOnes(max);
    }

    /** The last word takes an element above the bound too; the set is then no longer valid. */
    method Insert(el: nat)
      requires Counted() && el < 64 * tinysets.Length
      modifies this`len, tinysets
      ensures Counted() && SetBits() == old(SetBits()) + {el}
      ensures Elements() == old(Elements()) + if el < maxValue then {el} else {}
      ensures old(Valid()) ==> (Valid() <==> el < maxValue)
    {
      var higher, lower := el / 64, el % 64;
      ghost var words, n := tinysets[..], Value();
      InsertedWord(words, el);
      InsertedValue(n, el, maxValue);
      var before := tinysets[higher];
      tinysets[higher] := Or(before, Singleton(lower));
      assert tinysets[..] == words[higher := tinysets[higher]];
      len := len + if before != tinysets[higher] then 1 else 0;
    }

    method Remove(el: nat)
      requires Counted() && el < 64 * tinysets.Length
      modifies this`len, tinysets
      ensures Counted() && SetBits() == old(SetBits()) - {el}
      ensures Elements() == old(Elements()) - {el} && (old(Valid()) ==> Valid())
    {
      var higher, lower := el / 64, el % 64;
      ghost var words, n, w := tinysets[..], Value(), 64 * tinysets.Length;
      WordsBound(words);
      RemovedWord(words, el, w);
      ClearBit(w, n, el);
      ClearedBits(w, n, el);
      var before := tinysets[higher];
      tinysets[higher] := And(before, Not(64, Singleton(lower)));
      assert tinysets[..] == words[higher := tinysets[higher]];
      len := len - if before != tinysets[higher] then 1 else 0;
    }

    method Contains(el: nat) returns (r: bool)
      requires Counted() && el < 64 * tinysets.Length
      ensures r <==> el in SetBits()
      ensures el < maxValue ==> (r <==> el in Elements())
    {
      TinyContainsIsBit(tinysets[el / 64], el % 64);
      WordBit(tinysets[..], el / 64, el % 64);
      r := TinyContains(tinysets[el / 64], el % 64);
    }

    /** The cached size is the size of the set. */
    lemma LenIsCardinality()
      requires Valid()
      ensures len == |Elements()|
    {
      PopcountIsCardinality(Value(), maxValue);
    }

    /** Empties the set, but leaves the cached size as it was. */
    method Clear()
      requires Valid()
      modifies tinysets
      ensures Elements() == {} && len == old(len)
      ensures Valid() <==> old(Elements()) == {}
    {
      ghost var before, n := old(Value()), maxValue;
      for k := 0 to tinysets.Length
        invariant forall i | 0 <= i < k :: tinysets[i] == 0
      {
        tinysets[k] := 0;
      }
      ZeroWords(tinysets[..]);
      forall i: nat ensures !Bit(0, i) {
        NoHighBits(0, 0, i);
      }
      PopcountIsCardinality(before, n);
    }

    /** The bound in four bytes, then the words. */
    method Serialize() returns (output: seq<byte>)
      requires Valid() && maxValue < U32_LIMIT
      ensures output == LeBytes(maxValue, 4) + WordBytes(tinysets[..])
    {
      output := WriteWords(LeBytes(maxValue, 4), tinysets);
    }

    /** Intersects word by word and recounts; words the other side does not have are kept but not counted. */
    method IntersectUpdate(other: seq<nat>)
      requires Valid() && AreWords(other)
      modifies this`len, tinysets
      ensures Elements() ==
              set x | x in old(Elements()) && (x >= 64 * |other| || Bit(WordsValue(other), x))
      ensures Valid() <==> forall x | x in old(Elements()) :: x < 64 * |other|
    {
      ghost var words, n := tinysets[..], tinysets.Length;
      ghost var mask := Padded(other, n);
      ghost var all := AndWords(words, mask);
      PaddedWords(other, n);
      len := AndInto(tinysets, other);
      AndedWords(words, other, tinysets[..]);
      AndAreWords(words, mask);
      AndWordsValue(words, mask);
      AndMembers(WordsValue(words), WordsValue(mask), maxValue);
      AndBound(WordsValue(words), WordsValue(mask), maxValue);
      PaddedMembers(other, n, maxValue);
      TotalIsPopcount(all);
      UncountedWords(words, other, maxValue);
    }
  }

  /** The count is right exactly when no element lies behind the other side. */
  lemma UncountedWords(words: seq<nat>, other: seq<nat>, w: nat)
    requires AreWords(words) && AreWords(other) && w <= 64 * |words| && WordsValue(words) < Pow2(w)
    ensures var all, k := AndWords(words, Padded(other, |words|)), if |other| <= |words| then |other| else |words|;
            Total(all[..k]) == Total(all) <==> forall x | x in Members(WordsValue(words), w) :: x < 64 * |other|
  {
    var all, k := AndWords(words, Padded(other, |words|)), if |other| <= |words| then |other| else |words|;
    TotalPrefix(all, k);
    forall j | k <= j < |words|
      ensures all[j] == words[j]
    {
      AndKeepsRest(words, other, j);
    }
    EmptyHasNoBits(words, k);
    forall x: nat | x < 64 * |words| && Bit(WordsValue(words), x)
      ensures x in Members(WordsValue(words), w)
    {
      if w <= x {
        NoHighBits(WordsValue(words), w, x);
      }
    }
  }

  function WordBytes(words: seq<nat>): (r: seq<byte>)
    ensures |r| == 8 * |words|
  {
    if words == [] then [] else WordBytes(words[..|words| - 1]) + LeBytes(words[|words| - 1], 8)
  }

  method WriteWords(writer: seq<byte>, words: array<nat>) returns (output: seq<byte>)
    ensures output == writer + WordBytes(words[..])
  {
    output := writer;
    for k := 0 to words.Length
      invariant output == writer + WordBytes(words[..k])
    {
      output := output + LeBytes(words[k], 8);
      assert words[..k + 1][..k] == words[..k];
    }
    assert words[..words.Length] == words[..];
  }

  lemma AppendedWord(bytes: seq<byte>, x: nat, k: nat)
    requires x < Pow2(64) && k == 8 * |bytes|
    ensures LeValue(bytes + LeBytes(x, 8)) == LeValue(bytes) + Shl(x, k)
  {
    LeAppend(bytes, LeBytes(x, 8));
    LeBytesValue(x, 8);
    Small(x, 64);
  }

  lemma WordBytesSnoc(words: seq<nat>, x: nat)
    requires x < Pow2(64) && LeValue(WordBytes(words)) == WordsValue(words)
    ensures LeValue(WordBytes(words) + LeBytes(x, 8)) == WordsValue(words + [x])
  {
    AppendedWord(WordBytes(words), x, 64 * |words|);
    WordsSnoc(words, x);
  }

  lemma {:induction false} WordBytesValue(words: seq<nat>)
    requires AreWords(words)
    ensures LeValue(WordBytes(words)) == WordsValue(words)
  {
    if words != [] {
      var init, x := words[..|words| - 1], words[|words| - 1];
      WordBytesValue(init);
      WordBytesSnoc(init, x);
      assert words == init + [x];
    }
  }

  lemma {:induction false} ZeroWords(words: seq<nat>)
    requires forall i | 0 <= i < |words| :: words[i] == 0
    ensures WordsValue(words) == 0
  {
    if words != [] {
      ZeroWords(words[1..]);
      ShlZero(64);
    }
  }

  lemma OneBitBound(n: nat, el: nat, w: nat)
    requires n < Pow2(w) && el < w
    ensures Or(n, Shl(1, el)) < Pow2(w)
  {
    Pow2Mono(el, w);
    OpsBound(n, Shl(1, el), w);
  }

  /** Setting bit `el` of a number: its bits, its size, and whether it stays below the bound. */
  lemma InsertedValue(n: nat, el: nat, max: nat)
    ensures var m := Or(n, Shl(1, el));
            && (forall j: nat :: Bit(m, j) <==> Bit(n, j) || j == el)
            && Popcount(m) == Popcount(n) + (if Bit(n, el) then 0 else 1)
            && (n < Pow2(max) ==> (m < Pow2(max) <==> el < max))
  {
    SetBits(n, el);
    SetBit(n, el);
    if !Bit(n, el) {
      SetBitPopcount(n, el);
    }
    if n < Pow2(max) {
      if el < max {
        OneBitBound(n, el, max);
      } else if Or(n, Shl(1, el)) < Pow2(max) {
        NoHighBits(Or(n, Shl(1, el)), max, el);
      }
    }
  }
}
