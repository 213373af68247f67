/** The serialized bit set: opened without copying, tested bytewise, iterated word by word. */
module ReadOnlyBitSets {
  import opened Results
  import opened Bits
  import opened WordSets
  import opened BitSets

  /** The bytes, eight at a time, as words. */
  function Chunks(data: seq<byte>): (r: seq<nat>)
    ensures |r| == |data| / 8
  {
    if |data| < 8 then [] else [LeValue(data[..8])] + Chunks(data[8..])
  }

  lemma {:induction false} ChunksValue(data: seq<byte>)
    requires |data| % 8 == 0
    ensures AreWords(Chunks(data)) && WordsValue(Chunks(data)) == LeValue(data)
    decreases |data|
  {
    if |data| >= 8 {
      ChunksValue(data[8..]);
      assert data == data[..8] + data[8..];
      LeAppend(data[..8], data[8..]);
      LeBound(data[..8]);
      var c := Chunks(data);
      assert c[1..] == Chunks(data[8..]) && c[0] == LeValue(data[..8]);
    }
  }

  /** Bit `el` of the number is bit `el % 8` of byte `el / 8`. */
  lemma ByteBit(data: seq<byte>, el: nat)
    requires el / 8 < |data|
    ensures Bit(data[el / 8], el % 8) <==> Bit(LeValue(data), el)
  {
    var k, i, n := el / 8, el % 8, LeValue(data);
    LeSlice(data, k, k + 1);
    assert data[k..k + 1] == [data[k]];
    assert LeValue([data[k]]) == data[k] + 256 * LeValue([data[k]][1..]) == data[k];
    BitLow(Shr(n, 8 * k), 8, i);
    BitShr(n, 8 * k, i);
  }

  datatype ReadOnlyBitSet = ReadOnlyBitSet(data: seq<byte>, maxValue: nat) {
    predicate Valid() {
      |data| % 8 == 0
    }

    ghost function Elements(): set<nat> {
      Members(LeValue(data), 8 * |data|)
    }

    /** One byte is looked at. */
    predicate Contains(el: nat)
      requires el / 8 < |data|
    {
      And(data[el / 8], Low(Shl(1, el % 8), 8)) != 0
    }

    lemma ContainsIsMember(el: nat)
      requires el / 8 < |data|
      ensures Contains(el) <==> el in Elements()
    {
      var i := el % 8;
      Pow2Mono(i, 8);
      Small(Shl(1, i), 8);
      AndOne(data[el / 8], i);
      ByteBit(data, el);
    }
  }

  function Open(bytes: seq<byte>): (r: ReadOnlyBitSet)
    requires |bytes| >= 4 && (|bytes| - 4) % 8 == 0
    ensures r.Valid()
  {
    ReadOnlyBitSet(bytes[4..], LeValue(bytes[..4]))
  }

  method Len(s: ReadOnlyBitSet) returns (r: nat)
    requires s.Valid()
    ensures r == |s.Elements()|
  {
    var words := Chunks(s.data);
    r := 0;
    for k := 0 to |words|
      invariant r == Total(words[..k])
    {
      r := r + Popcount(words[k]);
      assert words[..k + 1][..k] == words[..k];
    }
    assert words[..|words|] == words;
    ChunksValue(s.data);
    TotalIsPopcount(words);
    LeBound(s.data);
    PopcountIsCardinality(LeValue(s.data), 8 * |s.data|);
  }

  ghost predicate Ascending(s: seq<nat>) {
    forall i, j | 0 <= i < j < |s| :: s[i] < s[j]
  }

  /** The elements of one word, offset by `base` and cut at `max`. */
  method IterWord(word: nat, base: nat, max: nat) returns (r: seq<nat>)
    requires word < Pow2(64)
    ensures Ascending(r)
    ensures forall el: nat :: el in r <==> base <= el < base + 64 && el < max && Bit(word, el - base)
  {
    r := [];
    var rest: nat := word;
    ghost var next: nat := 0;
    while true
      invariant rest < Pow2(64) && next <= 64
      invariant Ascending(r)
      invariant forall j: nat :: Bit(rest, j) <==> next <= j && Bit(word, j)
      invariant forall el: nat :: el in r <==> base <= el < base + next && el < max && Bit(word, el - base)
      decreases rest
    {
      var lowest;
      lowest, rest := PopLowest(rest);
      if lowest.None? {
        NoBits(word, next);
        return;
      }
      var doc := lowest.value + base;
      if doc >= max {
        return;
      }
      AscendingConcat(r, [doc], doc);
      r := r + [doc];
      next := lowest.value + 1;
    }
  }

  lemma NoBits(word: nat, next: nat)
    requires word < Pow2(64) && forall j: nat :: Bit(0, j) <==> next <= j && Bit(word, j)
    ensures forall j: nat | next <= j :: !Bit(word, j)
  {
    forall j: nat | next <= j ensures !Bit(word, j) {
      NoHighBits(0, 0, j);
    }
  }

  /** All elements below the bound, in ascending order. */
  method Iter(s: ReadOnlyBitSet) returns (r: seq<nat>)
    requires s.Valid()
    ensures Ascending(r)
    ensures forall el: nat :: el in r <==> el in s.Elements() && el < s.maxValue
  {
    var words := Chunks(s.data);
    ghost var n := LeValue(s.data);
    ChunksValue(s.data);
    r := [];
    for k := 0 to |words|
      invariant Ascending(r)
      invariant forall el: nat :: el in r <==> el < 64 * k && el < s.maxValue && Bit(n, el)
    {
      var part := IterWord(words[k], 64 * k, s.maxValue);
      AscendingConcat(r, part, 64 * k);
      forall el: nat ensures el in part <==> 64 * k <= el < 64 * k + 64 && el < s.maxValue && Bit(n, el) {
        if 64 * k <= el < 64 * k + 64 {
          WordBit(words, k, el - 64 * k);
        }
      }
      r := r + part;
    }
  }

  lemma AscendingConcat(a: seq<nat>, b: seq<nat>, m: nat)
    requires Ascending(a) && Ascending(b)
    requires (forall x | x in a :: x < m) && forall y | y in b :: m <= y
    ensures Ascending(a + b)
  {
    var c := a + b;
    forall i, j | 0 <= i < j < |c| ensures c[i] < c[j] {
      if i < |a| <= j {
        assert a[i] in a && b[j - |a|] in b;
      }
    }
  }

  method AndBytes(a: seq<nat>, b: seq<nat>) returns (output: seq<byte>)
    requires |a| == |b|
    ensures output == WordBytes(AndWords(a, b))
  {
    ghost var all := AndWords(a, b);
    output := [];
    for k := 0 to |a|
      invariant output == WordBytes(all[..k])
    {
      output := output + LeBytes(And(a[k], b[k]), 8);
      assert all[..k + 1][..k] == all[..k];
    }
    assert all[..|a|] == all;
  }

  lemma AndBytesValue(x: seq<byte>, y: seq<byte>)
    requires |x| == |y| && |x| % 8 == 0
    ensures LeValue(WordBytes(AndWords(Chunks(x), Chunks(y)))) == And(LeValue(x), LeValue(y))
  {
    var a, b := Chunks(x), Chunks(y);
    ChunksValue(x);
    ChunksValue(y);
    AndAreWords(a, b);
    AndWordsValue(a, b);
    WordBytesValue(AndWords(a, b));
  }

  /** Word-wise intersection of two serialized sets of one size. */
  method IntersectBitsets(left: ReadOnlyBitSet, other: ReadOnlyBitSet) returns (r: ReadOnlyBitSet)
    requires left.Valid() && other.Valid()
    requires left.maxValue == other.maxValue && |left.data| == |other.data|
    ensures r.Valid() && r.maxValue == left.maxValue && |r.data| == |left.data|
    ensures r.Elements() == left.Elements() * other.Elements()
  {
    var output := AndBytes(Chunks(left.data), Chunks(other.data));
    AndBytesValue(left.data, other.data);
    AndMembers(LeValue(left.data), LeValue(other.data), 8 * |left.data|);
    r := ReadOnlyBitSet(output, left.maxValue);
  }

  lemma OpenedBytes(maxValue: nat, words: seq<nat>, bytes: seq<byte>)
    requires maxValue < U32_LIMIT && AreWords(words) && bytes == LeBytes(maxValue, 4) + WordBytes(words)
    ensures LeValue(bytes[..4]) == maxValue
    ensures |bytes[4..]| == 8 * |words| && LeValue(bytes[4..]) == WordsValue(words)
  {
    assert bytes[4..] == WordBytes(words) && bytes[..4] == LeBytes(maxValue, 4);
    Pow2Values();
    LeBytesValue(maxValue, 4);
    Small(maxValue, 32);
    WordBytesValue(words);
  }

  /** Serializing a set and opening the bytes gives the same set and the same answers. */
  method SerializeThenOpen(s: BitSet) returns (r: ReadOnlyBitSet)
    requires s.Valid() && s.maxValue < U32_LIMIT
    ensures r.Valid() && r.maxValue == s.maxValue
    ensures r.Elements() == s.Elements() && |r.Elements()| == s.len
    ensures forall el: nat | el < s.maxValue :: el / 8 < |r.data| && (r.Contains(el) <==> el in s.Elements())
  {
    var bytes := s.Serialize();
    r := Open(bytes);
    OpenedBytes(s.maxValue, s.tinysets[..], bytes);
    OpenedSet(r, s.Value());
    s.LenIsCardinality();
  }

  lemma OpenedSet(r: ReadOnlyBitSet, n: nat)
    requires LeValue(r.data) == n < Pow2(r.maxValue) && r.maxValue <= 8 * |r.data|
    ensures r.Elements() == Members(n, r.maxValue)
    ensures forall el: nat | el < r.maxValue :: el / 8 < |r.data| && (r.Contains(el) <==> el in Members(n, r.maxValue))
  {
    SameMembers(n, r.maxValue, 8 * |r.data|);
    forall el: nat | el < r.maxValue
      ensures el / 8 < |r.data| && (r.Contains(el) <==> el in Members(n, r.maxValue))
    {
      r.ContainsIsMember(el);
    }
  }

  lemma SameMembers(n: nat, a: nat, b: nat)
    requires n < Pow2(a) && a <= b
    ensures Members(n, a) == Members(n, b)
  {
    forall i: nat | Bit(n, i) ensures i < a {
      if i >= a {
        NoHighBits(n, a, i);
      }
    }
  }
}
