/** Sets of small numbers as one natural number whose bit `i` says whether `i` is a member, cut
    into 64-bit words; and the operations of `TinySet` on one word. */
module WordSets {
  import opened Results
  import opened Bits

  // ---- sets as numbers ----

  /** `count_ones`. */
  function Popcount(n: nat): nat {
    if n == 0 then 0 else n % 2 + Popcount(n / 2)
  }

  ghost function Members(n: nat, w: nat): set<nat> {
    set i: nat | i < w && Bit(n, i)
  }

  lemma {:induction false} BitLow(n: nat, k: nat, i: nat)
    ensures Bit(Low(n, k), i) <==> i < k && Bit(n, i)
    decreases k
  {
    var l := Low(n, k);
    if k > 0 {
      assert l % 2 == n % 2 && l / 2 == Low(n / 2, k - 1);
      if i > 0 {
        BitLow(n / 2, k - 1, i - 1);
      }
    }
  }

  lemma BitShr(n: nat, k: nat, i: nat)
    ensures Bit(Shr(n, k), i) <==> Bit(n, k + i)
  {
    ShrAdd(n, k, i);
  }

  lemma {:induction false} BitOne(i: nat, j: nat)
    ensures Bit(Shl(1, i), j) <==> i == j
    decreases j
  {
    if i == 0 && j > 0 {
      NoHighBits(1, 1, j);
    } else if j > 0 {
      BitOne(i - 1, j - 1);
    }
  }

  lemma {:induction false} PopcountSplit(n: nat, k: nat)
    ensures Popcount(n) == Popcount(Low(n, k)) + Popcount(Shr(n, k))
    decreases k
  {
    if k > 0 {
      PopcountSplit(n / 2, k - 1);
      assert Low(n, k) / 2 == Low(n / 2, k - 1) && Low(n, k) % 2 == n % 2;
    }
  }

  lemma PopcountSum(x: nat, y: nat, k: nat)
    requires x < Pow2(k)
    ensures Popcount(x + Shl(y, k)) == Popcount(x) + Popcount(y)
  {
    PopcountSplit(x + Shl(y, k), k);
    AddHigh(x, y, k);
    Small(x, k);
  }

  /** The number of set bits is the size of the set. */
  lemma {:induction false} PopcountIsCardinality(n: nat, w: nat)
    requires n < Pow2(w)
    ensures |Members(n, w)| == Popcount(n)
    decreases w
  {
    if w > 0 {
      var k := w - 1;
      var low, top := Low(n, k), Shr(n, k);
      Split(n, k);
      PopcountIsCardinality(low, k);
      PopcountSplit(n, k);
      ShrBound(n, k, 1);
      assert top == 0 || top == 1;
      forall i: nat ensures Bit(low, i) <==> i < k && Bit(n, i) {
        BitLow(n, k, i);
      }
      assert Members(n, w) == Members(low, k) + if top == 1 then {k} else {};
    }
  }

  // ---- changing one bit ----

  lemma {:induction false} SetBit(n: nat, i: nat)
    ensures Or(n, Shl(1, i)) == n + if Bit(n, i) then 0 else Shl(1, i)
    decreases i
  {
    if i == 0 {
      ZeroOps(n / 2);
    } else {
      SetBit(n / 2, i - 1);
    }
  }

  lemma {:induction false} SetBitPopcount(n: nat, i: nat)
    requires !Bit(n, i)
    ensures Popcount(n + Shl(1, i)) == Popcount(n) + 1
    decreases i
  {
    if i > 0 {
      SetBitPopcount(n / 2, i - 1);
      assert (n + Shl(1, i)) / 2 == n / 2 + Shl(1, i - 1) && (n + Shl(1, i)) % 2 == n % 2;
    }
  }

  /** `n & !(1 << i)` in a `w`-bit word. */
  function Without(w: nat, n: nat, i: nat): nat
    requires i < w
  {
    Pow2Mono(i, w);
    And(n, Not(w, Shl(1, i)))
  }

  lemma {:induction false} ClearBit(w: nat, n: nat, i: nat)
    requires i < w && n < Pow2(w)
    ensures Without(w, n, i) == if Bit(n, i) then n - Shl(1, i) else n
    ensures Bit(n, i) ==> Shl(1, i) <= n
    decreases i
  {
    Pow2Mono(i, w);
    var mask := Not(w, Shl(1, i));
    if i == 0 {
      assert mask / 2 == Pow2(w - 1) - 1 && mask % 2 == 0;
      AndMask(n / 2, w - 1);
      Small(n / 2, w - 1);
    } else {
      assert mask / 2 == Not(w - 1, Shl(1, i - 1)) && mask % 2 == 1 by { Pow2Mono(i - 1, w - 1); }
      ClearBit(w - 1, n / 2, i - 1);
    }
  }

  lemma ClearedBits(w: nat, n: nat, i: nat)
    requires i < w && n < Pow2(w)
    ensures Popcount(n) == Popcount(Without(w, n, i)) + if Bit(n, i) then 1 else 0
    ensures forall j: nat :: Bit(Without(w, n, i), j) <==> Bit(n, j) && j != i
  {
    var r := Without(w, n, i);
    ClearBit(w, n, i);
    if Bit(n, i) {
      BitBelow(n, i);
      SetBit(r, i);
      SetBitPopcount(r, i);
      forall j: nat ensures Bit(r, j) <==> Bit(n, j) && j != i {
        BitOr(r, Shl(1, i), j);
        BitOne(i, j);
      }
    }
  }

  /** Subtracting a set bit clears it. */
  lemma {:induction false} BitBelow(n: nat, i: nat)
    requires Bit(n, i)
    ensures Shl(1, i) <= n && !Bit(n - Shl(1, i), i)
    decreases i
  {
    if i > 0 {
      BitBelow(n / 2, i - 1);
      assert (n - Shl(1, i)) / 2 == n / 2 - Shl(1, i - 1);
    }
  }

  lemma SetBits(n: nat, i: nat)
    ensures forall j: nat :: Bit(Or(n, Shl(1, i)), j) <==> Bit(n, j) || j == i
  {
    forall j: nat ensures Bit(Or(n, Shl(1, i)), j) <==> Bit(n, j) || j == i {
      BitOr(n, Shl(1, i), j);
      BitOne(i, j);
    }
  }

  // ---- words ----

  /** The number spelled by 64-bit words, least significant first. */
  function WordsValue(words: seq<nat>): nat {
    if words == [] then 0 else words[0] + Shl(WordsValue(words[1..]), 64)
  }

  ghost predicate AreWords(words: seq<nat>) {
    forall k | 0 <= k < |words| :: words[k] < Pow2(64)
  }

  lemma {:induction false} WordsBound(words: seq<nat>)
    requires AreWords(words)
    ensures WordsValue(words) < Pow2(64 * |words|)
  {
    if words != [] {
      WordsBound(words[1..]);
      AddHighBound(words[0], WordsValue(words[1..]), 64, 64 * (|words| - 1));
    }
  }

  lemma WordsHead(words: seq<nat>)
    requires words != [] && words[0] < Pow2(64)
    ensures Low(WordsValue(words), 64) == words[0]
    ensures Shr(WordsValue(words), 64) == WordsValue(words[1..])
  {
    AddHigh(words[0], WordsValue(words[1..]), 64);
    Small(words[0], 64);
  }

  /** Word `k` holds bits `64k..64k+64`. */
  lemma {:induction false} WordBit(words: seq<nat>, k: nat, i: nat)
    requires AreWords(words) && k < |words| && i < 64
    ensures Bit(WordsValue(words), 64 * k + i) <==> Bit(words[k], i)
  {
    WordsHead(words);
    if k == 0 {
      BitLow(WordsValue(words), 64, i);
    } else {
      WordBit(words[1..], k - 1, i);
      BitShr(WordsValue(words), 64, 64 * (k - 1) + i);
    }
  }

  lemma ShiftedUpdate(a: nat, b: nat, x: nat, y: nat, m: nat, k: nat)
    requires a + Shl(x, m) == b + Shl(y, m)
    ensures Shl(a, k) + Shl(x, m + k) == Shl(b, k) + Shl(y, m + k)
  {
    ShlSum(a, Shl(x, m), k);
    ShlSum(b, Shl(y, m), k);
    ShlAdd(x, m, k);
    ShlAdd(y, m, k);
  }

  /** Changing one word changes the number by the shifted difference. */
  lemma {:induction false} WordUpdate(words: seq<nat>, k: nat, x: nat)
    requires k < |words|
    ensures WordsValue(words[k := x]) + Shl(words[k], 64 * k) == WordsValue(words) + Shl(x, 64 * k)
  {
    if k == 0 {
      assert words[0 := x][1..] == words[1..];
    } else {
      var rest := words[1..];
      WordUpdate(rest, k - 1, x);
      assert words[k := x][1..] == rest[k - 1 := x];
      ShiftedUpdate(WordsValue(rest[k - 1 := x]), WordsValue(rest), rest[k - 1], x, 64 * (k - 1), 64);
    }
  }

  lemma {:induction false} WordsSnoc(words: seq<nat>, x: nat)
    ensures WordsValue(words + [x]) == WordsValue(words) + Shl(x, 64 * |words|)
  {
    if words == [] {
      assert words + [x] == [x];
      ShlZero(64);
    } else {
      assert (words + [x])[1..] == words[1..] + [x];
      WordsSnoc(words[1..], x);
      ShlSum(WordsValue(words[1..]), Shl(x, 64 * (|words| - 1)), 64);
      ShlAdd(x, 64 * (|words| - 1), 64);
    }
  }

  /** Sum of the word sizes. */
  function Total(words: seq<nat>): nat {
    if words == [] then 0 else Total(words[..|words| - 1]) + Popcount(words[|words| - 1])
  }

  lemma {:induction false} TotalIsPopcount(words: seq<nat>)
    requires AreWords(words)
    ensures Total(words) == Popcount(WordsValue(words))
  {
    if words != [] {
      var n := |words| - 1;
      TotalIsPopcount(words[..n]);
      assert words == words[..n] + [words[n]];
      WordsSnoc(words[..n], words[n]);
      WordsBound(words[..n]);
      PopcountSum(WordsValue(words[..n]), words[n], 64 * n);
    }
  }

  // ---- TinySet ----

  function Singleton(el: nat): nat {
    Low(Shl(1, el), 64)
  }

  predicate TinyContains(x: nat, el: nat) {
    And(x, Singleton(el)) != 0
  }

  lemma SingletonIsBit(el: nat)
    requires el < 64
    ensures Singleton(el) == Shl(1, el) < Pow2(64)
  {
    Pow2Mono(el, 64);
    Small(Shl(1, el), 64);
  }

  lemma {:induction false} AndOne(n: nat, i: nat)
    ensures And(n, Shl(1, i)) == if Bit(n, i) then Shl(1, i) else 0
    decreases i
  {
    if i == 0 {
      ZeroOps(n / 2);
    } else {
      AndOne(n / 2, i - 1);
    }
  }

  lemma TinyContainsIsBit(x: nat, el: nat)
    requires el < 64
    ensures TinyContains(x, el) <==> Bit(x, el)
  {
    SingletonIsBit(el);
    AndOne(x, el);
  }

  function TrailingZeros(x: nat): nat
    requires x > 0
  {
    if x % 2 == 1 then 0 else 1 + TrailingZeros(x / 2)
  }

  lemma {:induction false} TrailingZerosIsLowest(x: nat)
    requires x > 0
    ensures Bit(x, TrailingZeros(x))
    ensures forall j: nat | j < TrailingZeros(x) :: !Bit(x, j)
  {
    if x % 2 == 0 {
      TrailingZerosIsLowest(x / 2);
      forall j: nat | j < TrailingZeros(x) ensures !Bit(x, j) {
        if j > 0 {
          assert !Bit(x / 2, j - 1);
        }
      }
    }
  }

  lemma {:induction false} XorOne(n: nat, i: nat)
    requires Bit(n, i)
    ensures Shl(1, i) <= n && Xor(n, Shl(1, i)) == n - Shl(1, i)
    decreases i
  {
    if i == 0 {
      ZeroOps(n / 2);
    } else {
      XorOne(n / 2, i - 1);
    }
  }

  method PopLowest(x: nat) returns (lowest: Option<nat>, rest: nat)
    requires x < Pow2(64)
    ensures lowest.None? <==> x == 0
    ensures lowest.None? ==> rest == x
    ensures lowest.Some? ==>
              && lowest.value < 64 && Bit(x, lowest.value) && rest < x
              && (forall j: nat | j < lowest.value :: !Bit(x, j))
              && (forall j: nat :: Bit(rest, j) <==> Bit(x, j) && j != lowest.value)
  {
    if x == 0 {
      return None, x;
    }
    var l := TrailingZeros(x);
    TrailingZerosIsLowest(x);
    if l >= 64 {
      NoHighBits(x, 64, l);
    }
    SingletonIsBit(l);
    XorOne(x, l);
    rest := Xor(x, Singleton(l));
    forall j: nat ensures Bit(rest, j) <==> Bit(x, j) && j != l {
      BitXor(x, Shl(1, l), j);
      BitOne(l, j);
    }
    lowest := Some(l);
  }
}
