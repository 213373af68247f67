/** Machine words as natural numbers: shifts, masks, bitwise operators, little-endian bytes.

    Everything is defined by halving, so that proofs follow the bits; `ShiftMeaning` relates the
    shifts to multiplication, division and remainder by a power of two. */
module Bits {

  type byte = x: nat | x < 256

  const U32_LIMIT: nat := 0x1_0000_0000

  /** `x * 2^k`, without a word size. */
  function Shl(x: nat, k: nat): (r: nat)
    ensures r >= x
  {
    if k == 0 then x else 2 * Shl(x, k - 1)
  }

  /** `x / 2^k`. */
  function Shr(x: nat, k: nat): (r: nat)
    ensures r <= x
  {
    if k == 0 then x else Shr(x / 2, k - 1)
  }

  /** `x mod 2^k`, the low `k` bits. */
  function Low(x: nat, k: nat): (r: nat)
    ensures r <= x
  {
    if k == 0 then 0 else x % 2 + 2 * Low(x / 2, k - 1)
  }

  function Pow2(k: nat): (r: nat)
    ensures r > 0
  {
    Shl(1, k)
  }

  predicate Bit(x: nat, i: nat) {
    Shr(x, i) % 2 == 1
  }

  // ---- shifts ----

  lemma {:induction false} Split(x: nat, k: nat)
    ensures x == Low(x, k) + Shl(Shr(x, k), k)
    ensures Low(x, k) < Pow2(k)
    decreases k
  {
    if k > 0 {
      Split(x / 2, k - 1);
    }
  }

  lemma {:induction false} ShlAdd(x: nat, a: nat, b: nat)
    ensures Shl(x, a + b) == Shl(Shl(x, a), b)
    decreases b
  {
    if b > 0 {
      ShlAdd(x, a, b - 1);
    }
  }

  lemma {:induction false} ShlSum(x: nat, y: nat, k: nat)
    ensures Shl(x + y, k) == Shl(x, k) + Shl(y, k)
    decreases k
  {
    if k > 0 {
      ShlSum(x, y, k - 1);
    }
  }

  lemma {:induction false} ShlZero(k: nat)
    ensures Shl(0, k) == 0
    decreases k
  {
    if k > 0 {
      ShlZero(k - 1);
    }
  }

  lemma {:induction false} ShrAdd(x: nat, a: nat, b: nat)
    ensures Shr(x, a + b) == Shr(Shr(x, a), b)
    decreases a
  {
    if a > 0 {
      ShrAdd(x / 2, a - 1, b);
    }
  }

  /** Adding a multiple of `2^k` shows above bit `k` only. */
  lemma {:induction false} AddHigh(x: nat, y: nat, k: nat)
    ensures Low(x + Shl(y, k), k) == Low(x, k)
    ensures Shr(x + Shl(y, k), k) == Shr(x, k) + y
    decreases k
  {
    if k > 0 {
      assert (x + Shl(y, k)) / 2 == x / 2 + Shl(y, k - 1);
      AddHigh(x / 2, y, k - 1);
    }
  }

  lemma {:induction false} Small(x: nat, k: nat)
    requires x < Pow2(k)
    ensures Low(x, k) == x && Shr(x, k) == 0
    decreases k
  {
    if k > 0 {
      Small(x / 2, k - 1);
    }
  }

  lemma {:induction false} LowLow(x: nat, a: nat, b: nat)
    requires a <= b
    ensures Low(Low(x, b), a) == Low(x, a)
    decreases a
  {
    if a > 0 {
      assert Low(x, b) / 2 == Low(x / 2, b - 1);
      LowLow(x / 2, a - 1, b - 1);
    }
  }

  /** Extracting bits `a..a+b` does not see the bits above. */
  lemma {:induction false} ShrLow(x: nat, a: nat, b: nat)
    ensures Shr(Low(x, a + b), a) == Low(Shr(x, a), b)
    decreases a
  {
    if a > 0 {
      assert Low(x, a + b) / 2 == Low(x / 2, a - 1 + b);
      ShrLow(x / 2, a - 1, b);
    }
  }

  /** A low field under a high field. */
  lemma LowSplit(x: nat, a: nat, b: nat)
    ensures Low(x, a + b) == Low(x, a) + Shl(Low(Shr(x, a), b), a)
  {
    Split(Low(x, a + b), a);
    LowLow(x, a, a + b);
    ShrLow(x, a, b);
  }

  /** Bits below `k` are unchanged by adding above `k + j`. */
  lemma FieldBelow(x: nat, y: nat, a: nat, b: nat, k: nat)
    requires a + b <= k
    ensures Low(Shr(x + Shl(y, k), a), b) == Low(Shr(x, a), b)
  {
    AddHigh(x, y, k);
    LowLow(x, a + b, k);
    LowLow(x + Shl(y, k), a + b, k);
    ShrLow(x, a, b);
    ShrLow(x + Shl(y, k), a, b);
  }

  lemma FieldOfLow(x: nat, k: nat, a: nat, b: nat)
    requires a + b <= k
    ensures Low(Shr(Low(x, k), a), b) == Low(Shr(x, a), b)
  {
    LowLow(x, a + b, k);
    ShrLow(x, a, b);
    ShrLow(Low(x, k), a, b);
  }

  lemma {:induction false} LowShl(x: nat, w: nat, k: nat)
    ensures Low(Shl(x, w), w + k) == Shl(Low(x, k), w)
    decreases w
  {
    if w > 0 {
      assert Shl(x, w) / 2 == Shl(x, w - 1);
      LowShl(x, w - 1, k);
    }
  }

  lemma {:induction false} Pow2Mono(a: nat, b: nat)
    requires a <= b
    ensures Pow2(a) <= Pow2(b)
    ensures a < b ==> 2 * Pow2(a) <= Pow2(b)
    decreases b
  {
    if a < b {
      Pow2Mono(a, b - 1);
    }
  }

  lemma {:induction false} ShlMono(x: nat, y: nat, k: nat)
    requires x <= y
    ensures Shl(x, k) <= Shl(y, k)
    decreases k
  {
    if k > 0 {
      ShlMono(x, y, k - 1);
    }
  }

  lemma AddHighBound(x: nat, y: nat, k: nat, j: nat)
    requires x < Pow2(k) && y < Pow2(j)
    ensures x + Shl(y, k) < Pow2(k + j)
  {
    ShlMono(y + 1, Pow2(j), k);
    ShlSum(y, 1, k);
    ShlAdd(1, j, k);
  }

  lemma {:induction false} ShrBound(x: nat, a: nat, b: nat)
    requires x < Pow2(a + b)
    ensures Shr(x, a) < Pow2(b)
    decreases a
  {
    if a > 0 {
      ShrBound(x / 2, a - 1, b);
    }
  }

  lemma Pow2Values()
    ensures Pow2(7) == 0x80 && Pow2(8) == 0x100 && Pow2(16) == 0x1_0000 && Pow2(24) == 0x100_0000
    ensures Pow2(32) == 0x1_0000_0000 && Pow2(56) == 0x100_0000_0000_0000
    ensures Pow2(64) == 0x1_0000_0000_0000_0000
  {
    Shl8(1);
    Shl8(0x100);
    Shl8(0x1_0000);
    Shl8(0x100_0000);
    Shl8(0x1_0000_0000);
    Shl8(0x100_0000_0000);
    Shl8(0x1_0000_0000_0000);
    Shl8(0x100_0000_0000_0000);
    ShlAdd(1, 8, 8);
    ShlAdd(1, 16, 8);
    ShlAdd(1, 24, 8);
    ShlAdd(1, 32, 8);
    ShlAdd(1, 40, 8);
    ShlAdd(1, 48, 8);
    ShlAdd(1, 56, 8);
  }

  lemma Shl8(x: nat)
    ensures Shl(x, 8) == 256 * x && Shl(x, 7) == 128 * x
  {
    assert Shl(x, 1) == 2 * x;
    assert Shl(x, 2) == 4 * x;
    assert Shl(x, 3) == 8 * x;
    assert Shl(x, 4) == 16 * x;
    assert Shl(x, 5) == 32 * x;
    assert Shl(x, 6) == 64 * x;
  }

  lemma Low8(x: nat)
    ensures Low(x, 8) == x % 256 && Shr(x, 8) == x / 256
  {
    var q, r := Shr(x, 8), Low(x, 8);
    Split(x, 8);
    Shl8(q);
    Shl8(1);
    assert x == 256 * q + r && r < 256;
  }

  /** The shifts are multiplication, division and remainder by `2^k`. */
  lemma {:induction false} ShiftMeaning(x: nat, k: nat)
    ensures Shl(x, k) == x * Pow2(k)
    ensures Shr(x, k) == x / Pow2(k)
    ensures Low(x, k) == x % Pow2(k)
    decreases k
  {
    ShlIsMul(x, k);
    Split(x, k);
    ShlIsMul(Shr(x, k), k);
    DivModUnique(x, Pow2(k), Shr(x, k), Low(x, k));
  }

  lemma {:induction false} ShlIsMul(x: nat, k: nat)
    ensures Shl(x, k) == x * Pow2(k)
    decreases k
  {
    if k > 0 {
      ShlIsMul(x, k - 1);
    }
  }

  lemma MulMono(a: nat, b: nat, d: nat)
    requires a <= b
    ensures a * d <= b * d
  {
  }

  lemma DivModUnique(x: nat, d: nat, q: nat, r: nat)
    requires r < d && x == q * d + r
    ensures x / d == q && x % d == r
  {
    var p := x / d;
    assert x == p * d + x % d && (q + 1) * d == q * d + d && (p + 1) * d == p * d + d;
    if q < p {
      MulMono(q + 1, p, d);
    } else if p < q {
      MulMono(p + 1, q, d);
    }
  }

  // ---- bitwise operators ----

  function Or(x: nat, y: nat): nat {
    if x == 0 && y == 0 then 0 else 2 * Or(x / 2, y / 2) + if x % 2 == 1 || y % 2 == 1 then 1 else 0
  }

  function And(x: nat, y: nat): nat {
    if x == 0 && y == 0 then 0 else 2 * And(x / 2, y / 2) + if x % 2 == 1 && y % 2 == 1 then 1 else 0
  }

  function Xor(x: nat, y: nat): nat {
    if x == 0 && y == 0 then 0 else 2 * Xor(x / 2, y / 2) + if x % 2 != y % 2 then 1 else 0
  }

  /** Complement of a `w`-bit word. */
  function Not(w: nat, x: nat): nat
    requires x < Pow2(w)
  {
    Pow2(w) - 1 - x
  }

  lemma {:induction false} BitOr(x: nat, y: nat, i: nat)
    ensures Bit(Or(x, y), i) <==> Bit(x, i) || Bit(y, i)
    decreases i
  {
    if i > 0 {
      BitOr(x / 2, y / 2, i - 1);
      assert Or(x, y) / 2 == Or(x / 2, y / 2);
    }
  }

  lemma {:induction false} BitAnd(x: nat, y: nat, i: nat)
    ensures Bit(And(x, y), i) <==> Bit(x, i) && Bit(y, i)
    decreases i
  {
    if i > 0 {
      BitAnd(x / 2, y / 2, i - 1);
      assert And(x, y) / 2 == And(x / 2, y / 2);
    }
  }

  lemma {:induction false} BitXor(x: nat, y: nat, i: nat)
    ensures Bit(Xor(x, y), i) <==> Bit(x, i) != Bit(y, i)
    decreases i
  {
    if i > 0 {
      BitXor(x / 2, y / 2, i - 1);
      assert Xor(x, y) / 2 == Xor(x / 2, y / 2);
    }
  }

  lemma NoHighBits(x: nat, w: nat, i: nat)
    requires x < Pow2(w) && w <= i
    ensures !Bit(x, i)
  {
    Pow2Mono(w, i);
    Small(x, i);
  }

  /** A word is determined by its bits. */
  lemma {:induction false} BitsEqual(x: nat, y: nat, w: nat)
    requires x < Pow2(w) && y < Pow2(w)
    requires forall i: nat | i < w :: Bit(x, i) == Bit(y, i)
    ensures x == y
    decreases w
  {
    if w > 0 {
      forall i: nat | i < w - 1 ensures Bit(x / 2, i) == Bit(y / 2, i) {
        assert Bit(x / 2, i) == Bit(x, i + 1) && Bit(y / 2, i) == Bit(y, i + 1);
      }
      BitsEqual(x / 2, y / 2, w - 1);
      assert Bit(x, 0) == Bit(y, 0);
    }
  }

  lemma {:induction false} OpsBound(x: nat, y: nat, w: nat)
    requires x < Pow2(w) && y < Pow2(w)
    ensures Or(x, y) < Pow2(w) && And(x, y) < Pow2(w) && Xor(x, y) < Pow2(w)
    decreases w
  {
    if w > 0 {
      OpsBound(x / 2, y / 2, w - 1);
    }
  }

  lemma {:induction false} ZeroOps(x: nat)
    ensures Or(x, 0) == x && And(x, 0) == 0 && Xor(x, 0) == x && Xor(x, x) == 0
    ensures Or(0, x) == x && And(0, x) == 0 && Xor(0, x) == x
  {
    if x > 0 {
      ZeroOps(x / 2);
    }
  }

  /** `|` of a low part and a shifted high part is addition. */
  lemma {:induction false} OrHigh(x: nat, y: nat, k: nat)
    requires x < Pow2(k)
    ensures Or(x, Shl(y, k)) == x + Shl(y, k)
    decreases k
  {
    if k == 0 {
      ZeroOps(y);
    } else {
      OrHigh(x / 2, y, k - 1);
    }
  }

  lemma OrLowShl(x: nat, y: nat, s: nat, n: nat)
    requires x < Pow2(s)
    ensures Or(x, Low(Shl(y, s), s + n)) == x + Shl(Low(y, n), s)
  {
    LowShl(y, s, n);
    OrHigh(x, Low(y, n), s);
  }

  lemma LowSum(x: nat, y: nat, s: nat, n: nat)
    requires x < Pow2(s)
    ensures Low(x + Shl(y, s), s + n) == x + Shl(Low(y, n), s)
  {
    LowSplit(x + Shl(y, s), s, n);
    AddHigh(x, y, s);
    Small(x, s);
  }

  /** Or-ing a shifted value above the bits present, in a `k`-bit word. */
  lemma OrIntoWord(x: nat, y: nat, s: nat, k: nat)
    requires s <= k && x < Pow2(s)
    ensures Or(x, Low(Shl(y, s), k)) == Low(x + Shl(y, s), k)
  {
    var n := k - s;
    assert k == s + n;
    OrLowShl(x, y, s, n);
    LowSum(x, y, s, n);
  }

  /** Masking with `2^k - 1` keeps the low bits. */
  lemma {:induction false} AndMask(x: nat, k: nat)
    ensures And(x, Pow2(k) - 1) == Low(x, k)
    decreases k
  {
    if k == 0 {
      ZeroOps(x);
    } else {
      AndMask(x / 2, k - 1);
      assert (Pow2(k) - 1) / 2 == Pow2(k - 1) - 1;
    }
  }

  /** Masking with a shifted mask selects a field in place. */
  lemma {:induction false} AndField(x: nat, j: nat, k: nat)
    ensures And(x, Shl(Pow2(k) - 1, j)) == Shl(Low(Shr(x, j), k), j)
    decreases j
  {
    if j == 0 {
      AndMask(x, k);
    } else {
      AndField(x / 2, j - 1, k);
    }
  }

  lemma {:induction false} XorLaws(x: nat, y: nat, z: nat)
    ensures Xor(x, y) == Xor(y, x)
    ensures Xor(Xor(x, y), z) == Xor(x, Xor(y, z))
    decreases x + y + z
  {
    if x + y + z > 0 {
      XorLaws(x / 2, y / 2, z / 2);
    }
  }

  /** `^` works on the low `k` bits and on the rest separately. */
  lemma XorHalves(x: nat, y: nat)
    ensures Xor(x, y) == 2 * Xor(x / 2, y / 2) + if x % 2 != y % 2 then 1 else 0
  {
  }

  lemma LowHalves(x: nat, k: nat)
    requires k > 0
    ensures Low(x, k) / 2 == Low(x / 2, k - 1) && Low(x, k) % 2 == x % 2
    ensures Low(x, k) == 2 * Low(x / 2, k - 1) + x % 2
  {
  }

  lemma LowOfXor(x: nat, y: nat, k: nat)
    requires k > 0
    ensures Low(Xor(x, y), k) == 2 * Low(Xor(x / 2, y / 2), k - 1) + if x % 2 != y % 2 then 1 else 0
  {
    XorHalves(x, y);
    LowHalves(Xor(x, y), k);
  }

  lemma XorOfLows(x: nat, y: nat, k: nat)
    requires k > 0
    ensures Xor(Low(x, k), Low(y, k)) ==
            2 * Xor(Low(x / 2, k - 1), Low(y / 2, k - 1)) + if x % 2 != y % 2 then 1 else 0
  {
    XorHalves(Low(x, k), Low(y, k));
    LowHalves(x, k);
    LowHalves(y, k);
  }

  lemma {:induction false} XorLow(x: nat, y: nat, k: nat)
    ensures Low(Xor(x, y), k) == Xor(Low(x, k), Low(y, k))
    decreases k
  {
    if k > 0 {
      XorLow(x / 2, y / 2, k - 1);
      LowOfXor(x, y, k);
      XorOfLows(x, y, k);
    }
  }

  lemma {:induction false} XorShr(x: nat, y: nat, k: nat)
    ensures Shr(Xor(x, y), k) == Xor(Shr(x, k), Shr(y, k))
    decreases k
  {
    if k > 0 {
      XorShr(x / 2, y / 2, k - 1);
      assert Xor(x, y) / 2 == Xor(x / 2, y / 2);
    }
  }

  // ---- little-endian bytes ----

  function LeValue(s: seq<byte>): nat {
    if s == [] then 0 else s[0] + 256 * LeValue(s[1..])
  }

  /** The `n` low bytes of `x`, as `to_le_bytes` lists them. */
  function LeBytes(x: nat, n: nat): (s: seq<byte>)
    ensures |s| == n
  {
    if n == 0 then [] else [x % 256] + LeBytes(x / 256, n - 1)
  }

  lemma ShlBytes(x: nat, n: nat)
    ensures Shl(x, 8 * (n + 1)) == 256 * Shl(x, 8 * n)
  {
    ShlAdd(x, 8 * n, 8);
    Shl8(Shl(x, 8 * n));
  }

  lemma {:induction false} LeBound(s: seq<byte>)
    ensures LeValue(s) < Pow2(8 * |s|)
  {
    if s != [] {
      LeBound(s[1..]);
      ShlBytes(1, |s| - 1);
    }
  }

  lemma {:induction false} LeAppend(a: seq<byte>, b: seq<byte>)
    ensures LeValue(a + b) == LeValue(a) + Shl(LeValue(b), 8 * |a|)
  {
    if a == [] {
      assert a + b == b;
    } else {
      LeAppend(a[1..], b);
      assert (a + b)[1..] == a[1..] + b;
      ShlBytes(LeValue(b), |a| - 1);
    }
  }

  lemma {:induction false} LeBytesValue(x: nat, n: nat)
    ensures LeValue(LeBytes(x, n)) == Low(x, 8 * n)
  {
    if n > 0 {
      LeBytesValue(x / 256, n - 1);
      LowSplit(x, 8, 8 * (n - 1));
      Low8(x);
      Shl8(Low(x / 256, 8 * (n - 1)));
      assert LeBytes(x, n)[1..] == LeBytes(x / 256, n - 1);
    }
  }

  lemma {:induction false} LeInjective(a: seq<byte>, b: seq<byte>)
    requires |a| == |b| && LeValue(a) == LeValue(b)
    ensures a == b
  {
    if a != [] {
      assert LeValue(a) % 256 == a[0] && LeValue(b) % 256 == b[0];
      LeInjective(a[1..], b[1..]);
      assert a == [a[0]] + a[1..] && b == [b[0]] + b[1..];
    }
  }

  lemma LeParts(a: seq<byte>, b: seq<byte>)
    ensures Low(LeValue(a + b), 8 * |a|) == LeValue(a)
    ensures Shr(LeValue(a + b), 8 * |a|) == LeValue(b)
  {
    var x, y, k := LeValue(a), LeValue(b), 8 * |a|;
    LeAppend(a, b);
    LeBound(a);
    Small(x, k);
    AddHigh(x, y, k);
  }

  lemma {:induction false} LeDrop(s: seq<byte>, n: nat)
    requires n <= |s|
    ensures LeValue(s[n..]) == Shr(LeValue(s), 8 * n)
  {
    if n == 0 {
      assert s[0..] == s;
    } else {
      LeDrop(s[1..], n - 1);
      assert s[1..][n - 1..] == s[n..];
      ShrAdd(LeValue(s), 8, 8 * (n - 1));
      Low8(LeValue(s));
    }
  }

  lemma LeTake(s: seq<byte>, n: nat)
    requires n <= |s|
    ensures LeValue(s[..n]) == Low(LeValue(s), 8 * n)
  {
    LeParts(s[..n], s[n..]);
    assert s == s[..n] + s[n..];
  }

  /** A slice of the bytes is a field of the number they spell. */
  lemma LeSlice(s: seq<byte>, lo: nat, hi: nat)
    requires lo <= hi <= |s|
    ensures LeValue(s[lo..hi]) == Low(Shr(LeValue(s), 8 * lo), 8 * (hi - lo))
  {
    LeDrop(s, lo);
    LeTake(s[lo..], hi - lo);
    assert s[lo..][..hi - lo] == s[lo..hi];
  }

  lemma {:induction false} LeBytesPrefix(x: nat, n: nat, k: nat)
    requires k <= n
    ensures LeBytes(x, n)[..k] == LeBytes(x, k)
  {
    if k > 0 {
      LeBytesPrefix(x / 256, n - 1, k - 1);
      assert LeBytes(x, n)[..k] == [x % 256] + LeBytes(x / 256, n - 1)[..k - 1];
    }
  }

  lemma {:induction false} LeZeros(n: nat)
    ensures LeValue(seq(n, _ => 0)) == 0
  {
    if n > 0 {
      LeZeros(n - 1);
      assert seq(n, _ => 0 as byte)[1..] == seq(n - 1, _ => 0 as byte);
    }
  }
}
