/** CRC-32C: the lookup tables and the 16-bytes-at-a-time checksum, against the bit-at-a-time
    shift register. */
module Crc {
  import opened Bits

  const CASTAGNOLI_POLY := 0x82f63b78

  /** One clock of the reflected shift register. */
  function Step(poly: nat, c: nat): nat {
    if c % 2 == 1 then Xor(c / 2, poly) else c / 2
  }

  function Steps(poly: nat, c: nat, k: nat): nat {
    if k == 0 then c else Step(poly, Steps(poly, c, k - 1))
  }

  /** The reference checksum state: each byte is added to the low bits, then clocked 8 times. */
  function Run(poly: nat, s: nat, buf: seq<byte>): nat
    decreases |buf|
  {
    if buf == [] then s else Run(poly, Steps(poly, Xor(s, buf[0]), 8), buf[1..])
  }

  /** Every bit moves one place down; when a one falls out, the polynomial is added bit by bit. */
  lemma StepBits(poly: nat, c: nat, i: nat)
    ensures Bit(Step(poly, c), i) <==> (Bit(c, i + 1) != (Bit(c, 0) && Bit(poly, i)))
  {
    assert Shr(c, 0) == c && Shr(c, i + 1) == Shr(c / 2, i);
    BitXor(c / 2, poly, i);
  }

  /** The `w` bits of `x` are those of `y` in reverse. */
  ghost predicate Mirror(x: nat, y: nat, w: nat) {
    y < Pow2(w) && forall i: nat | i < w :: Bit(x, i) <==> Bit(y, w - 1 - i)
  }

  /** A bit put on top of `k` lower bits. */
  lemma {:induction false} TopBit(b: nat, low: nat, k: nat, i: nat)
    requires b < 2 && low < Pow2(k) && i <= k
    ensures b * Pow2(k) + low < Pow2(k + 1)
    ensures Bit(b * Pow2(k) + low, i) <==> if i == k then b == 1 else Bit(low, i)
    decreases k
  {
    if k > 0 {
      var n := b * Pow2(k) + low;
      assert n == 2 * (b * Pow2(k - 1)) + low;
      assert n / 2 == b * Pow2(k - 1) + low / 2 && n % 2 == low % 2;
      TopBit(b, low / 2, k - 1, if i > 0 then i - 1 else 0);
    }
  }

  lemma MirrorBit(x: nat, y: nat, w: nat, p: nat, b: nat)
    requires b < 2 && Mirror(x, y, w) && p == Pow2(w)
    ensures Mirror(2 * x + b, b * p + y, w + 1) && Pow2(w + 1) == 2 * p
  {
    var x', y' := 2 * x + b, b * p + y;
    TopBit(b, y, w, 0);
    assert x' / 2 == x && x' % 2 == b;
    forall i: nat | i < w + 1
      ensures Bit(x', i) <==> Bit(y', w - i)
    {
      TopBit(b, y, w, w - i);
      if i > 0 {
        assert Shr(x', i) == Shr(x, i - 1);
        assert Bit(x, i - 1) <==> Bit(y, w - 1 - (i - 1));
      }
    }
  }

  /** Four more bits, the highest first. */
  lemma MirrorNibble(x: nat, y: nat, w: nat, p: nat, d: nat)
    requires Mirror(x, y, w) && p == Pow2(w) && d < 16
    ensures Mirror(16 * x + d, (d / 8 + d / 4 % 2 * 2 + d / 2 % 2 * 4 + d % 2 * 8) * p + y, w + 4)
    ensures Pow2(w + 4) == 16 * p
  {
    MirrorFour(x, y, w, p, d / 8, d / 4 % 2, d / 2 % 2, d % 2);
    NibbleSum(d / 8, d / 4 % 2, d / 2 % 2, d % 2, p, y);
  }

  lemma MirrorFour(x: nat, y: nat, w: nat, p: nat, a: nat, b: nat, c: nat, d: nat)
    requires Mirror(x, y, w) && p == Pow2(w) && a < 2 && b < 2 && c < 2 && d < 2
    ensures Mirror(16 * x + 8 * a + 4 * b + 2 * c + d,
                   d * (8 * p) + (c * (4 * p) + (b * (2 * p) + (a * p + y))), w + 4)
    ensures Pow2(w + 4) == 16 * p
  {
    var x1, y1 := 2 * x + a, a * p + y;
    var x2, y2 := 2 * x1 + b, b * (2 * p) + y1;
    var x3, y3 := 2 * x2 + c, c * (4 * p) + y2;
    MirrorBit(x, y, w, p, a);
    MirrorBit(x1, y1, w + 1, 2 * p, b);
    MirrorBit(x2, y2, w + 2, 4 * p, c);
    MirrorBit(x3, y3, w + 3, 8 * p, d);
  }

  lemma NibbleSum(a: nat, b: nat, c: nat, d: nat, p: nat, y: nat)
    ensures d * (8 * p) + (c * (4 * p) + (b * (2 * p) + (a * p + y))) == (a + b * 2 + c * 4 + d * 8) * p + y
  {
  }

  lemma MirroredHalf()
    ensures Mirror(0x1EDC, 0x3b78, 16) && Pow2(16) == 0x10000
  {
    MirrorNibble(0x0, 0x0, 0, 0x1, 0x1);
    MirrorNibble(0x1, 0x8, 4, 0x10, 0xe);
    MirrorNibble(0x1e, 0x78, 8, 0x100, 0xd);
    MirrorNibble(0x1ed, 0xb78, 12, 0x1000, 0xc);
  }

  lemma MirroredPolynomial()
    ensures Mirror(0x1EDC6F41, 0x82f63b78, 32)
  {
    MirroredHalf();
    MirrorNibble(0x1edc, 0x3b78, 16, 0x10000, 0x6);
    MirrorNibble(0x1edc6, 0x63b78, 20, 0x100000, 0xf);
    MirrorNibble(0x1edc6f, 0xf63b78, 24, 0x1000000, 0x4);
    MirrorNibble(0x1edc6f4, 0x2f63b78, 28, 0x10000000, 0x1);
  }

  /** The constant is the polynomial 0x1EDC6F41 of section 12.1 of RFC 3720, lowest power first. */
  lemma PolynomialReversed(i: nat)
    requires i < 32
    ensures Bit(CASTAGNOLI_POLY, i) <==> Bit(0x1EDC6F41, 31 - i)
  {
    MirroredPolynomial();
  }

  // ---- linearity ----

  lemma XorMiddle(a: nat, b: nat, c: nat, d: nat)
    ensures Xor(Xor(a, b), Xor(c, d)) == Xor(Xor(a, c), Xor(b, d))
  {
    XorLaws(a, b, Xor(c, d));
    XorLaws(b, c, d);
    XorLaws(c, b, d);
    XorLaws(a, c, Xor(b, d));
  }

  lemma StepXor(poly: nat, x: nat, y: nat)
    ensures Step(poly, Xor(x, y)) == Xor(Step(poly, x), Step(poly, y))
  {
    var px, py := if x % 2 == 1 then poly else 0, if y % 2 == 1 then poly else 0;
    ZeroOps(x / 2);
    ZeroOps(y / 2);
    ZeroOps(poly);
    ZeroOps(Xor(x / 2, y / 2));
    XorMiddle(x / 2, px, y / 2, py);
    assert Xor(x, y) / 2 == Xor(x / 2, y / 2);
  }

  lemma {:induction false} StepsXor(poly: nat, x: nat, y: nat, k: nat)
    ensures Steps(poly, Xor(x, y), k) == Xor(Steps(poly, x, k), Steps(poly, y, k))
    decreases k
  {
    if k > 0 {
      StepsXor(poly, x, y, k - 1);
      StepXor(poly, Steps(poly, x, k - 1), Steps(poly, y, k - 1));
    }
  }

  lemma {:induction false} StepsAdd(poly: nat, c: nat, a: nat, b: nat)
    ensures Steps(poly, c, a + b) == Steps(poly, Steps(poly, c, a), b)
    decreases b
  {
    if b > 0 {
      StepsAdd(poly, c, a, b - 1);
    }
  }

  /** Bits above position `k` just move down. */
  lemma {:induction false} StepsShl(poly: nat, y: nat, k: nat)
    ensures Steps(poly, Shl(y, k), k) == y
    decreases k
  {
    if k > 0 {
      StepsAdd(poly, Shl(y, k), 1, k - 1);
      assert Steps(poly, Shl(y, k), 0) == Shl(y, k);
      assert Steps(poly, Shl(y, k), 1) == Shl(y, k - 1);
      StepsShl(poly, y, k - 1);
    }
  }

  lemma {:induction false} XorHigh(x: nat, y: nat, k: nat)
    requires x < Pow2(k)
    ensures Xor(x, Shl(y, k)) == x + Shl(y, k)
    decreases k
  {
    if k == 0 {
      ZeroOps(y);
    } else {
      var h := Shl(y, k);
      assert h / 2 == Shl(y, k - 1) && h % 2 == 0 && x / 2 < Pow2(k - 1);
      XorHigh(x / 2, y, k - 1);
      assert Xor(x, h) == 2 * Xor(x / 2, h / 2) + x % 2;
    }
  }

  /** The low `k` bits are clocked through; the rest drops into place. */
  lemma StepsSplit(poly: nat, x: nat, y: nat, k: nat)
    requires x < Pow2(k)
    ensures Steps(poly, x + Shl(y, k), k) == Xor(Steps(poly, x, k), y)
  {
    XorHigh(x, y, k);
    StepsXor(poly, x, Shl(y, k), k);
    StepsShl(poly, y, k);
  }

  lemma {:induction false} StepsBound(poly: nat, c: nat, k: nat)
    requires poly < Pow2(32) && c < Pow2(32)
    ensures Steps(poly, c, k) < Pow2(32)
    decreases k
  {
    if k > 0 {
      StepsBound(poly, c, k - 1);
      OpsBound(Steps(poly, c, k - 1) / 2, poly, 32);
    }
  }

  // ---- the tables ----

  ghost predicate IsTable(poly: nat, t: seq<nat>) {
    |t| == 256 && forall i: nat | i < 256 :: t[i] == Steps(poly, i, 8)
  }

  ghost predicate IsTable16(poly: nat, t: array2<nat>)
    reads t
  {
    && t.Length0 == 16 && t.Length1 == 256
    && forall j: nat, i: nat | j < 16 && i < 256 :: t[j, i] == Steps(poly, i, 8 * (j + 1))
  }

  /** One table step equals eight clocks, on any state. */
  lemma TableStep(poly: nat, t: seq<nat>, c: nat)
    requires IsTable(poly, t)
    ensures Low(c, 8) < 256 && Xor(Shr(c, 8), t[Low(c, 8)]) == Steps(poly, c, 8)
  {
    var lo, hi := Low(c, 8), Shr(c, 8);
    Split(c, 8);
    Pow2Values();
    StepsSplit(poly, lo, hi, 8);
    XorLaws(hi, t[lo], 0);
  }

  lemma LowByte(c: nat)
    ensures Low(c, 8) < 256
  {
    Split(c, 8);
    Pow2Values();
  }

  /** The inner loop body: test the low bit, shift, and add the polynomial if it was set. */
  method Clock(poly: nat, crc: nat) returns (crc': nat)
    ensures crc' == Step(poly, crc)
  {
    AndMask(crc, 1);
    assert Pow2(1) == 2 && Low(crc, 1) == crc % 2 && Shr(crc, 1) == crc / 2;
    if And(crc, 1) == 1 {
      crc' := Xor(Shr(crc, 1), poly);
    } else {
      crc' := Shr(crc, 1);
    }
  }

  method TableEntry(poly: nat, i: nat) returns (crc: nat)
    ensures crc == Steps(poly, i, 8)
  {
    crc := i;
    for n := 0 to 8
      invariant crc == Steps(poly, i, n)
    {
      crc := Clock(poly, crc);
    }
  }

  method MakeTable(poly: nat) returns (t: seq<nat>)
    ensures IsTable(poly, t)
  {
    var tab := new nat[256];
    for i := 0 to 256
      invariant forall k: nat | k < i :: tab[k] == Steps(poly, k, 8)
    {
      tab[i] := TableEntry(poly, i);
    }
    t := tab[..];
  }

  method MakeTable16(poly: nat) returns (tab: array2<nat>)
    ensures fresh(tab) && IsTable16(poly, tab)
  {
    tab := new nat[16, 256];
    var t := MakeTable(poly);
    for i := 0 to 256
      invariant forall k: nat | k < i :: tab[0, k] == Steps(poly, k, 8)
    {
      tab[0, i] := t[i];
    }
    for i := 0 to 256
      invariant forall k: nat | k < 256 :: tab[0, k] == t[k]
      invariant forall j: nat, k: nat | j < 16 && k < i :: tab[j, k] == Steps(poly, k, 8 * (j + 1))
    {
      var crc := tab[0, i];
      for j := 1 to 16
        invariant crc == Steps(poly, i, 8 * j)
        invariant forall k: nat | k < 256 :: tab[0, k] == t[k]
        invariant forall m: nat, k: nat | m < 16 && k < i :: tab[m, k] == Steps(poly, k, 8 * (m + 1))
        invariant forall m: nat | m < j :: tab[m, i] == Steps(poly, i, 8 * (m + 1))
      {
        LowByte(crc);
        TableStep(poly, t, crc);
        StepsAdd(poly, i, 8 * j, 8);
        crc := Xor(Shr(crc, 8), tab[0, Low(crc, 8)]);
        tab[j, i] := crc;
      }
    }
  }

  // ---- the checksum ----

  lemma {:induction false} RunAppend(poly: nat, s: nat, a: seq<byte>, b: seq<byte>)
    ensures Run(poly, s, a + b) == Run(poly, Run(poly, s, a), b)
    decreases |a|
  {
    if a == [] {
      assert a + b == b;
    } else {
      assert (a + b)[1..] == a[1..] + b;
      RunAppend(poly, Steps(poly, Xor(s, a[0]), 8), a[1..], b);
    }
  }

  lemma FirstByte(poly: nat, s: nat, b: byte, rest: nat)
    ensures Steps(poly, Xor(s, b + 256 * rest), 8) == Xor(Steps(poly, Xor(s, b), 8), rest)
  {
    Pow2Values();
    Shl8(rest);
    XorHigh(b, rest, 8);
    XorLaws(s, b, Shl(rest, 8));
    StepsXor(poly, Xor(s, b), Shl(rest, 8), 8);
    StepsShl(poly, rest, 8);
  }

  /** Feeding the bytes one by one equals adding the whole little-endian number at once and
      then clocking: `CRC` is one long division. */
  lemma {:induction false} RunIsDivision(poly: nat, s: nat, buf: seq<byte>)
    ensures Run(poly, s, buf) == Steps(poly, Xor(s, LeValue(buf)), 8 * |buf|)
    decreases |buf|
  {
    if buf == [] {
      ZeroOps(s);
    } else {
      var b, rest := buf[0], LeValue(buf[1..]);
      RunIsDivision(poly, Steps(poly, Xor(s, b), 8), buf[1..]);
      FirstByte(poly, s, b, rest);
      StepsAdd(poly, Xor(s, LeValue(buf)), 8, 8 * (|buf| - 1));
    }
  }

  /** The contributions of the single bytes, last byte first. */
  function Fold(poly: nat, bytes: seq<byte>): nat {
    if bytes == [] then 0
    else if |bytes| == 1 then Steps(poly, bytes[0], 8)
    else Xor(Fold(poly, bytes[1..]), Steps(poly, bytes[0], 8 * |bytes|))
  }

  lemma LowestByte(poly: nat, b: byte, rest: nat, n: nat)
    ensures Steps(poly, b + 256 * rest, 8 + n) == Xor(Steps(poly, rest, n), Steps(poly, b, 8 + n))
  {
    Pow2Values();
    Shl8(rest);
    XorHigh(b, rest, 8);
    StepsXor(poly, b, Shl(rest, 8), 8 + n);
    StepsShl(poly, rest, 8);
    StepsAdd(poly, Shl(rest, 8), 8, n);
    XorLaws(Steps(poly, b, 8 + n), Steps(poly, rest, n), 0);
  }

  lemma {:induction false} FoldIsSteps(poly: nat, bytes: seq<byte>)
    ensures Fold(poly, bytes) == Steps(poly, LeValue(bytes), 8 * |bytes|)
  {
    if |bytes| == 1 {
      assert LeValue(bytes[1..]) == 0;
    } else if |bytes| > 1 {
      var b, rest, n := bytes[0], LeValue(bytes[1..]), 8 * (|bytes| - 1);
      FoldIsSteps(poly, bytes[1..]);
      LowestByte(poly, b, rest, n);
    } else {
      assert bytes == [];
    }
  }

  /** The bytes of the running state mixed into the first four bytes of a block. */
  ghost function Mixed(crc: nat, buf: seq<byte>): (r: seq<byte>)
    requires |buf| >= 16
    ensures |r| == 16
  {
    LeBytes(Xor(crc, LeValue(buf[..4])), 4) + buf[4..16]
  }

  lemma XorLowPart(s: nat, lo: nat, hi: nat, k: nat)
    requires s < Pow2(k) && lo < Pow2(k)
    ensures Xor(s, lo) < Pow2(k) && Xor(s, lo + Shl(hi, k)) == Xor(s, lo) + Shl(hi, k)
  {
    OpsBound(s, lo, k);
    XorHigh(lo, hi, k);
    XorHigh(Xor(s, lo), hi, k);
    XorLaws(s, lo, Shl(hi, k));
  }

  lemma WordThenBytes(w: nat, n: nat, rest: seq<byte>)
    requires w < Pow2(8 * n)
    ensures LeValue(LeBytes(w, n) + rest) == w + Shl(LeValue(rest), 8 * n)
  {
    LeBytesValue(w, n);
    Small(w, 8 * n);
    LeAppend(LeBytes(w, n), rest);
  }

  lemma MixedValue(crc: nat, buf: seq<byte>)
    requires |buf| >= 16 && crc < Pow2(32)
    ensures LeValue(Mixed(crc, buf)) == Xor(crc, LeValue(buf[..16]))
  {
    var a, b := buf[..4], buf[4..16];
    LeBound(a);
    XorLowPart(crc, LeValue(a), LeValue(b), 32);
    WordThenBytes(Xor(crc, LeValue(a)), 4, b);
    LeAppend(a, b);
    assert buf[..16] == a + b;
  }

  lemma BlockIsFold(poly: nat, crc: nat, buf: seq<byte>)
    requires |buf| >= 16 && crc < Pow2(32)
    ensures Run(poly, crc, buf[..16]) == Fold(poly, Mixed(crc, buf))
  {
    RunIsDivision(poly, crc, buf[..16]);
    MixedValue(crc, buf);
    FoldIsSteps(poly, Mixed(crc, buf));
  }

  lemma FoldTail(poly: nat, x: seq<byte>, i: nat)
    requires i < |x| - 1
    ensures Fold(poly, x[i..]) == Xor(Fold(poly, x[i + 1..]), Steps(poly, x[i], 8 * (|x| - i)))
  {
    assert x[i..][1..] == x[i + 1..];
  }

  /** The lookups for bytes 4 to 15 of a block, in the order of the source. */
  method TailLookups(ghost poly: nat, tab: array2<nat>, buf: seq<byte>) returns (r: nat)
    requires IsTable16(poly, tab) && |buf| >= 16
    ensures r == Fold(poly, buf[4..16])
  {
    ghost var m := buf[4..16];
    r := tab[0, buf[15]];
    r := Xor(r, tab[1, buf[14]]);
    r := Xor(r, tab[2, buf[13]]);
    r := Xor(r, tab[3, buf[12]]);
    FoldOfLast4(poly, m, 8);
    assert r == Fold(poly, m[8..]);
    r := Xor(r, tab[4, buf[11]]);
    r := Xor(r, tab[5, buf[10]]);
    r := Xor(r, tab[6, buf[9]]);
    r := Xor(r, tab[7, buf[8]]);
    FoldOf4(poly, m, 4);
    assert r == Fold(poly, m[4..]);
    r := Xor(r, tab[8, buf[7]]);
    r := Xor(r, tab[9, buf[6]]);
    r := Xor(r, tab[10, buf[5]]);
    r := Xor(r, tab[11, buf[4]]);
    FoldOf4(poly, m, 0);
    assert m[0..] == m;
  }

  /** One 16-byte step of the checksum. */
  method Block16(ghost poly: nat, tab: array2<nat>, crc0: nat, buf: seq<byte>) returns (r: nat)
    requires IsTable16(poly, tab) && |buf| >= 16 && crc0 < Pow2(32)
    ensures r == Run(poly, crc0, buf[..16])
  {
    var crc := Xor(crc0, LeValue(buf[..4]));
    r := TailLookups(poly, tab, buf);
    StateBytes(crc);
    r := Xor(r, tab[12, Low(Shr(crc, 24), 8)]);
    r := Xor(r, tab[13, Low(Shr(crc, 16), 8)]);
    r := Xor(r, tab[14, Low(Shr(crc, 8), 8)]);
    r := Xor(r, tab[15, Low(crc, 8)]);
    ghost var m := Mixed(crc0, buf);
    assert m[4..] == buf[4..16] && m[0..] == m;
    FoldOf4(poly, m, 0);
    BlockIsFold(poly, crc0, buf);
  }

  lemma StateBytes(c: nat)
    ensures LeBytes(c, 4) == [c % 256, c / 256 % 256, c / 256 / 256 % 256, c / 256 / 256 / 256 % 256]
    ensures Low(c, 8) == c % 256 && Low(Shr(c, 8), 8) == c / 256 % 256
    ensures Low(Shr(c, 16), 8) == c / 256 / 256 % 256 && Low(Shr(c, 24), 8) == c / 256 / 256 / 256 % 256
  {
    Low8(c);
    Low8(c / 256);
    Low8(c / 256 / 256);
    Low8(c / 256 / 256 / 256);
    ShrAdd(c, 8, 8);
    ShrAdd(c, 16, 8);
    assert LeBytes(c / 256 / 256 / 256, 1) == [c / 256 / 256 / 256 % 256];
    assert LeBytes(c / 256 / 256, 2) == [c / 256 / 256 % 256] + LeBytes(c / 256 / 256 / 256, 1);
    assert LeBytes(c / 256, 3) == [c / 256 % 256] + LeBytes(c / 256 / 256, 2);
  }

  /** Adds the contributions of bytes `i..i+4` to that of the bytes behind them. */
  lemma FoldOf4(poly: nat, m: seq<byte>, i: nat)
    requires i + 4 < |m|
    ensures Fold(poly, m[i..]) ==
            Xor(Xor(Xor(Xor(Fold(poly, m[i + 4..]), Steps(poly, m[i + 3], 8 * (|m| - i - 3))),
              Steps(poly, m[i + 2], 8 * (|m| - i - 2))), Steps(poly, m[i + 1], 8 * (|m| - i - 1))),
              Steps(poly, m[i], 8 * (|m| - i)))
  {
    FoldTail(poly, m, i + 3);
    FoldTail(poly, m, i + 2);
    FoldTail(poly, m, i + 1);
    FoldTail(poly, m, i);
  }

  lemma FoldOfLast4(poly: nat, m: seq<byte>, i: nat)
    requires i + 4 == |m|
    ensures Fold(poly, m[i..]) ==
            Xor(Xor(Xor(Steps(poly, m[i + 3], 8), Steps(poly, m[i + 2], 16)), Steps(poly, m[i + 1], 24)),
              Steps(poly, m[i], 32))
  {
    FoldTail(poly, m, i + 2);
    FoldTail(poly, m, i + 1);
    FoldTail(poly, m, i);
  }

  /** The tail loop: one byte through the small table. */
  method Byte1(ghost poly: nat, table: seq<nat>, crc: nat, b: byte) returns (r: nat)
    requires IsTable(poly, table)
    ensures r == Steps(poly, Xor(crc, b), 8)
  {
    LowByte(crc);
    ByteMix(crc, b);
    TableStep(poly, table, Xor(crc, b));
    r := Xor(table[Xor(Low(crc, 8), b)], Shr(crc, 8));
    XorLaws(table[Xor(Low(crc, 8), b)], Shr(crc, 8), 0);
  }

  lemma ByteMix(crc: nat, b: byte)
    ensures Low(Xor(crc, b), 8) == Xor(Low(crc, 8), b) < 256
    ensures Shr(Xor(crc, b), 8) == Shr(crc, 8)
  {
    Pow2Values();
    Small(b, 8);
    XorLow(crc, b, 8);
    XorShr(crc, b, 8);
    ZeroOps(Shr(crc, 8));
    LowByte(Xor(crc, b));
  }

  lemma {:induction false} RunBound(poly: nat, s: nat, buf: seq<byte>)
    requires poly < Pow2(32) && s < Pow2(32)
    ensures Run(poly, s, buf) < Pow2(32)
    decreases |buf|
  {
    if buf != [] {
      Pow2Mono(8, 32);
      Pow2Values();
      OpsBound(s, buf[0], 32);
      StepsBound(poly, Xor(s, buf[0]), 8);
      RunBound(poly, Steps(poly, Xor(s, buf[0]), 8), buf[1..]);
    }
  }

  /** The checksum of `buf` continued from `prev`: complement, run, complement. */
  ghost function Checksum(poly: nat, prev: nat, buf: seq<byte>): (r: nat)
    requires poly < Pow2(32) && prev < Pow2(32)
    ensures r < Pow2(32)
  {
    RunBound(poly, Not(32, prev), buf);
    Not(32, Run(poly, Not(32, prev), buf))
  }

  /** Complement, add the whole message, clock once per bit, complement. */
  lemma ChecksumIs(poly: nat, prev: nat, buf: seq<byte>)
    requires poly < Pow2(32) && prev < Pow2(32)
    ensures prev <= 0xFFFF_FFFF && Checksum(poly, prev, buf) ==
              0xFFFF_FFFF - Steps(poly, Xor(0xFFFF_FFFF - prev, LeValue(buf)), 8 * |buf|)
  {
    Pow2Values();
    RunIsDivision(poly, 0xFFFF_FFFF - prev, buf);
  }

  /** 16 bytes at a time, then the rest byte by byte: the same as bit by bit. */
  method Crc32cSlice16(ghost poly: nat, table: seq<nat>, table16: array2<nat>, prev: nat, data: seq<byte>)
      returns (r: nat)
    requires poly < Pow2(32) && prev < Pow2(32)
    requires IsTable(poly, table) && IsTable16(poly, table16)
    ensures r == Checksum(poly, prev, data)
    ensures prev <= 0xFFFF_FFFF && r ==
              0xFFFF_FFFF - Steps(poly, Xor(0xFFFF_FFFF - prev, LeValue(data)), 8 * |data|)
  {
    ChecksumIs(poly, prev, data);
    var buf := data;
    var crc: nat := Not(32, prev);
    while |buf| >= 16
      invariant crc < Pow2(32)
      invariant Run(poly, crc, buf) == Run(poly, Not(32, prev), data)
      decreases |buf|
    {
      assert buf[..16] + buf[16..] == buf;
      RunAppend(poly, crc, buf[..16], buf[16..]);
      RunBound(poly, crc, buf[..16]);
      crc := Block16(poly, table16, crc, buf);
      buf := buf[16..];
    }
    for i := 0 to |buf|
      invariant Run(poly, crc, buf[i..]) == Run(poly, Not(32, prev), data)
    {
      crc := Byte1(poly, table, crc, buf[i]);
      assert buf[i..][1..] == buf[i + 1..];
    }
    RunBound(poly, Not(32, prev), data);
    r := Not(32, crc);
  }

  /** Checksumming in pieces is checksumming the whole. */
  lemma ChecksumConcat(poly: nat, prev: nat, a: seq<byte>, b: seq<byte>)
    requires poly < Pow2(32) && prev < Pow2(32)
    ensures Checksum(poly, Checksum(poly, prev, a), b) == Checksum(poly, prev, a + b)
  {
    RunAppend(poly, Not(32, prev), a, b);
  }

  lemma SumIs(fed: seq<byte>)
    ensures CASTAGNOLI_POLY < Pow2(32) && 0 < Pow2(32)
    ensures Checksum(CASTAGNOLI_POLY, 0, fed) ==
            0xFFFF_FFFF - Steps(0x82f63b78, Xor(0xFFFF_FFFF, LeValue(fed)), 8 * |fed|)
  {
    Pow2Values();
    ChecksumIs(CASTAGNOLI_POLY, 0, fed);
  }

  /** The rolling checksum object, over the Castagnoli tables. */
  class CheckSummer {
    var sum: nat
    const table: seq<nat>
    const table16: array2<nat>
    /** Everything fed so far. */
    ghost var fed: seq<byte>

    ghost predicate Valid()
      reads this, table16
    {
      && IsTable(CASTAGNOLI_POLY, table) && IsTable16(CASTAGNOLI_POLY, table16)
      && CASTAGNOLI_POLY < Pow2(32)
      && sum == Checksum(CASTAGNOLI_POLY, 0, fed)
    }

    constructor ()
      ensures Valid() && fed == [] && sum == 0 && fresh(table16)
    {
      Pow2Values();
      var t := MakeTable(CASTAGNOLI_POLY);
      var t16 := MakeTable16(CASTAGNOLI_POLY);
      table, table16 := t, t16;
      sum, fed := 0, [];
    }

    method Update(buf: seq<byte>)
      requires Valid()
      modifies this`sum, this`fed
      ensures Valid() && fed == old(fed) + buf
      ensures sum == 0xFFFF_FFFF - Steps(0x82f63b78, Xor(0xFFFF_FFFF, LeValue(fed)), 8 * |fed|)
    {
      ChecksumConcat(CASTAGNOLI_POLY, 0, fed, buf);
      sum := Crc32cSlice16(CASTAGNOLI_POLY, table, table16, sum, buf);
      fed := fed + buf;
      SumIs(fed);
    }
  }

  // ---- masking ----

  function Masked(sum: nat): nat {
    (Or(Shr(sum, 15), Low(Shl(sum, 17), 32)) + 0xA282EAD8) % U32_LIMIT
  }

  /** In numbers: the low 15 bits above the high 17, and the constant added without carry out. */
  lemma MaskedIs(x: nat)
    requires x < 0x1_0000_0000
    ensures Masked(x) == (x / 0x8000 + x % 0x8000 * 0x2_0000 + 0xA282EAD8) % 0x1_0000_0000
  {
    Pow2Values();
    RotationIsSum(x);
    ShiftMeaning(x, 15);
    ShiftMeaning(Low(x, 15), 17);
    assert Pow2(15) == 0x8000 && Pow2(17) == 0x2_0000;
  }

  /** The low 15 bits above the high 17. */
  function Rotated(x: nat): nat { Shr(x, 15) + Shl(Low(x, 15), 17) }

  lemma MaskedIsRotated(x: nat)
    requires x < Pow2(32)
    ensures Masked(x) == (Rotated(x) + 0xA282EAD8) % U32_LIMIT && Rotated(x) < U32_LIMIT
  {
    RotationIsSum(x);
    Pow2Values();
  }

  lemma RotatedInjective(a: nat, b: nat)
    requires a < Pow2(32) && b < Pow2(32) && Rotated(a) == Rotated(b)
    ensures a == b
  {
    RotationIsSum(a);
    RotationIsSum(b);
    SumInjective(Shr(a, 15), Low(a, 15), Shr(b, 15), Low(b, 15), 17);
    Split(a, 15);
    Split(b, 15);
  }

  /** Masking rotates and adds, so no two checksums share a masked form. */
  lemma MaskedInjective(a: nat, b: nat)
    requires a < Pow2(32) && b < Pow2(32) && Masked(a) == Masked(b)
    ensures a == b
  {
    MaskedIsRotated(a);
    MaskedIsRotated(b);
    AddModInjective(Rotated(a), Rotated(b), 0xA282EAD8);
    RotatedInjective(a, b);
  }

  lemma AddModInjective(x: nat, y: nat, c: nat)
    requires x < U32_LIMIT && y < U32_LIMIT && (x + c) % U32_LIMIT == (y + c) % U32_LIMIT
    ensures x == y
  {
  }

  lemma RotationIsSum(x: nat)
    requires x < Pow2(32)
    ensures Shr(x, 15) < Pow2(17)
    ensures Or(Shr(x, 15), Low(Shl(x, 17), 32)) == Shr(x, 15) + Shl(Low(x, 15), 17) < Pow2(32)
  {
    ShrBound(x, 15, 17);
    LowShl(x, 17, 15);
    OrHigh(Shr(x, 15), Low(x, 15), 17);
    Split(x, 15);
    AddHighBound(Shr(x, 15), Low(x, 15), 17, 15);
  }

  lemma SumInjective(a: nat, b: nat, c: nat, d: nat, k: nat)
    requires a < Pow2(k) && c < Pow2(k) && a + Shl(b, k) == c + Shl(d, k)
    ensures a == c && b == d
  {
    Small(a, k);
    Small(c, k);
    AddHigh(a, b, k);
    AddHigh(c, d, k);
  }
}
