/** The bit packer's writer and random-access reader. A stream of fields is one little-endian
    natural number; writing adds a field above the bits written so far. */
module BitPacking {
  import opened Bits

  function DivCeil8(n: nat): (r: nat)
    ensures 8 * r - 8 < n <= 8 * r
  {
    (n + 7) / 8
  }

  /** The fields of width `b`, as one number. */
  function Packed(vals: seq<nat>, b: nat): nat {
    if vals == [] then 0 else vals[0] + Shl(Packed(vals[1..], b), b)
  }

  ghost predicate Fits(vals: seq<nat>, b: nat) {
    forall i | 0 <= i < |vals| :: vals[i] < Pow2(b)
  }

  /** Field `i` of width `b` of the number the bytes spell: `(N / 2^(i*b)) mod 2^b`. */
  function Field(data: seq<byte>, b: nat, i: nat): nat {
    Low(Shr(LeValue(data), i * b), b)
  }

  lemma MulStep(i: nat, b: nat)
    requires i > 0
    ensures i * b == b + (i - 1) * b
  {
  }

  lemma {:induction false} PackedSnoc(vals: seq<nat>, v: nat, b: nat)
    ensures Packed(vals + [v], b) == Packed(vals, b) + Shl(v, |vals| * b)
  {
    if vals == [] {
      assert ([v])[1..] == [] && vals + [v] == [v];
      ShlZero(b);
    } else {
      assert (vals + [v])[1..] == vals[1..] + [v];
      PackedSnoc(vals[1..], v, b);
      ShlSum(Packed(vals[1..], b), Shl(v, |vals[1..]| * b), b);
      ShlAdd(v, |vals[1..]| * b, b);
      MulStep(|vals|, b);
    }
  }

  lemma PackedHead(vals: seq<nat>, b: nat)
    requires vals != [] && vals[0] < Pow2(b)
    ensures Low(Packed(vals, b), b) == vals[0]
    ensures Shr(Packed(vals, b), b) == Packed(vals[1..], b)
  {
    Small(vals[0], b);
    AddHigh(vals[0], Packed(vals[1..], b), b);
  }

  lemma {:induction false} PackedField(vals: seq<nat>, b: nat, i: nat)
    requires Fits(vals, b) && i < |vals|
    ensures Low(Shr(Packed(vals, b), i * b), b) == vals[i]
  {
    PackedHead(vals, b);
    if i > 0 {
      var o := (i - 1) * b;
      PackedField(vals[1..], b, i - 1);
      MulStep(i, b);
      ShrAdd(Packed(vals, b), b, o);
    }
  }

  // ---- the writer ----

  lemma SpillWord(m: nat, val: nat, w: nat, k: nat)
    requires w <= k && m < Pow2(w)
    ensures Or(m, Low(Shl(val, w), k)) == m + Shl(Low(val, k - w), w) < Pow2(k)
  {
    LowShl(val, w, k - w);
    OrHigh(m, Low(val, k - w), w);
    Split(val, k - w);
    AddHighBound(m, Low(val, k - w), w, k - w);
  }

  lemma SplitShifted(val: nat, w: nat, k: nat)
    requires w <= k
    ensures Shl(val, w) == Shl(Low(val, k - w), w) + Shl(Shr(val, k - w), k)
  {
    var lo, hi, d := Low(val, k - w), Shr(val, k - w), k - w;
    Split(val, d);
    ShlSum(lo, Shl(hi, d), w);
    ShlAdd(hi, d, w);
  }

  /** Splitting a value at the word boundary `k` loses nothing. */
  lemma SpillShifted(m: nat, val: nat, w: nat, k: nat, n: nat)
    requires w <= k && m < Pow2(w)
    ensures Or(m, Low(Shl(val, w), k)) < Pow2(k)
    ensures Shl(Or(m, Low(Shl(val, w), k)), n) + Shl(Shr(val, k - w), n + k) == Shl(m, n) + Shl(val, n + w)
  {
    SpillWord(m, val, w, k);
    SplitShifted(val, w, k);
    ShiftParts(m, Shl(Low(val, k - w), w), Shr(val, k - w), Shl(val, w), k, n);
    ShlAdd(val, w, n);
  }

  lemma ShiftParts(m: nat, lo: nat, hi: nat, all: nat, k: nat, n: nat)
    requires all == lo + Shl(hi, k)
    ensures Shl(m + lo, n) + Shl(hi, n + k) == Shl(m, n) + Shl(all, n)
  {
    ShlSum(m, lo, n);
    ShlSum(lo, Shl(hi, k), n);
    ShlAdd(hi, k, n);
  }

  lemma WrappingShifts(w: nat)
    requires 0 < w < 64
    ensures w % 64 == w && (64 - w) % 64 == 64 - w
  {
  }

  /** The word operations of `write` when the value crosses the word boundary: the completed
      word, and what is left for the next one. Shifting both to bit `n` loses nothing. */
  method SplitAcross(m: nat, w: nat, val: nat, ghost numBits: nat, ghost n: nat) returns (word: nat, rest: nat)
    requires w < 64 && m < Pow2(w) && val < Pow2(numBits) && numBits <= 64 < w + numBits
    ensures word < Pow2(64) && rest < Pow2(w + numBits - 64)
    ensures Shl(word, n) + Shl(rest, n + 64) == Shl(m, n) + Shl(val, n + w)
  {
    WrappingShifts(w);
    SpillShifted(m, val, w, 64, n);
    ShrBound(val, 64 - w, w + numBits - 64);
    word, rest := Or(m, Low(Shl(val, w % 64), 64)), Shr(val, (64 - w) % 64);
  }

  lemma MergedWord(m: nat, w: nat, val: nat, numBits: nat)
    requires m < Pow2(w) && val < Pow2(numBits) && w + numBits <= 64
    ensures Or(m, Low(Shl(val, w), 64)) == m + Shl(val, w) < Pow2(w + numBits)
  {
    AddHighBound(m, val, w, numBits);
    Pow2Mono(w + numBits, 64);
    Small(Shl(val, w), 64);
    OrHigh(m, val, w);
  }

  /** The word operation of `write` when the value stays within the word. */
  method MergeWithin(m: nat, w: nat, val: nat, ghost numBits: nat, ghost n: nat) returns (word: nat)
    requires m < Pow2(w) && val < Pow2(numBits) && w + numBits <= 64
    ensures word < Pow2(w + numBits)
    ensures Shl(word, n) == Shl(m, n) + Shl(val, n + w)
  {
    MergedWord(m, w, val, numBits);
    word := Or(m, Low(Shl(val, w), 64));
    ShlSum(m, Shl(val, w), n);
    ShlAdd(val, w, n);
  }

  /** A whole 64-bit word, least significant byte first. */
  method WriteWord(word: nat, output: seq<byte>) returns (output': seq<byte>)
    requires word < Pow2(64)
    ensures output <= output' && |output'| == |output| + 8
    ensures LeValue(output') == LeValue(output) + Shl(word, 8 * |output|)
  {
    output' := output + LeBytes(word, 8);
    LeBytesValue(word, 8);
    Small(word, 64);
    LeAppend(output, LeBytes(word, 8));
  }

  class BitPacker {
    var miniBuffer: nat
    var written: nat

    ghost predicate Valid()
      reads this
    {
      written < 64 && miniBuffer < Pow2(written)
    }

    /** The bits sent to `output` so far, including those still in the mini-buffer. */
    ghost function Stream(output: seq<byte>): nat
      reads this
    {
      LeValue(output) + Shl(miniBuffer, 8 * |output|)
    }

    ghost function BitCount(output: seq<byte>): nat
      reads this
    {
      8 * |output| + written
    }

    constructor ()
      ensures Valid() && written == 0 && miniBuffer == 0
    {
      miniBuffer, written := 0, 0;
    }

    method Write(val: nat, numBits: nat, output: seq<byte>) returns (output': seq<byte>)
      requires Valid() && numBits <= 64 && val < Pow2(numBits)
      modifies this
      ensures Valid() && output <= output'
      ensures BitCount(output') == old(BitCount(output)) + numBits
      ensures Stream(output') == old(Stream(output)) + Shl(val, old(BitCount(output)))
    {
      if written + numBits > 64 {
        var word, rest := SplitAcross(miniBuffer, written, val, numBits, 8 * |output|);
        output' := WriteWord(word, output);
        miniBuffer := rest;
        written := written + numBits - 64;
      } else {
        output' := WriteWithin(val, numBits, output);
      }
    }

    method WriteWithin(val: nat, numBits: nat, output: seq<byte>) returns (output': seq<byte>)
      requires Valid() && written + numBits <= 64 && val < Pow2(numBits)
      modifies this
      ensures Valid() && output <= output'
      ensures BitCount(output') == old(BitCount(output)) + numBits
      ensures Stream(output') == old(Stream(output)) + Shl(val, old(BitCount(output)))
    {
      output' := output;
      miniBuffer := MergeWithin(miniBuffer, written, val, numBits, 8 * |output|);
      written := written + numBits;
      if written == 64 {
        output' := WriteWord(miniBuffer, output);
        written := 0;
        miniBuffer := 0;
        ShlZero(8 * |output'|);
      }
    }

    /** Emits the bits left over, padded to a byte with zeros. */
    method Flush(output: seq<byte>) returns (output': seq<byte>)
      requires Valid()
      modifies this
      ensures Valid() && written == 0 && miniBuffer == 0
      ensures output <= output'
      ensures |output'| == DivCeil8(old(BitCount(output)))
      ensures LeValue(output') == old(Stream(output))
    {
      output' := output;
      if written > 0 {
        var numBytes := DivCeil8(written);
        output' := output + LeBytes(miniBuffer, 8)[..numBytes];
        LeBytesPrefix(miniBuffer, 8, numBytes);
        LeBytesValue(miniBuffer, numBytes);
        Pow2Mono(written, 8 * numBytes);
        Small(miniBuffer, 8 * numBytes);
        LeAppend(output, LeBytes(miniBuffer, numBytes));
        written := 0;
        miniBuffer := 0;
      } else {
        ShlZero(8 * |output|);
      }
    }
  }

  lemma PackStep(vals: seq<nat>, i: nat, b: nat, n: nat)
    requires i < |vals|
    ensures Shl(Packed(vals[..i + 1], b), n) == Shl(Packed(vals[..i], b), n) + Shl(vals[i], n + i * b)
  {
    var o := i * b;
    assert vals[..i + 1] == vals[..i] + [vals[i]];
    PackedSnoc(vals[..i], vals[i], b);
    ShlSum(Packed(vals[..i], b), Shl(vals[i], o), n);
    ShlAdd(vals[i], o, n);
  }

  lemma TailValue(output: seq<byte>, output': seq<byte>, p: nat)
    requires output <= output' && LeValue(output') == LeValue(output) + Shl(p, 8 * |output|)
    ensures LeValue(output'[|output|..]) == p
  {
    LeDrop(output', |output|);
    LeBound(output);
    Small(LeValue(output), 8 * |output|);
    AddHigh(LeValue(output), p, 8 * |output|);
  }

  /** Packs all values at one width: `write` for each, then `flush`. The bytes appended spell
      exactly the packed number and there are no more of them than needed. */
  method Pack(vals: seq<nat>, numBits: nat, output: seq<byte>) returns (output': seq<byte>)
    requires numBits <= 64 && Fits(vals, numBits)
    ensures output <= output'
    ensures |output'| == |output| + DivCeil8(|vals| * numBits)
    ensures LeValue(output'[|output|..]) == Packed(vals, numBits)
  {
    var packer := new BitPacker();
    output' := output;
    ShlZero(8 * |output|);
    assert vals[..0] == [];
    for i := 0 to |vals|
      invariant packer.Valid() && fresh(packer) && output <= output'
      invariant packer.BitCount(output') == 8 * |output| + i * numBits
      invariant packer.Stream(output') == LeValue(output) + Shl(Packed(vals[..i], numBits), 8 * |output|)
    {
      output' := packer.Write(vals[i], numBits, output');
      PackStep(vals, i, numBits, 8 * |output|);
      MulStep(i + 1, numBits);
    }
    output' := packer.Flush(output');
    assert vals[..|vals|] == vals;
    TailValue(output, output', Packed(vals, numBits));
  }

  // ---- the reader ----

  datatype BitUnpacker = BitUnpacker(numBits: nat, mask: nat) {
    predicate Valid() {
      (numBits <= 56 || numBits == 64) && mask == Pow2(numBits) - 1
    }

    /** Byte address of field `idx`. */
    function Addr(idx: nat): nat {
      idx * numBits / 8
    }

    /** Reads 8 bytes at once when they are there, and zero-pads the tail otherwise. */
    function Get(idx: nat, data: seq<byte>): (r: nat)
      requires Valid() && (numBits == 0 || Addr(idx) <= |data|)
      ensures r == Field(data, numBits, idx)
    {
      var addrInBits := idx * numBits;
      var addr, bitShift := addrInBits / 8, addrInBits % 8;
      FieldInWord(addr, bitShift, numBits, idx);
      if addr + 8 > |data| then
        if numBits == 0 then 0 else GetSlowPath(addr, bitShift, data)
      else GetFastPath(addr, bitShift, data)
    }

    function GetFastPath(addr: nat, bitShift: nat, data: seq<byte>): (r: nat)
      requires Valid() && addr + 8 <= |data| && bitShift + numBits <= 64
      ensures r == Low(Shr(LeValue(data), 8 * addr + bitShift), numBits)
    {
      FastPathIsField(data, addr, bitShift, numBits);
      And(Shr(LeValue(data[addr..addr + 8]), bitShift), mask)
    }

    function GetSlowPath(addr: nat, bitShift: nat, data: seq<byte>): (r: nat)
      requires Valid() && addr <= |data| < addr + 8
      ensures r == Low(Shr(LeValue(data), 8 * addr + bitShift), numBits)
    {
      SlowPathIsField(data, addr, bitShift, numBits);
      And(Shr(LeValue(data[addr..] + seq(8 - (|data| - addr), _ => 0)), bitShift), mask)
    }
  }

  function NewBitUnpacker(numBits: nat): (u: BitUnpacker)
    requires numBits <= 56 || numBits == 64
    ensures u.Valid() && u.numBits == numBits
  {
    BitUnpacker(numBits, Pow2(numBits) - 1)
  }

  /** A field of an allowed width never spans more than 8 bytes. */
  lemma FieldInWord(addr: nat, shift: nat, b: nat, idx: nat)
    requires shift < 8 && idx * b == 8 * addr + shift
    requires b <= 56 || b == 64
    ensures shift + b <= 64
  {
    if b == 64 {
      MulByWord(idx, b);
    }
  }

  lemma MulByWord(idx: nat, b: nat)
    requires b == 64
    ensures idx * b == 8 * (8 * idx)
  {
  }

  lemma FastPathIsField(data: seq<byte>, addr: nat, shift: nat, b: nat)
    requires addr + 8 <= |data| && shift + b <= 64
    ensures And(Shr(LeValue(data[addr..addr + 8]), shift), Pow2(b) - 1) == Low(Shr(LeValue(data), 8 * addr + shift), b)
  {
    var n := LeValue(data);
    LeSlice(data, addr, addr + 8);
    AndMask(Shr(LeValue(data[addr..addr + 8]), shift), b);
    FieldOfLow(Shr(n, 8 * addr), 64, shift, b);
    ShrAdd(n, 8 * addr, shift);
  }

  lemma SlowPathIsField(data: seq<byte>, addr: nat, shift: nat, b: nat)
    requires addr <= |data| < addr + 8
    ensures And(Shr(LeValue(data[addr..] + seq(8 - (|data| - addr), _ => 0)), shift), Pow2(b) - 1)
            == Low(Shr(LeValue(data), 8 * addr + shift), b)
  {
    var pad: seq<byte> := seq(8 - (|data| - addr), _ => 0);
    LeZeros(|pad|);
    LeAppend(data[addr..], pad);
    ShlZero(8 * |data[addr..]|);
    LeDrop(data, addr);
    ShrAdd(LeValue(data), 8 * addr, shift);
    AndMask(Shr(LeValue(data), 8 * addr + shift), b);
  }

  lemma FieldEnds(i: nat, n: nat, b: nat)
    requires i < n
    ensures i * b + b <= n * b
  {
    MulStep(i + 1, b);
    MulMono(i + 1, n, b);
  }

  lemma FieldStays(data: seq<byte>, rest: seq<byte>, o: nat, b: nat)
    requires o + b <= 8 * |data|
    ensures Low(Shr(LeValue(data + rest), o), b) == Low(Shr(LeValue(data), o), b)
  {
    LeAppend(data, rest);
    FieldBelow(LeValue(data), LeValue(rest), o, b, 8 * |data|);
  }

  /** What was packed is read back, whatever bytes follow. */
  lemma PackedReadsBack(vals: seq<nat>, b: nat, data: seq<byte>, rest: seq<byte>, i: nat)
    requires Fits(vals, b) && i < |vals|
    requires |vals| * b <= 8 * |data| && LeValue(data) == Packed(vals, b)
    ensures Field(data + rest, b, i) == vals[i]
  {
    PackedField(vals, b, i);
    FieldEnds(i, |vals|, b);
    FieldStays(data, rest, i * b, b);
  }

  /** Write then read: every value comes back through `Get`, alone or followed by other bytes. */
  method RoundTrip(vals: seq<nat>, numBits: nat, rest: seq<byte>) returns (data: seq<byte>)
    requires numBits <= 56 || numBits == 64
    requires Fits(vals, numBits)
    ensures |data| == DivCeil8(|vals| * numBits)
    ensures forall i: nat | i < |vals| ::
              && (numBits == 0 || NewBitUnpacker(numBits).Addr(i) <= |data|)
              && NewBitUnpacker(numBits).Get(i, data) == vals[i]
              && NewBitUnpacker(numBits).Get(i, data + rest) == vals[i]
  {
    data := Pack(vals, numBits, []);
    assert data[0..] == data;
    forall i: nat | i < |vals|
      ensures NewBitUnpacker(numBits).Addr(i) <= |data|
      ensures Field(data, numBits, i) == vals[i] && Field(data + rest, numBits, i) == vals[i]
    {
      PackedReadsBack(vals, numBits, data, [], i);
      PackedReadsBack(vals, numBits, data, rest, i);
      assert data + [] == data;
      MulMono(i, |vals|, numBits);
    }
  }
}
