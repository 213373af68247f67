/** Batch decoding and the scan for ids whose packed value lies in a range. */
module RangeScan {
  import opened Bits
  import opened BitPacking

  const BLOCK_LEN := 32

  /** The fields `first, first + 1, ...` as a sequence. */
  function Fields(data: seq<byte>, b: nat, first: nat, len: nat): (r: seq<nat>)
    ensures |r| == len
    ensures forall k | 0 <= k < len :: r[k] == Field(data, b, first + k)
  {
    seq<nat>(len, k requires k >= 0 => Field(data, b, first + k))
  }

  /** All fields below index `end` lie inside the data. */
  predicate Covers(data: seq<byte>, b: nat, end: nat) {
    DivCeil8(end * b) <= |data|
  }

  /** Reading field `i` does not run off the data. */
  predicate Readable(data: seq<byte>, b: nat, i: nat) {
    b == 0 || i * b / 8 <= |data|
  }

  lemma CoveredAddr(data: seq<byte>, b: nat, end: nat, i: nat)
    requires Covers(data, b, end) && i <= end
    ensures Readable(data, b, i)
  {
    MulMono(i, end, b);
  }

  lemma FieldFits(data: seq<byte>, b: nat, i: nat)
    requires b <= 32
    ensures Low(Field(data, b, i), 32) == Field(data, b, i) < U32_LIMIT
  {
    Split(Shr(LeValue(data), i * b), b);
    Pow2Mono(b, 32);
    Pow2Values();
    Small(Field(data, b, i), 32);
  }

  /** Dropping whole bytes renumbers the fields. */
  lemma FieldShift(data: seq<byte>, offset: nat, b: nat, base: nat, k: nat)
    requires offset <= |data| && 8 * offset == base * b
    ensures Field(data[offset..], b, k) == Field(data, b, base + k)
  {
    var n, o := LeValue(data), k * b;
    LeDrop(data, offset);
    ShrAdd(n, 8 * offset, o);
    assert base * b + k * b == (base + k) * b;
  }

  // ---- batch decoding ----

  /** Decodes one value after the other into `output[lo..hi]`. */
  method GetBatchRamp(u: BitUnpacker, start: nat, data: seq<byte>, output: array<nat>, lo: nat, hi: nat)
    requires u.Valid() && u.numBits <= 32 && lo <= hi <= output.Length
    requires Covers(data, u.numBits, start + hi - lo)
    modifies output
    ensures output[..hi] == old(output[..lo]) + Fields(data, u.numBits, start, hi - lo)
  {
    for k := lo to hi
      invariant output[..k] == old(output[..lo]) + Fields(data, u.numBits, start, hi - lo)[..k - lo]
    {
      var idx := start + k - lo;
      CoveredAddr(data, u.numBits, start + hi - lo, idx);
      FieldFits(data, u.numBits, idx);
      output[k] := Low(u.Get(idx, data), 32);
    }
  }

  /** Decodes one block of 32 consecutive values from the start of `data`, and returns the
      number of bytes it occupies. */
  method Decompress(data: seq<byte>, output: array<nat>, cursor: nat, numBits: nat) returns (read: nat)
    requires numBits <= 32 && cursor + BLOCK_LEN <= output.Length && 4 * numBits <= |data|
    modifies output
    ensures read == 4 * numBits
    ensures output[..cursor + BLOCK_LEN] == old(output[..cursor]) + Fields(data, numBits, 0, BLOCK_LEN)
  {
    for k := 0 to BLOCK_LEN
      invariant output[..cursor + k] == old(output[..cursor]) + Fields(data, numBits, 0, BLOCK_LEN)[..k]
    {
      output[cursor + k] := Field(data, numBits, k);
    }
    read := 4 * numBits;
  }

  /** The first index of the block-wise part: a multiple of 8 in `(start, start + 8]`. */
  function HighwayStart(start: nat): (r: nat)
    ensures r % 8 == 0 && start < r <= start + 8
  {
    start + (8 - start % 8 % 8)
  }

  lemma HighwayAligned(start: nat, b: nat)
    ensures 8 * (HighwayStart(start) * b / 8) == HighwayStart(start) * b
  {
    var q := HighwayStart(start) / 8;
    MulEight(q, b);
  }

  method StartOffset(start: nat, b: nat) returns (offset: nat)
    ensures 8 * offset == HighwayStart(start) * b
  {
    HighwayAligned(start, b);
    offset := HighwayStart(start) * b / 8;
  }

  lemma MulEight(q: nat, b: nat)
    ensures 8 * q * b == 8 * (q * b)
  {
  }

  lemma BlockInData(data: seq<byte>, b: nat, end: nat, base: nat, offset: nat)
    requires Covers(data, b, end) && base + 32 <= end && 8 * offset == base * b
    ensures offset + 4 * b <= |data| && 8 * (offset + 4 * b) == (base + 32) * b
  {
    assert (base + 32) * b == base * b + 32 * b;
    MulMono(base + 32, end, b);
  }

  lemma FieldsShift(data: seq<byte>, offset: nat, b: nat, base: nat, len: nat)
    requires offset <= |data| && 8 * offset == base * b
    ensures Fields(data[offset..], b, 0, len) == Fields(data, b, base, len)
  {
    forall k | 0 <= k < len ensures Fields(data[offset..], b, 0, len)[k] == Fields(data, b, base, len)[k] {
      FieldShift(data, offset, b, base, k);
    }
  }

  lemma FieldsConcat(data: seq<byte>, b: nat, first: nat, m: nat, n: nat)
    ensures Fields(data, b, first, m + n) == Fields(data, b, first, m) + Fields(data, b, first + m, n)
  {
    var l, r := Fields(data, b, first, m + n), Fields(data, b, first, m) + Fields(data, b, first + m, n);
    forall k | 0 <= k < |l| ensures l[k] == r[k] {
      assert k >= m ==> first + k == first + m + (k - m);
    }
  }

  /** Decodes the block behind the first `cursor` values; returns the offset of the next one. */
  method DecodeBlock(data: seq<byte>, output: array<nat>, start: nat, cursor: nat, offset: nat, b: nat,
                     ghost base: nat, ghost end: nat)
      returns (offset': nat)
    requires b <= 32 && Covers(data, b, end) && base + BLOCK_LEN <= end <= start + output.Length
    requires base == start + cursor && 8 * offset == base * b && output[..cursor] == Fields(data, b, start, cursor)
    modifies output
    ensures 8 * offset' == (base + BLOCK_LEN) * b
    ensures output[..cursor + BLOCK_LEN] == Fields(data, b, start, cursor + BLOCK_LEN)
  {
    BlockInData(data, b, end, base, offset);
    FieldsShift(data, offset, b, base, BLOCK_LEN);
    FieldsConcat(data, b, start, cursor, BLOCK_LEN);
    var read := Decompress(data[offset..], output, cursor, b);
    offset' := offset + read;
  }

  /** Decodes whole blocks, continuing after the entrance ramp; returns how many values of
      `output` are decoded. */
  method Highway(u: BitUnpacker, data: seq<byte>, output: array<nat>, start: nat, numBlocks: nat, ghost end: nat)
      returns (cursor: nat)
    requires u.Valid() && u.numBits <= 32 && Covers(data, u.numBits, end)
    requires HighwayStart(start) + BLOCK_LEN * numBlocks <= end <= start + output.Length
    requires output[..HighwayStart(start) - start] == Fields(data, u.numBits, start, HighwayStart(start) - start)
    modifies output
    ensures cursor == HighwayStart(start) - start + BLOCK_LEN * numBlocks
    ensures output[..cursor] == Fields(data, u.numBits, start, cursor)
  {
    var b := u.numBits;
    cursor := HighwayStart(start) - start;
    ghost var base := HighwayStart(start);
    var offset := StartOffset(start, b);
    for i := 0 to numBlocks
      invariant cursor == HighwayStart(start) - start + BLOCK_LEN * i
      invariant base == start + cursor && 8 * offset == base * b
      invariant output[..cursor] == Fields(data, b, start, cursor)
    {
      offset := DecodeBlock(data, output, start, cursor, offset, b, base, end);
      cursor, base := cursor + BLOCK_LEN, base + BLOCK_LEN;
    }
  }

  /** The entrance ramp and the blocks; returns how many values of `output` are decoded. */
  method RampAndHighway(u: BitUnpacker, start: nat, data: seq<byte>, output: array<nat>, numBlocks: nat)
      returns (cursor: nat)
    requires u.Valid() && u.numBits <= 32 && Covers(data, u.numBits, start + output.Length)
    requires HighwayStart(start) + BLOCK_LEN * numBlocks <= start + output.Length
    modifies output
    ensures cursor == HighwayStart(start) - start + BLOCK_LEN * numBlocks
    ensures output[..cursor] == Fields(data, u.numBits, start, cursor)
  {
    ShorterCovered(data, u.numBits, HighwayStart(start), start + output.Length);
    GetBatchRamp(u, start, data, output, 0, HighwayStart(start) - start);
    cursor := Highway(u, data, output, start, numBlocks, start + output.Length);
  }

  /** Decodes `output.Length` values from index `start`: entrance ramp, blocks of 32, exit ramp.
      The result is what decoding one value at a time gives. */
  method GetBatchU32s(u: BitUnpacker, start: nat, data: seq<byte>, output: array<nat>)
    requires u.Valid() && u.numBits <= 32
    requires start + output.Length < U32_LIMIT && HighwayStart(start) + BLOCK_LEN < U32_LIMIT
    requires Covers(data, u.numBits, start + output.Length)
    modifies output
    ensures output[..] == Fields(data, u.numBits, start, output.Length)
  {
    var end := start + output.Length;
    var highwayStart := HighwayStart(start);
    if highwayStart + BLOCK_LEN > end {
      GetBatchRamp(u, start, data, output, 0, output.Length);
      assert output[..] == output[..output.Length];
      return;
    }
    var numBlocks := (end - highwayStart) / BLOCK_LEN;
    var cursor := RampAndHighway(u, start, data, output, numBlocks);
    var highwayEnd := highwayStart + numBlocks * BLOCK_LEN;
    GetBatchRamp(u, highwayEnd, data, output, cursor, output.Length);
    FieldsConcat(data, u.numBits, start, cursor, output.Length - cursor);
    assert output[..] == output[..output.Length];
  }

  lemma ShorterCovered(data: seq<byte>, b: nat, m: nat, n: nat)
    requires m <= n && Covers(data, b, n)
    ensures Covers(data, b, m)
  {
    MulMono(m, n, b);
  }

  // ---- scanning for a value range ----

  /** The positions of `vals` whose value is in the range, offset by `first`. */
  function Matching(vals: seq<nat>, lo: nat, hi: nat, first: nat): seq<nat> {
    if vals == [] then []
    else
      var n := |vals| - 1;
      Matching(vals[..n], lo, hi, first) + if lo <= vals[n] <= hi then [first + n] else []
  }

  lemma MatchingNext(vals: seq<nat>, lo: nat, hi: nat, first: nat, k: nat)
    requires k < |vals|
    ensures Matching(vals[..k + 1], lo, hi, first) ==
            Matching(vals[..k], lo, hi, first) + if lo <= vals[k] <= hi then [first + k] else []
  {
    assert vals[..k + 1][..k] == vals[..k];
  }

  lemma {:induction false} MatchingMember(vals: seq<nat>, lo: nat, hi: nat, first: nat, id: nat)
    ensures id in Matching(vals, lo, hi, first) <==>
              first <= id < first + |vals| && lo <= vals[id - first] <= hi
  {
    if vals != [] {
      var n := |vals| - 1;
      MatchingMember(vals[..n], lo, hi, first, id);
      assert first <= id < first + n ==> vals[..n][id - first] == vals[id - first];
      assert Matching(vals, lo, hi, first) ==
             Matching(vals[..n], lo, hi, first) + if lo <= vals[n] <= hi then [first + n] else [];
    }
  }

  lemma {:induction false} MatchingAscends(vals: seq<nat>, lo: nat, hi: nat, first: nat)
    ensures var r := Matching(vals, lo, hi, first);
            forall i, j | 0 <= i < j < |r| :: r[i] < r[j]
  {
    if vals != [] {
      var n := |vals| - 1;
      var r := Matching(vals[..n], lo, hi, first);
      MatchingAscends(vals[..n], lo, hi, first);
      var r' := Matching(vals, lo, hi, first);
      assert r' == r || r' == r + [first + n];
      forall i, j | 0 <= i < j < |r'| ensures r'[i] < r'[j] {
        MatchingMember(vals[..n], lo, hi, first, r[i]);
        assert j < |r| ==> r'[j] == r[j];
      }
    }
  }

  /** `Matching` lists, in strictly ascending order, exactly the ids whose value is in the range. */
  lemma MatchingIsExact(vals: seq<nat>, lo: nat, hi: nat, first: nat)
    ensures var r := Matching(vals, lo, hi, first);
            && (forall i, j | 0 <= i < j < |r| :: r[i] < r[j])
            && (forall id: nat :: id in r <==> first <= id < first + |vals| && lo <= vals[id - first] <= hi)
  {
    MatchingAscends(vals, lo, hi, first);
    forall id: nat
      ensures id in Matching(vals, lo, hi, first) <==>
                first <= id < first + |vals| && lo <= vals[id - first] <= hi
    {
      MatchingMember(vals, lo, hi, first, id);
    }
  }

  /** Overwrites the values in place with the matching ids, then truncates. */
  method FilterVecInPlace(lo: nat, hi: nat, first: nat, vals: seq<nat>) returns (output: seq<nat>)
    ensures output == Matching(vals, lo, hi, first)
  {
    output := vals;
    var cursor := 0;
    for i := 0 to |vals|
      invariant |output| == |vals| && cursor <= i
      invariant output[..cursor] == Matching(vals[..i], lo, hi, first)
      invariant output[i..] == vals[i..]
    {
      var val := output[i];
      assert val == output[i..][0] == vals[i..][0] == vals[i];
      ghost var before := output[..cursor];
      output := output[cursor := first + i];
      assert output[..cursor] == before && output[..cursor + 1] == before + [first + i];
      MatchingNext(vals, lo, hi, first, i);
      cursor := cursor + if lo <= val <= hi then 1 else 0;
    }
    output := output[..cursor];
    assert vals[..|vals|] == vals;
  }

  function RangeLen(start: nat, end: nat): nat {
    if start < end then end - start else 0
  }

  method GetBefore(u: BitUnpacker, idx: nat, ghost end: nat, data: seq<byte>) returns (val: nat)
    requires u.Valid() && idx < end && Readable(data, u.numBits, end - 1)
    ensures val == Field(data, u.numBits, idx)
  {
    MulMono(idx, end - 1, u.numBits);
    val := u.Get(idx, data);
  }

  method IdsSlow(u: BitUnpacker, lo: nat, hi: nat, start: nat, end: nat, data: seq<byte>)
      returns (positions: seq<nat>)
    requires u.Valid() && (start < end ==> Readable(data, u.numBits, end - 1))
    ensures positions == Matching(Fields(data, u.numBits, start, RangeLen(start, end)), lo, hi, start)
  {
    ghost var all := Fields(data, u.numBits, start, RangeLen(start, end));
    positions := [];
    var i := start;
    while i < end
      invariant start <= i && i - start <= |all|
      invariant positions == Matching(all[..i - start], lo, hi, start)
    {
      var val := GetBefore(u, i, end, data);
      MatchingNext(all, lo, hi, start, i - start);
      if lo <= val <= hi {
        positions := positions + [i];
      }
      i := i + 1;
    }
    assert all[..i - start] == all;
  }

  method IdsFast(u: BitUnpacker, lo: nat, hi: nat, start: nat, end: nat, data: seq<byte>)
      returns (positions: seq<nat>)
    requires u.Valid() && u.numBits <= 32 && BatchReadable(u, start, end, data)
    ensures positions == Matching(Fields(data, u.numBits, start, RangeLen(start, end)), lo, hi, start)
  {
    var output := new nat[RangeLen(start, end)];
    GetBatchU32s(u, start, data, output);
    positions := FilterVecInPlace(lo, hi, start, output[..]);
  }

  /** What the batch path demands: no 32-bit overflow, and all fields inside the data. */
  predicate BatchReadable(u: BitUnpacker, start: nat, end: nat, data: seq<byte>) {
    var len := RangeLen(start, end);
    start + len < U32_LIMIT && HighwayStart(start) + BLOCK_LEN < U32_LIMIT && Covers(data, u.numBits, start + len)
  }

  lemma {:induction false} MatchingClamped(vals: seq<nat>, lo: nat, hi: nat, hi': nat, first: nat)
    requires forall i | 0 <= i < |vals| :: (lo <= vals[i] <= hi) <==> (lo <= vals[i] <= hi')
    ensures Matching(vals, lo, hi, first) == Matching(vals, lo, hi', first)
  {
    if vals != [] {
      MatchingClamped(vals[..|vals| - 1], lo, hi, hi', first);
    }
  }

  lemma {:induction false} NothingMatches(vals: seq<nat>, lo: nat, hi: nat, first: nat)
    requires forall i | 0 <= i < |vals| :: !(lo <= vals[i] <= hi)
    ensures Matching(vals, lo, hi, first) == []
  {
    if vals != [] {
      NothingMatches(vals[..|vals| - 1], lo, hi, first);
    }
  }

  /** Ids in `start..end` whose decoded value is in `lo..=hi`: narrow widths take the batch path
      with the range clamped to 32 bits, wide ones the slow path. The answer is the same. */
  method GetIdsForValueRange(u: BitUnpacker, lo: nat, hi: nat, start: nat, end: nat, data: seq<byte>)
      returns (positions: seq<nat>)
    requires u.Valid()
    requires u.numBits > 32 && start < end ==> Readable(data, u.numBits, end - 1)
    requires u.numBits <= 32 && lo < U32_LIMIT ==> BatchReadable(u, start, end, data)
    ensures forall i, j | 0 <= i < j < |positions| :: positions[i] < positions[j]
    ensures forall id: nat :: id in positions <==>
              start <= id < end && lo <= Field(data, u.numBits, id) <= hi
  {
    ghost var all := Fields(data, u.numBits, start, RangeLen(start, end));
    if u.numBits > 32 {
      positions := IdsSlow(u, lo, hi, start, end, data);
    } else {
      forall k | 0 <= k < |all| ensures all[k] < U32_LIMIT {
        FieldFits(data, u.numBits, start + k);
      }
      if lo > U32_LIMIT - 1 {
        NothingMatches(all, lo, hi, start);
        positions := [];
      } else {
        var hi32 := if hi < U32_LIMIT - 1 then hi else U32_LIMIT - 1;
        MatchingClamped(all, lo, hi, hi32, start);
        positions := IdsFast(u, lo, hi32, start, end, data);
      }
    }
    MatchingIsExact(all, lo, hi, start);
  }

  lemma PackedFields(vals: seq<nat>, b: nat, data: seq<byte>)
    requires Fits(vals, b) && |data| == DivCeil8(|vals| * b) && LeValue(data) == Packed(vals, b)
    ensures forall id: nat | id < |vals| :: Field(data, b, id) == vals[id]
  {
    forall id: nat | id < |vals|
      ensures Field(data, b, id) == vals[id]
    {
      PackedReadsBack(vals, b, data, [], id);
      assert data + [] == data;
    }
  }

  /** What a caller sees: pack the values, then scan for those in a range. */
  method PackThenScan(vals: seq<nat>, numBits: nat, lo: nat, hi: nat, start: nat, end: nat)
      returns (positions: seq<nat>)
    requires (numBits <= 56 || numBits == 64) && Fits(vals, numBits)
    requires start <= end <= |vals| && |vals| < 0x1_0000_0000 - 64
    ensures forall i, j | 0 <= i < j < |positions| :: positions[i] < positions[j]
    ensures forall id: nat :: id in positions <==> start <= id < end && lo <= vals[id] <= hi
  {
    var data := Pack(vals, numBits, []);
    assert data[0..] == data;
    PackedFields(vals, numBits, data);
    MulMono(end, |vals|, numBits);
    if start < end {
      MulMono(end - 1, |vals|, numBits);
    }
    positions := GetIdsForValueRange(NewBitUnpacker(numBits), lo, hi, start, end, data);
  }
}
