/** `BlockedBitpacker`: a growable array of 64-bit numbers, compressed in blocks of 128. */
module BlockedPacking {
  import opened Results
  import opened Bits
  import opened BitPacking

  const BLOCK_SIZE := 128
  const U64_LIMIT := 0x1_0000_0000_0000_0000
  const OFFSET_LIMIT := 0x100_0000_0000_0000
  /** With fewer values than this, no block offset reaches `OFFSET_LIMIT`. */
  const CAPACITY := 0x20_0000_0000_0000

  // ---- choosing a width ----

  /** Number of significant bits: `64 - leading_zeros`. */
  function BitLength(n: nat): (r: nat)
    ensures n < Pow2(r)
    ensures n > 0 ==> r > 0 && Pow2(r - 1) <= n
  {
    if n == 0 then 0 else 1 + BitLength(n / 2)
  }

  predicate AllowedWidth(b: nat) {
    b <= 56 || b == 64
  }

  function ComputeNumBits(n: nat): (r: nat) {
    if BitLength(n) <= 64 - 8 then BitLength(n) else 64
  }

  /** The smallest width the reader allows that holds `n`. */
  lemma NumBitsIsLeast(n: nat)
    requires n < Pow2(64)
    ensures (ComputeNumBits(n) <= 56 || ComputeNumBits(n) == 64) && n < Pow2(ComputeNumBits(n))
    ensures forall w: nat | (w <= 56 || w == 64) && n < Pow2(w) :: ComputeNumBits(n) <= w
  {
    forall w: nat | (w <= 56 || w == 64) && n < Pow2(w) ensures BitLength(n) <= w {
      if w < BitLength(n) {
        Pow2Mono(w, BitLength(n) - 1);
      }
    }
  }

  method MinMax(vals: seq<nat>) returns (r: Option<(nat, nat)>)
    ensures r.None? <==> vals == []
    ensures r.Some? ==> r.value.0 in vals && r.value.1 in vals
    ensures r.Some? ==> forall v | v in vals :: r.value.0 <= v <= r.value.1
  {
    if vals == [] {
      return None;
    }
    var minSoFar, maxSoFar := vals[0], vals[0];
    for i := 1 to |vals|
      invariant minSoFar in vals && maxSoFar in vals
      invariant forall k | 0 <= k < i :: minSoFar <= vals[k] <= maxSoFar
    {
      if vals[i] < minSoFar {
        minSoFar := vals[i];
      }
      if vals[i] > maxSoFar {
        maxSoFar := vals[i];
      }
    }
    return Some((minSoFar, maxSoFar));
  }

  function MinOf(vals: seq<nat>): (r: nat)
    requires vals != []
    ensures r in vals && forall i | 0 <= i < |vals| :: r <= vals[i]
  {
    if |vals| == 1 then vals[0]
    else
      var r := MinOf(vals[1..]);
      if vals[0] < r then vals[0] else r
  }

  function MaxOf(vals: seq<nat>): (r: nat)
    requires vals != []
    ensures r in vals && forall i | 0 <= i < |vals| :: vals[i] <= r
  {
    if |vals| == 1 then vals[0]
    else
      var r := MaxOf(vals[1..]);
      if vals[0] > r then vals[0] else r
  }

  // ---- block metadata ----

  /** Offset (56 bits) and width (8 bits) share one 64-bit word. */
  datatype Metadata = Metadata(encoded: nat, baseValue: nat) {
    function Offset(): nat {
      Shr(Low(Shl(encoded, 8), 64), 8)
    }

    function NumBits(): nat {
      Low(Shr(encoded, 56), 8)
    }
  }

  function NewMetadata(offset: nat, numBits: nat, baseValue: nat): Metadata {
    Metadata(Or(offset, Low(Shl(numBits, 56), 64)), baseValue)
  }

  lemma EncodedIsSum(offset: nat, numBits: nat)
    requires offset < Pow2(56) && numBits < Pow2(8)
    ensures Or(offset, Low(Shl(numBits, 56), 64)) == offset + Shl(numBits, 56)
  {
    AddHighBound(0, numBits, 56, 8);
    Small(Shl(numBits, 56), 64);
    OrHigh(offset, numBits, 56);
  }

  lemma OffsetRead(offset: nat, numBits: nat)
    requires offset < Pow2(56)
    ensures Shr(Low(Shl(offset + Shl(numBits, 56), 8), 64), 8) == offset
  {
    LowShl(offset + Shl(numBits, 56), 8, 56);
    AddHigh(offset, numBits, 56);
    Small(offset, 56);
    Small(0, 8);
    AddHigh(0, offset, 8);
  }

  lemma NumBitsRead(offset: nat, numBits: nat)
    requires offset < Pow2(56) && numBits < Pow2(8)
    ensures Low(Shr(offset + Shl(numBits, 56), 56), 8) == numBits
  {
    AddHigh(offset, numBits, 56);
    Small(offset, 56);
    Small(numBits, 8);
  }

  /** The packing is lossless for offsets below `2^56`. */
  lemma MetadataRoundTrip(offset: nat, numBits: nat, baseValue: nat)
    requires offset < Pow2(56) && numBits < Pow2(8)
    ensures NewMetadata(offset, numBits, baseValue).Offset() == offset
    ensures NewMetadata(offset, numBits, baseValue).NumBits() == numBits
    ensures NewMetadata(offset, numBits, baseValue) == Metadata(offset + numBits * 0x100_0000_0000_0000, baseValue)
  {
    Pow2Values();
    ShiftMeaning(numBits, 56);
    EncodedIsSum(offset, numBits);
    OffsetRead(offset, numBits);
    NumBitsRead(offset, numBits);
  }

  // ---- blocks ----

  predicate AllAtLeast(vals: seq<nat>, base: nat) {
    forall i | 0 <= i < |vals| :: base <= vals[i]
  }

  function Minus(vals: seq<nat>, base: nat): (r: seq<nat>)
    requires AllAtLeast(vals, base)
    ensures |r| == |vals| && forall i | 0 <= i < |vals| :: r[i] == vals[i] - base
  {
    if vals == [] then [] else Minus(vals[..|vals| - 1], base) + [vals[|vals| - 1] - base]
  }

  function BlockBytes(n: nat, b: nat): nat {
    DivCeil8(n * b)
  }

  /** The width a block is packed at. */
  function WidthOf(block: seq<nat>): nat
    requires block != []
  {
    ComputeNumBits(MaxOf(block) - MinOf(block))
  }

  function Padding(): seq<byte> { seq(8, _ => 0) }

  /** The bytes at the metadata's offset spell the block, and eight more bytes follow. */
  ghost predicate Stores(data: seq<byte>, meta: Metadata, block: seq<nat>) {
    var off, b, len := meta.Offset(), meta.NumBits(), BlockBytes(|block|, meta.NumBits());
    && AllowedWidth(b)
    && off + len + 8 <= |data|
    && AllAtLeast(block, meta.baseValue)
    && Fits(Minus(block, meta.baseValue), b)
    && LeValue(data[off..off + len]) == Packed(Minus(block, meta.baseValue), b)
  }

  /** Appending to the data, or replacing its last eight bytes, keeps a stored block. */
  lemma StoresKept(data: seq<byte>, data': seq<byte>, meta: Metadata, block: seq<nat>)
    requires Stores(data, meta, block)
    requires |data| >= 8 && |data'| >= |data| && data[..|data| - 8] == data'[..|data| - 8]
    ensures Stores(data', meta, block)
  {
    SameSlice(data, data', |data| - 8, meta.Offset(), meta.Offset() + BlockBytes(|block|, meta.NumBits()));
  }

  lemma SameSlice(a: seq<byte>, b: seq<byte>, n: nat, lo: nat, hi: nat)
    requires lo <= hi <= n <= |a| && n <= |b| && a[..n] == b[..n]
    ensures a[lo..hi] == b[lo..hi]
  {
    assert a[lo..hi] == a[..n][lo..hi] && b[lo..hi] == b[..n][lo..hi];
  }

  lemma StoredRead(data: seq<byte>, meta: Metadata, block: seq<nat>, i: nat)
    requires Stores(data, meta, block) && i < |block|
    ensures Field(data[meta.Offset()..], meta.NumBits(), i) + meta.baseValue == block[i]
    ensures i * meta.NumBits() / 8 + 8 <= |data[meta.Offset()..]|
  {
    var off, b, len := meta.Offset(), meta.NumBits(), BlockBytes(|block|, meta.NumBits());
    var bytes, rest := data[off..off + len], data[off + len..];
    assert data[off..] == bytes + rest;
    PackedReadsBack(Minus(block, meta.baseValue), b, bytes, rest, i);
    MulMono(i, |block|, b);
  }

  ghost predicate AllStored(data: seq<byte>, metas: seq<Metadata>, blocks: seq<seq<nat>>) {
    && |metas| == |blocks|
    && (blocks != [] ==>
          var n := |blocks| - 1;
          && AllStored(data, metas[..n], blocks[..n])
          && 0 < |blocks[n]| <= BLOCK_SIZE && Stores(data, metas[n], blocks[n]))
  }

  lemma {:induction false} StoredAt(data: seq<byte>, metas: seq<Metadata>, blocks: seq<seq<nat>>, k: nat)
    requires AllStored(data, metas, blocks) && k < |blocks|
    ensures 0 < |blocks[k]| <= BLOCK_SIZE && Stores(data, metas[k], blocks[k])
  {
    var n := |blocks| - 1;
    if k < n {
      StoredAt(data, metas[..n], blocks[..n], k);
    }
  }

  lemma {:induction false} AllStoredKept(data: seq<byte>, data': seq<byte>, metas: seq<Metadata>,
                                         blocks: seq<seq<nat>>)
    requires AllStored(data, metas, blocks)
    requires 8 <= |data| <= |data'| && data[..|data| - 8] == data'[..|data| - 8]
    ensures AllStored(data', metas, blocks)
  {
    if blocks != [] {
      var n := |blocks| - 1;
      AllStoredKept(data, data', metas[..n], blocks[..n]);
      StoresKept(data, data', metas[n], blocks[n]);
    }
  }

  lemma AllStoredSnoc(data: seq<byte>, metas: seq<Metadata>, blocks: seq<seq<nat>>,
                      meta: Metadata, block: seq<nat>)
    requires AllStored(data, metas, blocks)
    requires 0 < |block| <= BLOCK_SIZE && Stores(data, meta, block)
    ensures AllStored(data, metas + [meta], blocks + [block])
  {
    assert (metas + [meta])[..|metas|] == metas && (blocks + [block])[..|blocks|] == blocks;
  }

  function Flatten(blocks: seq<seq<nat>>): seq<nat> {
    if blocks == [] then [] else Flatten(blocks[..|blocks| - 1]) + blocks[|blocks| - 1]
  }

  ghost predicate AllFull(blocks: seq<seq<nat>>) {
    forall k | 0 <= k < |blocks| :: |blocks[k]| == BLOCK_SIZE
  }

  /** Packs one block over the padding at the end of `data`, at the least width that holds its
      spread, and pads again. */
  method CompressBlock(block: seq<nat>, data: seq<byte>) returns (data': seq<byte>, meta: Metadata)
    requires block != [] && AreWords(block)
    requires 8 <= |data| < 8 + OFFSET_LIMIT
    ensures Stores(data', meta, block)
    ensures |data| <= |data'| <= |data| + 8 * |block| && data'[..|data| - 8] == data[..|data| - 8]
    ensures meta.NumBits() == WidthOf(block) && meta.baseValue == MinOf(block)
    ensures |data'| == |data| + BlockBytes(|block|, meta.NumBits())
    ensures forall k | |data'| - 8 <= k < |data'| :: data'[k] == 0
  {
    var minValue, numBits := ChooseWidth(block);
    var unpadded := data[..|data| - 8];
    var packed := PackBlock(block, minValue, numBits, unpadded);
    data', meta := packed + Padding(), NewMetadata(|unpadded|, numBits, minValue);
    CompressedStores(packed, data', meta, block, |unpadded|, numBits, minValue);
    PaddedPrefix(unpadded, packed, Padding());
  }

  /** The least value, and the least width that holds the distance to the greatest one. */
  method ChooseWidth(block: seq<nat>) returns (minValue: nat, numBits: nat)
    requires block != [] && AreWords(block)
    ensures minValue == MinOf(block) && numBits == WidthOf(block) && AllowedWidth(numBits)
    ensures AllAtLeast(block, minValue) && Fits(Minus(block, minValue), numBits)
  {
    var bounds := MinMax(block);
    var maxValue;
    minValue, maxValue := bounds.value.0, bounds.value.1;
    SameBounds(block, minValue, maxValue);
    Pow2Values();
    numBits := ComputeNumBits(maxValue - minValue);
    NumBitsIsLeast(maxValue - minValue);
    SpreadFits(block, minValue, maxValue, numBits);
  }

  lemma CompressedStores(packed: seq<byte>, data: seq<byte>, meta: Metadata, block: seq<nat>, offset: nat, b: nat,
                         base: nat)
    requires AllowedWidth(b) && offset <= |packed| && data == packed + Padding() && offset < OFFSET_LIMIT
    requires meta == NewMetadata(offset, b, base) && AllAtLeast(block, base) && Fits(Minus(block, base), b)
    requires |packed| == offset + BlockBytes(|block|, b)
    requires LeValue(packed[offset..]) == Packed(Minus(block, base), b)
    ensures Stores(data, meta, block) && BlockBytes(|block|, b) <= 8 * |block| && meta.NumBits() == b
  {
    Pow2Values();
    MetadataRoundTrip(offset, b, base);
    BlockStored(packed, data, meta, block, offset, b, base);
  }

  lemma SameBounds(block: seq<nat>, minValue: nat, maxValue: nat)
    requires minValue in block && maxValue in block && forall v | v in block :: minValue <= v <= maxValue
    ensures minValue == MinOf(block) && maxValue == MaxOf(block)
  {
  }

  /** Packs the values above the least one behind `unpadded`. */
  method PackBlock(block: seq<nat>, minValue: nat, numBits: nat, unpadded: seq<byte>) returns (packed: seq<byte>)
    requires AllowedWidth(numBits) && AllAtLeast(block, minValue) && Fits(Minus(block, minValue), numBits)
    ensures unpadded <= packed && |packed| == |unpadded| + BlockBytes(|block|, numBits)
    ensures LeValue(packed[|unpadded|..]) == Packed(Minus(block, minValue), numBits)
  {
    packed := Pack(Minus(block, minValue), numBits, unpadded);
  }

  lemma PaddedPrefix(a: seq<byte>, b: seq<byte>, pad: seq<byte>)
    requires a <= b
    ensures (b + pad)[..|a|] == a
  {
  }

  lemma SpreadFits(block: seq<nat>, minValue: nat, maxValue: nat, b: nat)
    requires minValue <= maxValue && maxValue - minValue < Pow2(b)
    requires forall v | v in block :: minValue <= v <= maxValue
    ensures AllAtLeast(block, minValue) && Fits(Minus(block, minValue), b)
  {
    forall i | 0 <= i < |block| ensures minValue <= block[i] <= maxValue {
      assert block[i] in block;
    }
  }

  /** Each block has the width of its spread and its least value as base. */
  ghost predicate Chosen(metas: seq<Metadata>, blocks: seq<seq<nat>>) {
    && |metas| == |blocks|
    && (blocks != [] ==>
          var n := |blocks| - 1;
          && Chosen(metas[..n], blocks[..n])
          && blocks[n] != [] && metas[n].NumBits() == WidthOf(blocks[n]) && metas[n].baseValue == MinOf(blocks[n]))
  }

  lemma ChosenSnoc(metas: seq<Metadata>, blocks: seq<seq<nat>>, meta: Metadata, block: seq<nat>)
    requires Chosen(metas, blocks) && block != []
    requires meta.NumBits() == WidthOf(block) && meta.baseValue == MinOf(block)
    ensures Chosen(metas + [meta], blocks + [block])
  {
    assert (metas + [meta])[..|metas|] == metas && (blocks + [block])[..|blocks|] == blocks;
  }

  lemma {:induction false} ChosenAt(metas: seq<Metadata>, blocks: seq<seq<nat>>, k: nat)
    requires Chosen(metas, blocks) && k < |blocks|
    ensures blocks[k] != [] && metas[k].NumBits() == WidthOf(blocks[k]) && metas[k].baseValue == MinOf(blocks[k])
  {
    var n := |blocks| - 1;
    if k < n {
      ChosenAt(metas[..n], blocks[..n], k);
    }
  }

  /** What a packer that compressed these blocks holds. */
  ghost predicate Leaves(data: seq<byte>, metas: seq<Metadata>, blocks: seq<seq<nat>>) {
    AllStored(data, metas, blocks) && Chosen(metas, blocks)
  }

  predicate AreWords(vals: seq<nat>) {
    forall i | 0 <= i < |vals| :: vals[i] < U64_LIMIT
  }

  predicate InWords(blocks: seq<seq<nat>>) {
    blocks == [] || (InWords(blocks[..|blocks| - 1]) && AreWords(blocks[|blocks| - 1]))
  }

  lemma {:induction false} InWordsAt(blocks: seq<seq<nat>>, k: nat, i: nat)
    requires InWords(blocks) && k < |blocks| && i < |blocks[k]|
    ensures blocks[k][i] < U64_LIMIT
  {
    if k < |blocks| - 1 {
      InWordsAt(blocks[..|blocks| - 1], k, i);
    }
  }

  lemma LeavesMore(data: seq<byte>, data': seq<byte>, metas: seq<Metadata>, blocks: seq<seq<nat>>,
                   meta: Metadata, block: seq<nat>)
    requires Leaves(data, metas, blocks) && 8 <= |data| <= |data'| && data[..|data| - 8] == data'[..|data| - 8]
    requires 0 < |block| <= BLOCK_SIZE && Stores(data', meta, block)
    requires meta.NumBits() == WidthOf(block) && meta.baseValue == MinOf(block)
    ensures Leaves(data', metas + [meta], blocks + [block])
  {
    AllStoredKept(data, data', metas, blocks);
    AllStoredSnoc(data', metas, blocks, meta, block);
    ChosenSnoc(metas, blocks, meta, block);
  }

  method AppendBlock(block: seq<nat>, data: seq<byte>, ghost metas: seq<Metadata>, ghost blocks: seq<seq<nat>>)
      returns (data': seq<byte>, meta: Metadata)
    requires 0 < |block| <= BLOCK_SIZE && AreWords(block) && 8 <= |data| < 8 + OFFSET_LIMIT
    requires Leaves(data, metas, blocks)
    ensures |data| <= |data'| <= |data| + 8 * |block| && Leaves(data', metas + [meta], blocks + [block])
  {
    data', meta := CompressBlock(block, data);
    LeavesMore(data, data', metas, blocks, meta, block);
  }

  lemma FlattenMore(blocks: seq<seq<nat>>, block: seq<nat>)
    requires InWords(blocks) && AreWords(block)
    ensures Flatten(blocks + [block]) == Flatten(blocks) + block && InWords(blocks + [block])
  {
    assert (blocks + [block])[..|blocks|] == blocks;
  }

  // ---- indexed reads ----

  /** Field `pos` of the block at `meta`; nothing when the source panics, also by overflow. */
  function Unpacked(data: seq<byte>, meta: Metadata, pos: nat): Option<nat> {
    if !AllowedWidth(meta.NumBits()) || meta.Offset() > |data| then None
    else
      var reader, bytes := NewBitUnpacker(meta.NumBits()), data[meta.Offset()..];
      if meta.NumBits() != 0 && reader.Addr(pos) > |bytes| then None
      else
        var v := reader.Get(pos, bytes) + meta.baseValue;
        if v < U64_LIMIT then Some(v) else None
  }

  /** What an indexed read returns, whether or not the index addresses a value. */
  function Read(data: seq<byte>, metas: seq<Metadata>, buffer: seq<nat>, idx: nat): Option<nat> {
    if idx / BLOCK_SIZE < |metas| then Unpacked(data, metas[idx / BLOCK_SIZE], idx % BLOCK_SIZE)
    else if idx % BLOCK_SIZE < |buffer| then Some(buffer[idx % BLOCK_SIZE])
    else None
  }

  /** At any index of a block: its field plus its base, wherever that lies, or a panic. */
  lemma ReadInBlock(data: seq<byte>, metas: seq<Metadata>, buffer: seq<nat>, idx: nat)
    requires idx / 128 < |metas|
    ensures var meta, pos := metas[idx / 128], idx % 128;
            var b, off := meta.NumBits(), meta.Offset();
            Read(data, metas, buffer, idx) ==
              if (b > 56 && b != 64) || off > |data| || (b > 0 && off + pos * b / 8 > |data|) then None
              else
                var v := Field(data[off..], b, pos) + meta.baseValue;
                if v < 0x1_0000_0000_0000_0000 then Some(v) else None
  {
  }

  /** Behind the blocks: the buffer, from the position within a block, or a panic. */
  lemma ReadBehind(data: seq<byte>, metas: seq<Metadata>, buffer: seq<nat>, idx: nat)
    requires idx / 128 >= |metas|
    ensures Read(data, metas, buffer, idx) == if idx % 128 < |buffer| then Some(buffer[idx % 128]) else None
  {
  }

  /** Index `idx` addresses a value that is present. */
  ghost predicate Present(blocks: seq<seq<nat>>, buffer: seq<nat>, idx: nat) {
    if idx / BLOCK_SIZE < |blocks| then idx % BLOCK_SIZE < |blocks[idx / BLOCK_SIZE]|
    else idx % BLOCK_SIZE < |buffer|
  }

  ghost function At(blocks: seq<seq<nat>>, buffer: seq<nat>, idx: nat): nat
    requires Present(blocks, buffer, idx)
  {
    if idx / BLOCK_SIZE < |blocks| then blocks[idx / BLOCK_SIZE][idx % BLOCK_SIZE]
    else buffer[idx % BLOCK_SIZE]
  }

  lemma UnpackedIsValue(data: seq<byte>, meta: Metadata, block: seq<nat>, pos: nat)
    requires Stores(data, meta, block) && pos < |block| && block[pos] < U64_LIMIT
    ensures Unpacked(data, meta, pos) == Some(block[pos])
  {
    StoredRead(data, meta, block, pos);
  }

  /** Where a value is, it is read. */
  lemma PresentRead(data: seq<byte>, metas: seq<Metadata>, blocks: seq<seq<nat>>, buffer: seq<nat>, idx: nat)
    requires AllStored(data, metas, blocks) && InWords(blocks) && Present(blocks, buffer, idx)
    ensures Read(data, metas, buffer, idx) == Some(At(blocks, buffer, idx))
  {
    var k := idx / BLOCK_SIZE;
    if k < |blocks| {
      StoredAt(data, metas, blocks, k);
      InWordsAt(blocks, k, idx % BLOCK_SIZE);
      UnpackedIsValue(data, metas[k], blocks[k], idx % BLOCK_SIZE);
    }
  }

  class BlockedBitpacker {
    var compressedBlocks: seq<byte>
    var buffer: seq<nat>
    var offsetAndBits: seq<Metadata>
    /** The values of each compressed block. */
    ghost var blocks: seq<seq<nat>>

    ghost predicate Stored()
      reads this
    {
      && |buffer| <= BLOCK_SIZE
      && 8 <= |compressedBlocks| <= 8 + 8 * |Flatten(blocks)|
      && AreWords(buffer) && InWords(blocks)
      && Leaves(compressedBlocks, offsetAndBits, blocks)
    }

    /** Between two operations the buffer is never full. */
    ghost predicate Valid()
      reads this
    {
      Stored() && |buffer| < BLOCK_SIZE
    }

    ghost function Contents(): seq<nat>
      reads this
    {
      Flatten(blocks) + buffer
    }

    constructor ()
      ensures Valid() && blocks == [] && Contents() == []
    {
      compressedBlocks := seq(8, _ => 0);
      buffer, offsetAndBits, blocks := [], [], [];
    }

    method Add(val: nat)
      requires Valid() && val < U64_LIMIT && |Contents()| < CAPACITY
      modifies this
      ensures Valid() && Contents() == old(Contents()) + [val]
      ensures |old(buffer)| + 1 < 128 ==> blocks == old(blocks) && buffer == old(buffer) + [val]
      ensures |old(buffer)| + 1 == 128 ==> blocks == old(blocks) + [old(buffer) + [val]] && buffer == []
    {
      buffer := buffer + [val];
      assert Contents() == old(Contents()) + [val];
      if |buffer| == BLOCK_SIZE {
        Flush();
      }
    }

    /** Compresses whatever is buffered into one more block. */
    method Flush()
      requires Stored() && (buffer != [] ==> |Flatten(blocks)| < CAPACITY)
      modifies this
      ensures Valid() && buffer == [] && Contents() == old(Contents())
      ensures blocks == if old(buffer) == [] then old(blocks) else old(blocks) + [old(buffer)]
    {
      if |buffer| > 0 {
        var data, meta := AppendBlock(buffer, compressedBlocks, offsetAndBits, blocks);
        FlattenMore(blocks, buffer);
        compressedBlocks, offsetAndBits, blocks, buffer := data, offsetAndBits + [meta], blocks + [buffer], [];
      }
    }

    /** Thanks to the padding, a block is never read by the slow path. */
    lemma ReadsWholeWords(idx: nat)
      requires Valid() && Present(blocks, buffer, idx) && idx / BLOCK_SIZE < |offsetAndBits|
      ensures var meta := offsetAndBits[idx / BLOCK_SIZE];
              meta.Offset() + idx % BLOCK_SIZE * meta.NumBits() / 8 + 8 <= |compressedBlocks|
    {
      StoredAt(compressedBlocks, offsetAndBits, blocks, idx / BLOCK_SIZE);
      StoredRead(compressedBlocks, offsetAndBits[idx / BLOCK_SIZE], blocks[idx / BLOCK_SIZE], idx % BLOCK_SIZE);
    }

    /** Any index may be asked for; nothing is returned where the source panics. */
    method Get(idx: nat) returns (r: Option<nat>)
      requires Valid()
      ensures r == Read(compressedBlocks, offsetAndBits, buffer, idx)
      ensures Present(blocks, buffer, idx) ==> r == Some(At(blocks, buffer, idx))
    {
      if Present(blocks, buffer, idx) {
        PresentRead(compressedBlocks, offsetAndBits, blocks, buffer, idx);
      }
      var metadataPos, posInBlock := idx / BLOCK_SIZE, idx % BLOCK_SIZE;
      if metadataPos < |offsetAndBits| {
        r := Unpacked(compressedBlocks, offsetAndBits[metadataPos], posInBlock);
      } else if posInBlock < |buffer| {
        r := Some(buffer[posInBlock]);
      } else {
        r := None;
      }
    }

    /** Lists the added values exactly when every block is full. */
    method Iter() returns (r: Option<seq<nat>>)
      requires Valid()
      ensures r == Some(Contents()) <==> AllFull(blocks)
    {
      ShortBlocks(compressedBlocks, offsetAndBits, blocks);
      FlattenShorter(blocks);
      if AllFull(blocks) {
        FullReads(compressedBlocks, offsetAndBits, blocks, buffer);
      }
      var items := ReadFirst(compressedBlocks, offsetAndBits, buffer, |offsetAndBits| * BLOCK_SIZE, Flatten(blocks));
      if items.None? {
        return None;
      }
      assert !AllFull(blocks) ==> |items.value + buffer| > |Contents()|;
      r := Some(items.value + buffer);
    }
  }

  /** The indexes below `|vals|` read these values. */
  ghost predicate Reads(data: seq<byte>, metas: seq<Metadata>, buffer: seq<nat>, vals: seq<nat>) {
    forall idx: nat | idx < |vals| :: Read(data, metas, buffer, idx) == Some(vals[idx])
  }

  method ReadOne(data: seq<byte>, metas: seq<Metadata>, buffer: seq<nat>, idx: nat, ghost vals: seq<nat>)
      returns (r: Option<nat>)
    ensures Reads(data, metas, buffer, vals) && idx < |vals| ==> r == Some(vals[idx])
  {
    r := Read(data, metas, buffer, idx);
  }

  /** Reads the first `n` indexes one after the other. */
  method ReadFirst(data: seq<byte>, metas: seq<Metadata>, buffer: seq<nat>, n: nat, ghost vals: seq<nat>)
      returns (r: Option<seq<nat>>)
    ensures r.Some? ==> |r.value| == n
    ensures Reads(data, metas, buffer, vals) && n == |vals| ==> r == Some(vals)
  {
    var items: seq<nat> := [];
    for idx := 0 to n
      invariant |items| == idx
      invariant Reads(data, metas, buffer, vals) && n == |vals| ==> items == vals[..idx]
    {
      var v := ReadOne(data, metas, buffer, idx, vals);
      if v.None? {
        return None;
      }
      items := items + [v.value];
    }
    assert n == |vals| ==> vals[..n] == vals;
    r := Some(items);
  }

  lemma FullReads(data: seq<byte>, metas: seq<Metadata>, blocks: seq<seq<nat>>, buffer: seq<nat>)
    requires AllStored(data, metas, blocks) && InWords(blocks) && AllFull(blocks)
    ensures Reads(data, metas, buffer, Flatten(blocks))
  {
    forall idx: nat | idx < |Flatten(blocks)|
      ensures Read(data, metas, buffer, idx) == Some(Flatten(blocks)[idx])
    {
      FlattenLength(blocks);
      FullRead(blocks, buffer, idx);
      PresentRead(data, metas, blocks, buffer, idx);
    }
  }

  lemma ShortBlocks(data: seq<byte>, metas: seq<Metadata>, blocks: seq<seq<nat>>)
    requires AllStored(data, metas, blocks)
    ensures forall k | 0 <= k < |blocks| :: 0 < |blocks[k]| <= BLOCK_SIZE
  {
    forall k | 0 <= k < |blocks|
      ensures 0 < |blocks[k]| <= BLOCK_SIZE
    {
      StoredAt(data, metas, blocks, k);
    }
  }

  lemma {:induction false} FlattenShorter(blocks: seq<seq<nat>>)
    requires forall k | 0 <= k < |blocks| :: |blocks[k]| <= BLOCK_SIZE
    ensures |Flatten(blocks)| <= |blocks| * BLOCK_SIZE
    ensures |Flatten(blocks)| == |blocks| * BLOCK_SIZE <==> AllFull(blocks)
  {
    if blocks != [] {
      var init, last := blocks[..|blocks| - 1], blocks[|blocks| - 1];
      FlattenShorter(init);
      assert init + [last] == blocks;
      AllFullSnoc(init, last);
    }
  }

  lemma BlockStored(packed: seq<byte>, data: seq<byte>, meta: Metadata, block: seq<nat>,
                    offset: nat, b: nat, base: nat)
    requires AllowedWidth(b) && offset <= |packed| && data == packed + Padding()
    requires meta.Offset() == offset && meta.NumBits() == b && meta.baseValue == base
    requires AllAtLeast(block, base) && Fits(Minus(block, base), b)
    requires |packed| == offset + BlockBytes(|block|, b)
    requires LeValue(packed[offset..]) == Packed(Minus(block, base), b)
    ensures Stores(data, meta, block)
    ensures BlockBytes(|block|, b) <= 8 * |block|
  {
    assert data[offset..|packed|] == packed[offset..];
    MulMono(b, 64, |block|);
    assert |block| * b == b * |block|;
  }

  lemma {:induction false} FlattenLength(blocks: seq<seq<nat>>)
    requires AllFull(blocks)
    ensures |Flatten(blocks)| == |blocks| * BLOCK_SIZE
  {
    if blocks != [] {
      FlattenLength(blocks[..|blocks| - 1]);
    }
  }

  lemma AllFullSnoc(blocks: seq<seq<nat>>, block: seq<nat>)
    ensures AllFull(blocks + [block]) <==> AllFull(blocks) && |block| == BLOCK_SIZE
  {
    var all := blocks + [block];
    assert all[|blocks|] == block;
    assert forall k | 0 <= k < |blocks| :: all[k] == blocks[k];
  }

  /** Index arithmetic and concatenation agree as long as only the last block may be short. */
  lemma {:induction false} FlattenAt(blocks: seq<seq<nat>>, idx: nat)
    requires idx < |Flatten(blocks)| && forall k | 0 <= k < |blocks| :: |blocks[k]| <= BLOCK_SIZE
    requires AllFull(blocks[..|blocks| - 1])
    ensures idx / BLOCK_SIZE < |blocks| && idx % BLOCK_SIZE < |blocks[idx / BLOCK_SIZE]|
    ensures Flatten(blocks)[idx] == blocks[idx / BLOCK_SIZE][idx % BLOCK_SIZE]
  {
    var k := |blocks| - 1;
    FlattenLength(blocks[..k]);
    if idx < k * BLOCK_SIZE {
      assert blocks[..k][..k - 1] == blocks[..k - 1];
      FlattenAt(blocks[..k], idx);
    } else {
      assert idx / BLOCK_SIZE == k;
    }
  }

  lemma FullRead(blocks: seq<seq<nat>>, buffer: seq<nat>, idx: nat)
    requires AllFull(blocks) && idx < |blocks| * BLOCK_SIZE
    ensures idx < |Flatten(blocks)| && Present(blocks, buffer, idx)
    ensures At(blocks, buffer, idx) == Flatten(blocks)[idx]
  {
    FlattenLength(blocks);
    FlattenAt(blocks, idx);
  }
}
