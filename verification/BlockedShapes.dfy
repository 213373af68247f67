/**
 * When indexed reads of a `BlockedBitpacker` return what was added. An index is split into a block
 * and a place as if every block were full, so the answer depends on the lengths of the blocks.
 */
module BlockedShapes {
  import opened Results
  import opened Bits
  import opened BitPacking
  import opened BlockedPacking

  /** Lengths of the compressed blocks, and of the buffer behind them. */
  predicate IsShape(lens: seq<nat>, tail: nat) {
    tail < BLOCK_SIZE && forall k | 0 <= k < |lens| :: 0 < lens[k] <= BLOCK_SIZE
  }

  /** Only the last block is short, and then nothing is buffered behind it. */
  predicate Aligned(lens: seq<nat>, tail: nat) {
    forall k | 0 <= k < |lens| :: lens[k] == BLOCK_SIZE || (k == |lens| - 1 && tail == 0)
  }

  ghost predicate HasShape(blocks: seq<seq<nat>>, buffer: seq<nat>, lens: seq<nat>, tail: nat) {
    && |blocks| == |lens| && (forall k | 0 <= k < |lens| :: |blocks[k]| == lens[k])
    && |buffer| == tail && InWords(blocks) && AreWords(buffer)
  }

  /** Every index of the added values reads the value added there. */
  ghost predicate ReadsAgree(data: seq<byte>, metas: seq<Metadata>, blocks: seq<seq<nat>>, buffer: seq<nat>) {
    var all := Flatten(blocks) + buffer;
    forall idx: nat | idx < |all| :: Read(data, metas, buffer, idx) == Some(all[idx])
  }

  // ---- aligned blocks ----

  lemma AlignedAt(blocks: seq<seq<nat>>, buffer: seq<nat>, lens: seq<nat>, idx: nat)
    requires IsShape(lens, |buffer|) && HasShape(blocks, buffer, lens, |buffer|) && Aligned(lens, |buffer|)
    requires idx < |Flatten(blocks) + buffer|
    ensures Present(blocks, buffer, idx) && At(blocks, buffer, idx) == (Flatten(blocks) + buffer)[idx]
  {
    if idx < |Flatten(blocks)| {
      FlattenAt(blocks, idx);
    } else {
      FlattenLength(blocks);
      assert idx / BLOCK_SIZE == |blocks| && idx % BLOCK_SIZE == idx - |Flatten(blocks)|;
    }
  }

  lemma AlignedReads(data: seq<byte>, metas: seq<Metadata>, blocks: seq<seq<nat>>, buffer: seq<nat>, lens: seq<nat>)
    requires Leaves(data, metas, blocks) && Aligned(lens, |buffer|)
    requires IsShape(lens, |buffer|) && HasShape(blocks, buffer, lens, |buffer|)
    ensures ReadsAgree(data, metas, blocks, buffer)
  {
    forall idx: nat | idx < |Flatten(blocks) + buffer|
      ensures Read(data, metas, buffer, idx) == Some((Flatten(blocks) + buffer)[idx])
    {
      AlignedAt(blocks, buffer, lens, idx);
      PresentRead(data, metas, blocks, buffer, idx);
    }
  }

  // ---- behind a short block ----

  function Constant(n: nat, c: nat): (r: seq<nat>)
    ensures |r| == n && forall i | 0 <= i < n :: r[i] == c
  {
    seq(n, _ => c)
  }

  lemma ConstantWidth(n: nat, c: nat)
    requires n > 0
    ensures MinOf(Constant(n, c)) == c && WidthOf(Constant(n, c)) == 0
  {
    assert BitLength(0) == 0;
  }

  /** A constant block is read as that constant at every place, also behind its end. */
  lemma ConstantRead(data: seq<byte>, metas: seq<Metadata>, blocks: seq<seq<nat>>, buffer: seq<nat>, k: nat, c: nat,
                     pos: nat)
    requires Leaves(data, metas, blocks) && k < |blocks| && pos < BLOCK_SIZE
    requires c < U64_LIMIT && blocks[k] == Constant(|blocks[k]|, c)
    ensures Read(data, metas, buffer, k * BLOCK_SIZE + pos) == Some(c)
  {
    StoredAt(data, metas, blocks, k);
    ChosenAt(metas, blocks, k);
    ConstantWidth(|blocks[k]|, c);
    ZeroWidthRead(data, metas[k], pos);
    assert (k * BLOCK_SIZE + pos) / BLOCK_SIZE == k && (k * BLOCK_SIZE + pos) % BLOCK_SIZE == pos;
  }

  lemma ZeroWidthRead(data: seq<byte>, meta: Metadata, pos: nat)
    requires meta.NumBits() == 0 && meta.Offset() <= |data| && meta.baseValue < U64_LIMIT
    ensures Unpacked(data, meta, pos) == Some(meta.baseValue)
  {
    var v := NewBitUnpacker(0).Get(pos, data[meta.Offset()..]);
    assert v == Field(data[meta.Offset()..], 0, pos) == 0;
  }

  lemma {:induction false} FlattenPrefix(blocks: seq<seq<nat>>, m: nat)
    requires m < |blocks| && blocks[m] != []
    ensures |Flatten(blocks[..m])| < |Flatten(blocks)| && Flatten(blocks)[|Flatten(blocks[..m])|] == blocks[m][0]
    decreases |blocks|
  {
    var n := |blocks| - 1;
    if m < n {
      FlattenPrefix(blocks[..n], m);
      assert blocks[..n][..m] == blocks[..m];
    }
  }

  /** Zeros up to and including block `k`, ones in the block behind it. */
  function Telltale(lens: seq<nat>, k: nat): (blocks: seq<seq<nat>>)
    ensures |blocks| == |lens|
    ensures forall j | 0 <= j < |lens| :: blocks[j] == Constant(lens[j], if j == k + 1 then 1 else 0)
  {
    seq(|lens|, j requires 0 <= j < |lens| => Constant(lens[j], if j == k + 1 then 1 else 0))
  }

  function TelltaleBuffer(lens: seq<nat>, tail: nat, k: nat): seq<nat> {
    Constant(tail, if |lens| == k + 1 then 1 else 0)
  }

  lemma TelltaleNext(lens: seq<nat>, tail: nat, k: nat)
    requires IsShape(lens, tail) && k < |lens| && (forall j | 0 <= j < k :: lens[j] == BLOCK_SIZE)
    requires k + 1 < |lens| || tail > 0
    ensures var all := Flatten(Telltale(lens, k)) + TelltaleBuffer(lens, tail, k);
            k * BLOCK_SIZE + lens[k] < |all| && all[k * BLOCK_SIZE + lens[k]] == 1
  {
    var blocks, buffer := Telltale(lens, k), TelltaleBuffer(lens, tail, k);
    FlattenLength(blocks[..k]);
    assert blocks[..k + 1][..k] == blocks[..k];
    assert |Flatten(blocks[..k + 1])| == k * BLOCK_SIZE + lens[k];
    if k + 1 < |lens| {
      FlattenPrefix(blocks, k + 1);
    } else {
      assert blocks[..k + 1] == blocks;
    }
  }

  /** However these blocks are stored, the value behind the short block is misread. */
  lemma TelltaleMisread(data: seq<byte>, metas: seq<Metadata>, lens: seq<nat>, tail: nat, k: nat)
    requires IsShape(lens, tail) && k < |lens| && (forall j | 0 <= j < k :: lens[j] == BLOCK_SIZE)
    requires lens[k] < BLOCK_SIZE && (k + 1 < |lens| || tail > 0) && Leaves(data, metas, Telltale(lens, k))
    ensures !ReadsAgree(data, metas, Telltale(lens, k), TelltaleBuffer(lens, tail, k))
  {
    var blocks, buffer := Telltale(lens, k), TelltaleBuffer(lens, tail, k);
    ConstantRead(data, metas, blocks, buffer, k, 0, lens[k]);
    TelltaleNext(lens, tail, k);
    assert Read(data, metas, buffer, k * BLOCK_SIZE + lens[k]) == Some(0);
  }

  // ---- a packer holding them ----

  ghost predicate AllConstant(blocks: seq<seq<nat>>) {
    blocks == [] ||
    var last := blocks[|blocks| - 1];
    AllConstant(blocks[..|blocks| - 1]) && 0 < |last| <= BLOCK_SIZE && last == Constant(|last|, last[0])
  }

  /** Constant blocks take no bytes at all. */
  function ConstantMetas(blocks: seq<seq<nat>>): (metas: seq<Metadata>)
    ensures |metas| == |blocks|
  {
    if blocks == [] then []
    else
      var last := blocks[|blocks| - 1];
      ConstantMetas(blocks[..|blocks| - 1]) + [NewMetadata(0, 0, if last == [] then 0 else last[0])]
  }

  lemma {:induction false} PackedZeros(vals: seq<nat>)
    requires forall i | 0 <= i < |vals| :: vals[i] == 0
    ensures Packed(vals, 0) == 0
  {
    if vals != [] {
      PackedZeros(vals[1..]);
    }
  }

  lemma ConstantStored(n: nat, c: nat)
    requires n > 0
    ensures Stores(Padding(), NewMetadata(0, 0, c), Constant(n, c))
    ensures NewMetadata(0, 0, c).NumBits() == 0
  {
    Pow2Values();
    MetadataRoundTrip(0, 0, c);
    PackedZeros(Minus(Constant(n, c), c));
    assert Padding()[0..0] == [];
  }

  lemma {:induction false} ConstantLeaves(blocks: seq<seq<nat>>)
    requires AllConstant(blocks)
    ensures Leaves(Padding(), ConstantMetas(blocks), blocks)
  {
    if blocks != [] {
      var init, last := blocks[..|blocks| - 1], blocks[|blocks| - 1];
      ConstantLeaves(init);
      ConstantStored(|last|, last[0]);
      ConstantWidth(|last|, last[0]);
      LeavesMore(Padding(), Padding(), ConstantMetas(init), init, NewMetadata(0, 0, last[0]), last);
      assert init + [last] == blocks;
    }
  }

  lemma {:induction false} TelltaleConstant(lens: seq<nat>, tail: nat, k: nat, n: nat)
    requires IsShape(lens, tail) && n <= |lens|
    ensures AllConstant(Telltale(lens, k)[..n]) && InWords(Telltale(lens, k)[..n])
    decreases n
  {
    if n > 0 {
      TelltaleConstant(lens, tail, k, n - 1);
      assert Telltale(lens, k)[..n][..n - 1] == Telltale(lens, k)[..n - 1];
    }
  }

  lemma FirstShort(lens: seq<nat>, tail: nat) returns (k: nat)
    requires !Aligned(lens, tail)
    ensures k < |lens| && lens[k] != BLOCK_SIZE && (k + 1 < |lens| || tail > 0)
    ensures forall j | 0 <= j < k :: lens[j] == BLOCK_SIZE
  {
    k := 0;
    while lens[k] == BLOCK_SIZE
      invariant k < |lens| && !Aligned(lens, tail) && forall j | 0 <= j < k :: lens[j] == BLOCK_SIZE
      decreases |lens| - k
    {
      k := k + 1;
    }
  }

  /**
   * Exactly the aligned shapes are read back whatever the values are: behind a short block some
   * values are misread, although others may come out right.
   */
  lemma ReadsAgreeIffAligned(lens: seq<nat>, tail: nat)
    requires IsShape(lens, tail)
    ensures Aligned(lens, tail) <==>
            forall data, metas, blocks, buffer | Leaves(data, metas, blocks) && HasShape(blocks, buffer, lens, tail) ::
              ReadsAgree(data, metas, blocks, buffer)
  {
    if Aligned(lens, tail) {
      forall data, metas, blocks, buffer | Leaves(data, metas, blocks) && HasShape(blocks, buffer, lens, tail)
        ensures ReadsAgree(data, metas, blocks, buffer)
      {
        AlignedReads(data, metas, blocks, buffer, lens);
      }
    } else {
      var k := FirstShort(lens, tail);
      var blocks, buffer := Telltale(lens, k), TelltaleBuffer(lens, tail, k);
      TelltaleConstant(lens, tail, k, |lens|);
      assert blocks[..|lens|] == blocks;
      ConstantLeaves(blocks);
      TelltaleMisread(Padding(), ConstantMetas(blocks), lens, tail, k);
      assert HasShape(blocks, buffer, lens, tail);
    }
  }

  // ---- runs ----

  /** Every shape is reached: adds, with a flush behind each block. */
  method Build(blocks: seq<seq<nat>>, buffer: seq<nat>, lens: seq<nat>) returns (packer: BlockedBitpacker)
    requires IsShape(lens, |buffer|) && HasShape(blocks, buffer, lens, |buffer|)
    requires |Flatten(blocks) + buffer| <= CAPACITY
    ensures fresh(packer) && packer.Valid() && packer.blocks == blocks && packer.buffer == buffer
  {
    packer := new BlockedBitpacker();
    for k := 0 to |blocks|
      invariant fresh(packer) && packer.Valid() && packer.blocks == blocks[..k] && packer.buffer == []
    {
      NextBlock(blocks, buffer, lens, k);
      AddBlock(packer, blocks[k]);
    }
    assert blocks[..|blocks|] == blocks;
    AddAll(packer, buffer);
  }

  method AddNext(packer: BlockedBitpacker, vals: seq<nat>, i: nat)
    requires packer.Valid() && i < |vals| < BLOCK_SIZE && packer.buffer == vals[..i] && vals[i] < U64_LIMIT
    requires |Flatten(packer.blocks)| + |vals| <= CAPACITY
    modifies packer
    ensures packer.Valid() && packer.blocks == old(packer.blocks) && packer.buffer == vals[..i + 1]
  {
    packer.Add(vals[i]);
  }

  method AddAll(packer: BlockedBitpacker, vals: seq<nat>)
    requires packer.Valid() && packer.buffer == [] && |vals| < BLOCK_SIZE && AreWords(vals)
    requires |Flatten(packer.blocks)| + |vals| <= CAPACITY
    modifies packer
    ensures packer.Valid() && packer.blocks == old(packer.blocks) && packer.buffer == vals
  {
    for i := 0 to |vals|
      invariant packer.Valid() && packer.blocks == old(packer.blocks) && packer.buffer == vals[..i]
    {
      AddNext(packer, vals, i);
    }
  }

  lemma {:induction false} PrefixShorter(blocks: seq<seq<nat>>, k: nat)
    requires k < |blocks|
    ensures |Flatten(blocks[..k])| + |blocks[k]| <= |Flatten(blocks)|
    decreases |blocks|
  {
    var n := |blocks| - 1;
    if k < n {
      PrefixShorter(blocks[..n], k);
      assert blocks[..n][..k] == blocks[..k];
    }
  }

  lemma NextBlock(blocks: seq<seq<nat>>, buffer: seq<nat>, lens: seq<nat>, k: nat)
    requires IsShape(lens, |buffer|) && HasShape(blocks, buffer, lens, |buffer|) && k < |blocks|
    ensures 0 < |blocks[k]| <= BLOCK_SIZE && AreWords(blocks[k]) && blocks[..k + 1] == blocks[..k] + [blocks[k]]
    ensures |Flatten(blocks[..k])| + |blocks[k]| <= |Flatten(blocks)|
  {
    PrefixShorter(blocks, k);
    forall i | 0 <= i < |blocks[k]|
      ensures blocks[k][i] < U64_LIMIT
    {
      InWordsAt(blocks, k, i);
    }
  }

  method AddBlock(packer: BlockedBitpacker, block: seq<nat>)
    requires packer.Valid() && packer.buffer == [] && 0 < |block| <= BLOCK_SIZE && AreWords(block)
    requires |Flatten(packer.blocks)| + |block| <= CAPACITY
    modifies packer
    ensures packer.Valid() && packer.blocks == old(packer.blocks) + [block] && packer.buffer == []
  {
    var last := |block| - 1;
    AddAll(packer, block[..last]);
    assert block[..last] + [block[last]] == block;
    AddLast(packer, block[last]);
  }

  method AddLast(packer: BlockedBitpacker, val: nat)
    requires packer.Valid() && val < U64_LIMIT && |packer.Contents()| < CAPACITY
    modifies packer
    ensures packer.Valid() && packer.blocks == old(packer.blocks) + [old(packer.buffer) + [val]] && packer.buffer == []
  {
    packer.Add(val);
    packer.Flush();
  }

  method FlushBetween(first: nat, second: nat) returns (packer: BlockedBitpacker)
    requires first < U64_LIMIT && second < U64_LIMIT
    ensures fresh(packer) && packer.Valid() && packer.blocks == [[first]] && packer.buffer == [second]
  {
    packer := new BlockedBitpacker();
    AddBlock(packer, [first]);
    assert |Flatten(packer.blocks)| <= 1;
    packer.Add(second);
  }

  /** A value behind a flushed one is read as that one, so it comes out right only if it is the same. */
  method FlushThenAdd(first: nat, second: nat) returns (r: Option<nat>)
    requires first < U64_LIMIT && second < U64_LIMIT
    ensures r == Some(first)
  {
    var packer := FlushBetween(first, second);
    assert [first] == Constant(1, first);
    ConstantRead(packer.compressedBlocks, packer.offsetAndBits, packer.blocks, packer.buffer, 0, first, 1);
    r := packer.Get(1);
  }
}
