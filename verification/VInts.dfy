/** Stop-bit variable-length integers: seven bits per byte, low bits first, the last byte marked
    by its high bit. */
module VInts {
  import opened Results
  import opened Bits

  const STOP_BIT := 128
  const START_2 := 0x80
  const START_3 := 0x4000
  const START_4 := 0x20_0000
  const START_5 := 0x1000_0000

  /** The encoding, by repeated division by 128. */
  function Encode(v: nat): (r: seq<byte>)
    ensures r != []
  {
    if v < 128 then [v + STOP_BIT] else [v % 128] + Encode(v / 128)
  }

  /** The first byte with the stop bit, or the length. */
  function StopIndex(bytes: seq<byte>): (n: nat)
    ensures n <= |bytes|
  {
    if bytes == [] || bytes[0] >= STOP_BIT then 0 else 1 + StopIndex(bytes[1..])
  }

  /** The number spelled by the low seven bits of every byte. */
  function Payload(bytes: seq<byte>): nat {
    if bytes == [] then 0 else bytes[0] % 128 + 128 * Payload(bytes[1..])
  }

  /** What reading yields: a value and the bytes behind it, the end of the input, or a shift past
      the word size (a panic in checked builds). */
  datatype Read<T> = Done(value: T, rest: seq<byte>) | EndOfBuffer | ShiftOverflow

  /** Reading a 64-bit number. */
  function ReadVInt(bytes: seq<byte>): Read<nat> {
    var n := StopIndex(bytes);
    if n >= 10 && |bytes| > 10 then ShiftOverflow
    else if n == |bytes| then EndOfBuffer
    else Done(Low(Payload(bytes[..n + 1]), 64), bytes[n + 1..])
  }

  // ---- the encoding ----

  lemma {:induction false} EncodeStops(v: nat, rest: seq<byte>)
    ensures StopIndex(Encode(v) + rest) == |Encode(v)| - 1
  {
    if v >= 128 {
      EncodeStops(v / 128, rest);
      assert (Encode(v) + rest)[1..] == Encode(v / 128) + rest;
    }
  }

  lemma {:induction false} EncodePayload(v: nat)
    ensures Payload(Encode(v)) == v
  {
    if v < 128 {
      assert Encode(v)[1..] == [];
    } else {
      EncodePayload(v / 128);
      assert Encode(v)[1..] == Encode(v / 128);
    }
  }

  /** Byte `i` is the 7-bit digit `i` of the number, and only the last byte has the stop bit. */
  lemma {:induction false} EncodeDigit(v: nat, i: nat)
    requires i < |Encode(v)|
    ensures Encode(v)[i] == v / Pow2(7 * i) % 128 + if i == |Encode(v)| - 1 then 128 else 0
  {
    if v >= 128 && i > 0 {
      EncodeDigit(v / 128, i - 1);
      assert Encode(v)[i] == Encode(v / 128)[i - 1];
      Low7(v);
      ShrAdd(v, 7, 7 * (i - 1));
      ShiftMeaning(v, 7 * i);
      ShiftMeaning(v / 128, 7 * (i - 1));
    }
  }

  lemma Pow128(n: nat)
    ensures Pow2(7 * (n + 1)) == 128 * Pow2(7 * n)
  {
    ShlAdd(1, 7 * n, 7);
    Shl8(Pow2(7 * n));
  }

  /** The length is the least number of 7-bit digits. */
  lemma {:induction false} EncodeLength(v: nat)
    ensures v < Pow2(7 * |Encode(v)|)
    ensures |Encode(v)| > 1 ==> Pow2(7 * (|Encode(v)| - 1)) <= v
  {
    if v < 128 {
      Pow2Values();
    } else {
      var n := |Encode(v / 128)|;
      EncodeLength(v / 128);
      Pow128(n);
      if n > 1 {
        Pow128(n - 1);
      } else {
        Pow2Values();
      }
    }
  }

  lemma LengthBound(v: nat, n: nat)
    requires n > 0 && v < Pow2(7 * n)
    ensures |Encode(v)| <= n
  {
    EncodeLength(v);
    if |Encode(v)| > n {
      Pow2Mono(7 * n, 7 * (|Encode(v)| - 1));
    }
  }

  lemma LengthOf64Bits(v: nat)
    requires v < Pow2(64)
    ensures |Encode(v)| <= 10
  {
    Pow2Mono(64, 70);
    LengthBound(v, 10);
  }

  lemma {:induction false} PayloadBound(bytes: seq<byte>)
    ensures Payload(bytes) < Pow2(7 * |bytes|)
  {
    if bytes != [] {
      PayloadBound(bytes[1..]);
      Pow128(|bytes| - 1);
    }
  }

  lemma {:induction false} PayloadSnoc(bytes: seq<byte>, b: byte)
    ensures Payload(bytes + [b]) == Payload(bytes) + Shl(b % 128, 7 * |bytes|)
  {
    if bytes == [] {
      assert bytes + [b] == [b] && [b][1..] == [];
    } else {
      assert (bytes + [b])[1..] == bytes[1..] + [b];
      PayloadSnoc(bytes[1..], b);
      ShlAdd(b % 128, 7 * (|bytes| - 1), 7);
      Shl8(Shl(b % 128, 7 * (|bytes| - 1)));
    }
  }

  /** Reading inverts the encoding and leaves the following bytes alone. */
  lemma RoundTrip(v: nat, rest: seq<byte>)
    requires v < Pow2(64)
    ensures ReadVInt(Encode(v) + rest) == Done(v, rest)
  {
    var bytes, n := Encode(v) + rest, |Encode(v)|;
    EncodeStops(v, rest);
    EncodePayload(v);
    LengthOf64Bits(v);
    assert bytes[..n] == Encode(v) && bytes[n..] == rest;
    Small(v, 64);
  }

  /** No accepted byte string for the same value is shorter. */
  lemma EncodeIsShortest(bytes: seq<byte>)
    requires ReadVInt(bytes).Done?
    ensures var Done(v, rest) := ReadVInt(bytes); |Encode(v)| + |rest| <= |bytes| && v < Pow2(64)
  {
    var v, n := ReadVInt(bytes).value, StopIndex(bytes) + 1;
    var payload := Payload(bytes[..n]);
    PayloadBound(bytes[..n]);
    Split(payload, 64);
    if n < 10 {
      Pow2Mono(7 * n, 64);
      Small(payload, 64);
      LengthBound(v, n);
    } else {
      LengthOf64Bits(v);
    }
  }

  // ---- the generic encoder and decoder ----

  lemma StopByte(b: nat)
    requires b < 128
    ensures Or(b, STOP_BIT) == b + STOP_BIT
  {
    Pow2Values();
    Shl8(1);
    OrHigh(b, 1, 7);
  }

  method PutByte(buffer: array<byte>, n: nat, b: byte)
    requires n < buffer.Length
    modifies buffer
    ensures buffer[..n + 1] == old(buffer[..n]) + [b]
    ensures forall k | n < k < buffer.Length :: buffer[k] == old(buffer[k])
  {
    buffer[n] := b;
  }

  lemma LastDigit(v: nat)
    ensures v < 128 ==> Encode(v) == [Or(v % 128, STOP_BIT)]
    ensures v >= 128 ==> Encode(v) == [v % 128] + Encode(v / 128)
  {
    StopByte(v % 128);
  }

  /** Fills the start of a ten-byte buffer and returns the number of bytes used. */
  method SerializeInto(v: nat, buffer: array<byte>) returns (n: nat)
    requires v < Pow2(64) && buffer.Length == 10
    modifies buffer
    ensures n <= 10 && buffer[..n] == Encode(v)
    ensures forall k | n <= k < 10 :: buffer[k] == old(buffer[k])
  {
    LengthOf64Bits(v);
    var remaining: nat := v;
    n := 0;
    while n < 10
      invariant n <= 10 && buffer[..n] + Encode(remaining) == Encode(v)
      invariant forall k | n <= k < 10 :: buffer[k] == old(buffer[k])
    {
      LastDigit(remaining);
      var nextByte := remaining % 128;
      remaining := remaining / 128;
      if remaining == 0 {
        PutByte(buffer, n, Or(nextByte, STOP_BIT));
        n := n + 1;
        return;
      }
      PutByte(buffer, n, nextByte);
      n := n + 1;
    }
    assert false;
  }

  method SerializeVIntU128(v: nat, output: seq<byte>) returns (output': seq<byte>)
    ensures output' == output + Encode(v)
  {
    var val: nat := v;
    output' := output;
    while true
      invariant output' + Encode(val) == output + Encode(v)
      decreases val
    {
      var nextByte := val % 128;
      ghost var before := val;
      val := val / 128;
      if val == 0 {
        StopByte(nextByte);
        output' := output' + [Or(nextByte, STOP_BIT)];
        return;
      }
      assert Encode(before) == [nextByte] + Encode(val);
      output' := output' + [nextByte];
    }
  }

  lemma {:induction false} StopAt(bytes: seq<byte>, n: nat)
    requires n <= |bytes| && forall i | 0 <= i < n :: bytes[i] < STOP_BIT
    ensures StopIndex(bytes) >= n
    ensures n < |bytes| && bytes[n] >= STOP_BIT ==> StopIndex(bytes) == n
  {
    if n > 0 {
      StopAt(bytes[1..], n - 1);
    }
  }

  lemma DecodeStep(bytes: seq<byte>, i: nat, k: nat)
    requires i < |bytes| && 7 * i < k
    ensures Or(Low(Payload(bytes[..i]), k), Low(Shl(bytes[i] % 128, 7 * i), k)) == Low(Payload(bytes[..i + 1]), k)
  {
    assert bytes[..i + 1] == bytes[..i] + [bytes[i]];
    PayloadSnoc(bytes[..i], bytes[i]);
    PayloadBound(bytes[..i]);
    Pow2Mono(7 * i, k);
    Small(Payload(bytes[..i]), k);
    OrIntoWord(Payload(bytes[..i]), bytes[i] % 128, 7 * i, k);
  }

  /** None of the first `i` bytes stops the number. */
  predicate Unfinished(bytes: seq<byte>, i: nat) {
    i <= |bytes| && forall k | 0 <= k < i :: bytes[k] < STOP_BIT
  }

  /** What the reader answers when it reaches byte `i`. */
  lemma ReadAt(bytes: seq<byte>, i: nat)
    requires i <= 10 && Unfinished(bytes, i)
    ensures i == |bytes| ==> ReadVInt(bytes) == EndOfBuffer
    ensures i < |bytes| && i == 10 ==> ReadVInt(bytes) == ShiftOverflow
    ensures i < |bytes| && i < 10 && bytes[i] >= STOP_BIT ==>
              ReadVInt(bytes) == Done(Low(Payload(bytes[..i + 1]), 64), bytes[i + 1..])
    ensures i < |bytes| && bytes[i] < STOP_BIT ==> Unfinished(bytes, i + 1)
  {
    StopAt(bytes, i);
  }

  /** Adds the digit of byte `i` to a word of `k` bits. */
  method AddDigit(result: nat, bytes: seq<byte>, i: nat, shift: nat, k: nat) returns (result': nat)
    requires i < |bytes| && shift == 7 * i < k && result == Low(Payload(bytes[..i]), k)
    ensures result' == Low(Payload(bytes[..i + 1]), k)
  {
    DecodeStep(bytes, i, k);
    result' := Or(result, Low(Shl(bytes[i] % 128, shift), k));
  }

  /** Byte by byte, with the shift growing by seven. */
  method Deserialize(bytes: seq<byte>) returns (r: Read<nat>)
    ensures r == ReadVInt(bytes)
  {
    var result, shift, i := 0, 0, 0;
    while true
      invariant i <= 10 && shift == 7 * i && Unfinished(bytes, i)
      invariant result == Low(Payload(bytes[..i]), 64)
      decreases |bytes| - i
    {
      ReadAt(bytes, i);
      if i == |bytes| {
        return EndOfBuffer;
      }
      if shift >= 64 {
        return ShiftOverflow;
      }
      result := AddDigit(result, bytes, i, shift, 64);
      if bytes[i] >= STOP_BIT {
        return Done(result, bytes[i + 1..]);
      }
      shift, i := shift + 7, i + 1;
    }
  }

  // ---- the unrolled 32-bit encoder ----

  /** The first `n` seven-bit digits of `v`, one per byte. */
  function Spread(v: nat, n: nat): nat {
    if n == 0 then 0 else Spread(v, n - 1) + Shl(Low(Shr(v, 7 * (n - 1)), 7), 8 * (n - 1))
  }

  lemma {:induction false} SpreadBound(v: nat, n: nat)
    ensures Spread(v, n) < Pow2(8 * n)
    ensures n > 0 ==> Spread(v, n) < Pow2(8 * (n - 1) + 7)
  {
    if n > 0 {
      var d := Low(Shr(v, 7 * (n - 1)), 7);
      SpreadBound(v, n - 1);
      Split(Shr(v, 7 * (n - 1)), 7);
      AddHighBound(Spread(v, n - 1), d, 8 * (n - 1), 7);
      Pow2Mono(8 * (n - 1) + 7, 8 * n);
    }
  }

  /** Digit `i` of `v` is digit `i - 1` of `v / 128`, one byte further up. */
  lemma NextDigit(v: nat, i: nat)
    requires i > 0
    ensures Shl(Low(Shr(v, 7 * i), 7), 8 * i) == 256 * Shl(Low(Shr(v / 128, 7 * (i - 1)), 7), 8 * (i - 1))
  {
    var d := Low(Shr(v, 7 * i), 7);
    Low7(v);
    ShrAdd(v, 7, 7 * (i - 1));
    ShlBytes(d, i - 1);
  }

  lemma {:induction false} SpreadFront(v: nat, n: nat)
    requires n > 0
    ensures Spread(v, n) == v % 128 + 256 * Spread(v / 128, n - 1)
  {
    if n == 1 {
      Low7(v);
      assert Spread(v, 0) == 0;
    } else {
      SpreadFront(v, n - 1);
      NextDigit(v, n - 1);
    }
  }

  lemma Low7(v: nat)
    ensures Low(v, 7) == v % 128 && Shr(v, 7) == v / 128
  {
    var q, r := Shr(v, 7), Low(v, 7);
    Split(v, 7);
    Shl8(q);
    Shl8(1);
    DivModUnique(v, 128, q, r);
  }

  /** The digits with the stop bit on the last one spell the encoding. */
  lemma {:induction false} SpreadIsEncoding(v: nat, n: nat)
    requires n == |Encode(v)|
    ensures LeValue(Encode(v)) == Spread(v, n) + Shl(128, 8 * (n - 1))
  {
    SpreadFront(v, n);
    if n == 1 {
      assert v < 128;
      assert Encode(v)[1..] == [];
    } else {
      assert v >= 128;
      SpreadIsEncoding(v / 128, n - 1);
      assert Encode(v)[1..] == Encode(v / 128);
      ShlBytes(128, n - 2);
    }
  }

  /** Digit `i`, masked out of `v` and moved to byte `i`. */
  function Digit(v: nat, i: nat): nat {
    Shl(And(v, Shl(127, 7 * i)), i)
  }

  lemma DigitIsSpread(v: nat, i: nat)
    ensures Digit(v, i) == Shl(Low(Shr(v, 7 * i), 7), 8 * i)
  {
    Pow2Values();
    AndField(v, 7 * i, 7);
    ShlAdd(Low(Shr(v, 7 * i), 7), 7 * i, i);
  }

  lemma OrDigit(v: nat, i: nat)
    ensures Or(Spread(v, i), Digit(v, i)) == Spread(v, i + 1)
  {
    DigitIsSpread(v, i);
    SpreadBound(v, i);
    OrHigh(Spread(v, i), Low(Shr(v, 7 * i), 7), 8 * i);
  }

  lemma OrStop(v: nat, n: nat)
    requires n > 0
    ensures Or(Spread(v, n), Shl(128, 8 * (n - 1))) == Spread(v, n) + Shl(128, 8 * (n - 1)) < Pow2(8 * n)
  {
    var k := 8 * (n - 1);
    SpreadBound(v, n);
    Shl8(1);
    ShlAdd(1, 7, k);
    OrHigh(Spread(v, n), 1, k + 7);
    AddHighBound(Spread(v, n), 1, k + 7, 1);
  }

  /** The word the unrolled encoder computes, and its length. */
  function UnrolledWord(v: nat): (r: (nat, nat)) {
    var d0, d1, d2, d3, d4 := And(v, 127), Digit(v, 1), Digit(v, 2), Digit(v, 3), Digit(v, 4);
    if v < START_2 then (Or(v, 128), 1)
    else if v < START_3 then (Or(Or(d0, d1), Shl(128, 8)), 2)
    else if v < START_4 then (Or(Or(Or(d0, d1), d2), Shl(128, 16)), 3)
    else if v < START_5 then (Or(Or(Or(Or(d0, d1), d2), d3), Shl(128, 24)), 4)
    else (Or(Or(Or(Or(Or(d0, d1), d2), d3), d4), Shl(128, 32)), 5)
  }

  lemma FirstDigit(v: nat)
    ensures And(v, 127) == Spread(v, 1) && (v < 128 ==> And(v, 127) == v)
  {
    Pow2Values();
    AndMask(v, 7);
    Low7(v);
    assert Spread(v, 0) == 0;
    assert Shr(v, 7 * 0) == v;
  }

  lemma LengthIs(v: nat, n: nat)
    requires n > 0 && v < Pow2(7 * n) && (n > 1 ==> Pow2(7 * (n - 1)) <= v)
    ensures |Encode(v)| == n
  {
    LengthBound(v, n);
    EncodeLength(v);
    if |Encode(v)| < n {
      Pow2Mono(7 * |Encode(v)|, 7 * (n - 1));
    }
  }

  lemma DigitChain(v: nat)
    ensures var d0, d1, d2, d3, d4 := And(v, 127), Digit(v, 1), Digit(v, 2), Digit(v, 3), Digit(v, 4);
            && d0 == Spread(v, 1) && Or(d0, d1) == Spread(v, 2) && Or(Or(d0, d1), d2) == Spread(v, 3)
            && Or(Or(Or(d0, d1), d2), d3) == Spread(v, 4)
            && Or(Or(Or(Or(d0, d1), d2), d3), d4) == Spread(v, 5)
  {
    FirstDigit(v);
    OrDigit(v, 1);
    OrDigit(v, 2);
    OrDigit(v, 3);
    OrDigit(v, 4);
  }

  lemma UnrolledLength(v: nat)
    requires v < Pow2(32)
    ensures UnrolledWord(v).1 == |Encode(v)| && 0 < UnrolledWord(v).1 <= 5
  {
    Pow2Mono(32, 35);
    StartValues();
    LengthIs(v, UnrolledWord(v).1);
  }

  lemma StartValues()
    ensures Pow2(7) == START_2 && Pow2(14) == START_3 && Pow2(21) == START_4 && Pow2(28) == START_5
  {
    Pow2Values();
    Pow128(1);
    Pow128(2);
    Pow128(3);
  }

  lemma UnrolledIsSpread(v: nat)
    ensures var (word, n) := UnrolledWord(v);
            n > 0 && word == Or(Spread(v, n), Shl(128, 8 * (n - 1)))
  {
    DigitChain(v);
    FirstDigit(v);
    assert Shl(128, 0) == 128;
  }

  /** The unrolled encoder emits, byte for byte, what the division loop emits. */
  method SerializeVIntU32(v: nat, buf: array<byte>) returns (n: nat)
    requires v < Pow2(32) && buf.Length == 8
    modifies buf
    ensures n <= 8 && buf[..n] == Encode(v)
  {
    var res := UnrolledWord(v);
    n := res.1;
    UnrolledLength(v);
    UnrolledIsSpread(v);
    EncodedBytes(v, res.0);
    var bytes := LeBytes(res.0, 8);
    for i := 0 to 8
      invariant buf[..i] == bytes[..i]
    {
      buf[i] := bytes[i];
    }
    assert buf[..n] == buf[..8][..n] == bytes[..n];
  }

  lemma EncodedBytes(v: nat, word: nat)
    requires |Encode(v)| <= 5 && word == Or(Spread(v, |Encode(v)|), Shl(128, 8 * (|Encode(v)| - 1)))
    ensures LeBytes(word, 8)[..|Encode(v)|] == Encode(v)
  {
    var n := |Encode(v)|;
    OrStop(v, n);
    SpreadIsEncoding(v, n);
    LeBytesPrefix(word, 8, n);
    LeBytesValue(word, n);
    Small(word, 8 * n);
    LeInjective(LeBytes(word, n), Encode(v));
  }

  // ---- the 32-bit reader ----

  /** The first stop byte within five bytes; `None` is the panic on corrupted data. */
  method VIntLen(data: seq<byte>) returns (r: Option<nat>)
    ensures r == if StopIndex(data) < |data| && StopIndex(data) < 5 then Some(StopIndex(data) + 1) else None
  {
    var i := 0;
    while i < |data| && i < 5
      invariant i <= |data| && i <= 5
      invariant forall k | 0 <= k < i :: data[k] < STOP_BIT
    {
      StopAt(data, i);
      if data[i] >= STOP_BIT {
        return Some(i + 1);
      }
      i := i + 1;
    }
    StopAt(data, i);
    return None;
  }

  lemma MaskedDigit(b: byte)
    ensures And(b, 127) == b % 128
  {
    Pow2Values();
    AndMask(b, 7);
    Low7(b);
  }

  /** The digits of the first `n` bytes. */
  method ReadDigits(data: seq<byte>, n: nat) returns (result: nat)
    requires n <= |data| && n <= 5
    ensures result == Low(Payload(data[..n]), 32)
  {
    result := 0;
    var shift := 0;
    for i := 0 to n
      invariant shift == 7 * i && result == Low(Payload(data[..i]), 32)
    {
      MaskedDigit(data[i]);
      DecodeStep(data, i, 32);
      result := Or(result, Low(Shl(And(data[i], 127), shift), 32));
      shift := shift + 7;
    }
  }

  method ReadU32VInt(data: seq<byte>) returns (r: Option<(nat, seq<byte>)>)
    ensures r.None? <==> StopIndex(data) == |data| || StopIndex(data) >= 5
    ensures r.Some? ==>
              && r.value.0 == Low(Payload(data[..StopIndex(data) + 1]), 32)
              && r.value.1 == data[StopIndex(data) + 1..]
  {
    var len := VIntLen(data);
    if len.None? {
      return None;
    }
    var result := ReadDigits(data, len.value);
    return Some((result, data[len.value..]));
  }

  /** The 32-bit reader inverts both encoders. */
  lemma ReadU32Inverts(v: nat, rest: seq<byte>)
    requires v < Pow2(32)
    ensures var data := Encode(v) + rest; var n := StopIndex(data);
            n < 5 && n < |data| && Low(Payload(data[..n + 1]), 32) == v && data[n + 1..] == rest
  {
    var data, n := Encode(v) + rest, |Encode(v)|;
    EncodeStops(v, rest);
    EncodePayload(v);
    Pow2Mono(32, 35);
    LengthBound(v, 5);
    assert data[..n] == Encode(v) && data[n..] == rest;
    Small(v, 32);
  }
}
