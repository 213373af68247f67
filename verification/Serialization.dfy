/** The `BinarySerializable` codecs: fixed-width numbers, booleans, strings, byte strings, and
    vectors and pairs of anything, nested at will. */
module Serialization {
  import opened Bits
  import opened Utf8
  import V = VInts

  /** The type being serialized. */
  datatype Schema =
    | Unit
    | Unsigned(width: nat)
    | Signed64
    | Bool
    | VInt
    | Text
    | Bytes
    | Vec(elem: Schema)
    | Pair(left: Schema, right: Schema)

  datatype Value =
    | Nothing
    | Number(n: int)
    | Truth(b: bool)
    | Blob(bytes: seq<byte>)
    | Items(items: seq<Value>)
    | Both(first: Value, second: Value)

  /** A value and the bytes behind it, an error, or a panic. */
  datatype Outcome<T> = Got(value: T, rest: seq<byte>) | Failed | Panicked

  const TWO_63 := 0x8000_0000_0000_0000
  const TWO_64 := 0x1_0000_0000_0000_0000

  /** The values of a type. */
  ghost predicate HasType(s: Schema, v: Value)
    decreases s
  {
    match s
    case Unit => v == Nothing
    case Unsigned(w) => v.Number? && 0 <= v.n < Pow2(8 * w)
    case Signed64 => v.Number? && -TWO_63 <= v.n < TWO_63
    case Bool => v.Truth?
    case VInt => v.Number? && 0 <= v.n < TWO_64
    case Text => v.Blob? && |v.bytes| < TWO_64 && ValidUtf8(v.bytes)
    case Bytes => v.Blob? && |v.bytes| < TWO_64
    case Vec(elem) => v.Items? && |v.items| < TWO_64 && forall i | 0 <= i < |v.items| :: HasType(elem, v.items[i])
    case Pair(l, r) => v.Both? && HasType(l, v.first) && HasType(r, v.second)
  }

  // ---- the format ----

  function Encode(s: Schema, v: Value): seq<byte>
    requires HasType(s, v)
    decreases s, 0
  {
    match s
    case Unit => []
    case Unsigned(w) => LeBytes(v.n, w)
    case Signed64 => LeBytes(if v.n < 0 then v.n + TWO_64 else v.n, 8)
    case Bool => [if v.b then 1 else 0]
    case VInt => V.Encode(v.n)
    case Text => V.Encode(|v.bytes|) + v.bytes
    case Bytes => V.Encode(|v.bytes|) + v.bytes
    case Vec(elem) => V.Encode(|v.items|) + EncodeAll(elem, v.items)
    case Pair(l, r) => Encode(l, v.first) + Encode(r, v.second)
  }

  function EncodeAll(elem: Schema, items: seq<Value>): seq<byte>
    requires forall i | 0 <= i < |items| :: HasType(elem, items[i])
    decreases elem, |items| + 1
  {
    if items == [] then [] else Encode(elem, items[0]) + EncodeAll(elem, items[1..])
  }

  function Decode(s: Schema, bytes: seq<byte>): Outcome<Value>
    decreases s, 0
  {
    match s
    case Unit => Got(Nothing, bytes)
    case Unsigned(w) => if |bytes| < w then Failed else Got(Number(LeValue(bytes[..w])), bytes[w..])
    case Signed64 =>
      if |bytes| < 8 then Failed
      else
        var n := LeValue(bytes[..8]);
        Got(Number(if n >= TWO_63 then n - TWO_64 else n), bytes[8..])
    case Bool =>
      if bytes == [] || bytes[0] > 1 then Failed else Got(Truth(bytes[0] == 1), bytes[1..])
    case VInt =>
      (match V.ReadVInt(bytes)
       case Done(n, rest) => Got(Number(n), rest)
       case EndOfBuffer => Failed
       case ShiftOverflow => Panicked)
    case Text =>
      // A string cut short by the end of the input is accepted as it is.
      (match V.ReadVInt(bytes)
       case Done(n, rest) =>
         var k := if n <= |rest| then n else |rest|;
         if ValidUtf8(rest[..k]) then Got(Blob(rest[..k]), rest[k..]) else Failed
       case EndOfBuffer => Failed
       case ShiftOverflow => Panicked)
    case Bytes =>
      (match V.ReadVInt(bytes)
       case Done(n, rest) => if n <= |rest| then Got(Blob(rest[..n]), rest[n..]) else Failed
       case EndOfBuffer => Failed
       case ShiftOverflow => Panicked)
    case Vec(elem) =>
      (match V.ReadVInt(bytes)
       case Done(n, rest) =>
         (match ReadN(b => Decode(elem, b), n, rest)
          case Got(items, rest') => Got(Items(items), rest')
          case Failed => Failed
          case Panicked => Panicked)
       case EndOfBuffer => Failed
       case ShiftOverflow => Panicked)
    case Pair(l, r) =>
      match Decode(l, bytes)
      case Failed => Failed
      case Panicked => Panicked
      case Got(first, rest) =>
        match Decode(r, rest)
        case Failed => Failed
        case Panicked => Panicked
        case Got(second, rest') => Got(Both(first, second), rest')
  }

  /** `n` values in a row. */
  function ReadN<T>(f: seq<byte> -> Outcome<T>, n: nat, bytes: seq<byte>): Outcome<seq<T>> {
    if n == 0 then Got([], bytes)
    else
      match f(bytes)
      case Failed => Failed
      case Panicked => Panicked
      case Got(item, rest) =>
        match ReadN(f, n - 1, rest)
        case Failed => Failed
        case Panicked => Panicked
        case Got(items, rest') => Got([item] + items, rest')
  }

  lemma ReadNCons<T>(f: seq<byte> -> Outcome<T>, n: nat, bytes: seq<byte>, mid: seq<byte>,
                     item: T, items: seq<T>, rest: seq<byte>)
    requires f(bytes) == Got(item, mid) && ReadN(f, n, mid) == Got(items, rest)
    ensures ReadN(f, n + 1, bytes) == Got([item] + items, rest)
  {
  }

  lemma {:induction false} ReadNSnoc<T>(f: seq<byte> -> Outcome<T>, n: nat, bytes: seq<byte>,
                                        items: seq<T>, rest: seq<byte>)
    requires ReadN(f, n, bytes) == Got(items, rest)
    ensures f(rest).Got? ==> ReadN(f, n + 1, bytes) == Got(items + [f(rest).value], f(rest).rest)
    ensures f(rest).Failed? ==> forall m | m > n :: ReadN(f, m, bytes) == Failed
    ensures f(rest).Panicked? ==> forall m | m > n :: ReadN(f, m, bytes) == Panicked
    decreases n
  {
    if n == 0 {
      if f(rest).Got? {
        assert ReadN(f, 0, f(rest).rest) == Got([], f(rest).rest);
        ReadNCons(f, 0, bytes, f(rest).rest, f(rest).value, [], f(rest).rest);
        assert items + [f(rest).value] == [f(rest).value] + [];
      }
    } else {
      var head := f(bytes);
      ReadNSnoc(f, n - 1, head.rest, items[1..], rest);
      if f(rest).Got? {
        assert items + [f(rest).value] == [head.value] + (items[1..] + [f(rest).value]);
      }
    }
  }

  // ---- round trip ----

  lemma Assoc(a: seq<byte>, b: seq<byte>, c: seq<byte>)
    ensures a + b + c == a + (b + c)
  {
  }

  lemma CountReadsBack(n: nat, rest: seq<byte>)
    requires n < TWO_64
    ensures V.ReadVInt(V.Encode(n) + rest) == V.Done(n, rest)
  {
    Pow2Values();
    V.RoundTrip(n, rest);
  }

  lemma WordReadsBack(n: nat, w: nat, rest: seq<byte>)
    requires n < Pow2(8 * w)
    ensures var bytes := LeBytes(n, w) + rest;
            LeValue(bytes[..w]) == n && bytes[w..] == rest
  {
    var bytes := LeBytes(n, w) + rest;
    assert bytes[..w] == LeBytes(n, w);
    LeBytesValue(n, w);
    Small(n, 8 * w);
  }

  /** Decoding returns the value and consumes exactly its bytes, whatever follows. */
  lemma {:induction false} RoundTrip(s: Schema, v: Value, rest: seq<byte>)
    requires HasType(s, v)
    ensures Decode(s, Encode(s, v) + rest) == Got(v, rest)
    decreases s, 0
  {
    match s
    case Unit => assert Encode(s, v) + rest == rest;
    case Unsigned(w) => WordReadsBack(v.n, w, rest);
    case Signed64 =>
      Pow2Values();
      WordReadsBack(if v.n < 0 then v.n + TWO_64 else v.n, 8, rest);
    case Bool =>
    case VInt => CountReadsBack(v.n, rest);
    case Text => BlobRoundTrip(s, v, rest);
    case Bytes => BlobRoundTrip(s, v, rest);
    case Vec(elem) =>
      RoundTripAll(elem, v.items, rest);
      VecRoundTrip(elem, v, rest);
    case Pair(l, r) =>
      RoundTrip(l, v.first, Encode(r, v.second) + rest);
      RoundTrip(r, v.second, rest);
      Assoc(Encode(l, v.first), Encode(r, v.second), rest);
  }

  lemma VecRoundTrip(elem: Schema, v: Value, rest: seq<byte>)
    requires HasType(Vec(elem), v)
    requires ReadN(b => Decode(elem, b), |v.items|, EncodeAll(elem, v.items) + rest) == Got(v.items, rest)
    ensures Decode(Vec(elem), Encode(Vec(elem), v) + rest) == Got(v, rest)
  {
    Assoc(V.Encode(|v.items|), EncodeAll(elem, v.items), rest);
    CountReadsBack(|v.items|, EncodeAll(elem, v.items) + rest);
  }

  lemma BlobRoundTrip(s: Schema, v: Value, rest: seq<byte>)
    requires (s == Text || s == Bytes) && HasType(s, v)
    ensures Decode(s, Encode(s, v) + rest) == Got(v, rest)
  {
    var body := v.bytes;
    assert Encode(s, v) + rest == V.Encode(|body|) + (body + rest);
    CountReadsBack(|body|, body + rest);
    assert (body + rest)[..|body|] == body && (body + rest)[|body|..] == rest;
  }

  lemma {:induction false} RoundTripAll(elem: Schema, items: seq<Value>, rest: seq<byte>)
    requires forall i | 0 <= i < |items| :: HasType(elem, items[i])
    ensures ReadN(b => Decode(elem, b), |items|, EncodeAll(elem, items) + rest) == Got(items, rest)
    decreases elem, |items| + 1
  {
    var f := b => Decode(elem, b);
    if items == [] {
      assert EncodeAll(elem, items) + rest == rest;
    } else {
      var tail := EncodeAll(elem, items[1..]);
      Assoc(Encode(elem, items[0]), tail, rest);
      RoundTrip(elem, items[0], tail + rest);
      RoundTripAll(elem, items[1..], rest);
      ReadNCons(f, |items| - 1, EncodeAll(elem, items) + rest, tail + rest, items[0], items[1..], rest);
      assert [items[0]] + items[1..] == items;
    }
  }

  /** No encoding is a prefix of another: a concatenated stream splits in one way only. */
  lemma UniquelyDecodable(s: Schema, v: Value, v': Value, rest: seq<byte>, rest': seq<byte>)
    requires HasType(s, v) && HasType(s, v') && Encode(s, v) + rest == Encode(s, v') + rest'
    ensures v == v' && rest == rest'
  {
    RoundTrip(s, v, rest);
    RoundTrip(s, v', rest');
  }

  // ---- what the bytes mean ----

  /** A text of any scalar values comes back, whatever follows it. */
  lemma TextRoundTrip(text: seq<nat>, rest: seq<byte>)
    requires AreScalars(text) && |EncodeText(text)| < TWO_64
    ensures var bytes := EncodeText(text);
            HasType(Text, Blob(bytes)) && Decode(Text, V.Encode(|bytes|) + bytes + rest) == Got(Blob(bytes), rest)
  {
    EncodedIsValid(text);
    RoundTrip(Text, Blob(EncodeText(text)), rest);
  }

  /** A string cut short by the end of the input is accepted if it is text, a byte string is not. */
  lemma CutShort(bytes: seq<byte>)
    requires V.ReadVInt(bytes).Done? && V.ReadVInt(bytes).value > |V.ReadVInt(bytes).rest|
    ensures Decode(Bytes, bytes) == Failed
    ensures var rest := V.ReadVInt(bytes).rest;
            Decode(Text, bytes) == if ValidUtf8(rest) then Got(Blob(rest), []) else Failed
  {
    var rest := V.ReadVInt(bytes).rest;
    assert rest[..|rest|] == rest;
  }

  /** Signed numbers are written as their residue, low byte first. */
  lemma SignedBytes(n: int)
    requires -0x8000_0000_0000_0000 <= n < 0x8000_0000_0000_0000
    ensures HasType(Signed64, Number(n)) && |Encode(Signed64, Number(n))| == 8
    ensures LeValue(Encode(Signed64, Number(n))) == if n < 0 then n + 0x1_0000_0000_0000_0000 else n
  {
    Pow2Values();
    var word := if n < 0 then n + TWO_64 else n;
    LeBytesValue(word, 8);
    Small(word, 64);
  }

  /** And read as the number in range with that residue. */
  lemma SignedMeans(bytes: seq<byte>)
    requires |bytes| >= 8
    ensures Decode(Signed64, bytes).Got? && Decode(Signed64, bytes).rest == bytes[8..]
    ensures var n, word := Decode(Signed64, bytes).value.n, LeValue(bytes[..8]);
            && -0x8000_0000_0000_0000 <= n < 0x8000_0000_0000_0000
            && (n == word || n == word - 0x1_0000_0000_0000_0000)
  {
    Pow2Values();
    LeBound(bytes[..8]);
  }

  lemma BoolMeans(b: bool, bytes: seq<byte>)
    ensures Encode(Bool, Truth(b)) == if b then [1] else [0]
    ensures Decode(Bool, bytes).Got? <==> bytes != [] && (bytes[0] == 0 || bytes[0] == 1)
    ensures Decode(Bool, bytes) == Got(Truth(b), bytes[if bytes == [] then 0 else 1..]) <==>
            bytes != [] && bytes[0] == if b then 1 else 0
  {
  }

  /** The order of the parts, by example: the first of a pair first, a length before what it counts. */
  lemma KnownPair()
    ensures var pair := Both(Number(0x0102), Truth(true));
            HasType(Pair(Unsigned(2), Bool), pair) && Encode(Pair(Unsigned(2), Bool), pair) == [0x02, 0x01, 1]
  {
    Pow2Values();
    assert LeBytes(0x0102, 2) == [0x02, 0x01] by {
      assert LeBytes(0x01, 1) == [0x01];
    }
  }

  lemma KnownItems()
    ensures var items := Items([Truth(true), Truth(false)]);
            HasType(Vec(Bool), items) && Encode(Vec(Bool), items) == [0x82, 1, 0]
  {
    var items := [Truth(true), Truth(false)];
    assert items[1..] == [Truth(false)] && items[1..][1..] == [];
    assert EncodeAll(Bool, items) == [1] + EncodeAll(Bool, [Truth(false)]) == [1] + ([0] + []);
  }

  lemma KnownText()
    ensures HasType(Text, Blob([0xC3, 0xA9])) && Encode(Text, Blob([0xC3, 0xA9])) == [0x82, 0xC3, 0xA9]
  {
    var bytes: seq<byte> := [0xC3, 0xA9];
    assert CharLength(bytes) == 2 && bytes[2..] == [];
  }

  // ---- soundness ----

  predicate IsSuffix(rest: seq<byte>, bytes: seq<byte>) {
    |rest| <= |bytes| && rest == bytes[|bytes| - |rest|..]
  }

  lemma SuffixTrans(c: seq<byte>, b: seq<byte>, a: seq<byte>)
    requires IsSuffix(c, b) && IsSuffix(b, a)
    ensures IsSuffix(c, a)
  {
  }

  /** A count is below 2^64 and takes at least the bytes of its encoding. */
  lemma CountSound(bytes: seq<byte>)
    requires V.ReadVInt(bytes).Done?
    ensures var Done(n, rest) := V.ReadVInt(bytes);
            n < TWO_64 && IsSuffix(rest, bytes) && |V.Encode(n)| + |rest| <= |bytes|
  {
    Pow2Values();
    V.EncodeIsShortest(bytes);
  }

  lemma ShorterCount(k: nat, n: nat)
    requires k <= n
    ensures |V.Encode(k)| <= |V.Encode(n)|
  {
    V.EncodeLength(n);
    V.LengthBound(k, |V.Encode(n)|);
  }

  /** What decoding accepts: a value of the type, a suffix left over, and no fewer bytes than the encoding has. */
  ghost predicate Accepts(s: Schema, bytes: seq<byte>, v: Value, rest: seq<byte>) {
    HasType(s, v) && IsSuffix(rest, bytes) && |Encode(s, v)| + |rest| <= |bytes|
  }

  ghost predicate AcceptsAll(elem: Schema, bytes: seq<byte>, items: seq<Value>, rest: seq<byte>) {
    && (forall i | 0 <= i < |items| :: HasType(elem, items[i]))
    && IsSuffix(rest, bytes) && |EncodeAll(elem, items)| + |rest| <= |bytes|
  }

  lemma FlatSound(s: Schema, bytes: seq<byte>)
    requires !s.Text? && !s.Bytes? && !s.Vec? && !s.Pair? && Decode(s, bytes).Got?
    ensures Accepts(s, bytes, Decode(s, bytes).value, Decode(s, bytes).rest)
  {
    match s
    case Unsigned(w) => LeBound(bytes[..w]);
    case Signed64 =>
      Pow2Values();
      LeBound(bytes[..8]);
    case VInt => CountSound(bytes);
    case _ =>
  }

  lemma PairSound(l: Schema, r: Schema, bytes: seq<byte>, first: Value, mid: seq<byte>, second: Value,
                  rest: seq<byte>)
    requires Accepts(l, bytes, first, mid) && Accepts(r, mid, second, rest)
    ensures Accepts(Pair(l, r), bytes, Both(first, second), rest)
  {
    SuffixTrans(rest, mid, bytes);
  }

  lemma VecSound(elem: Schema, bytes: seq<byte>, items: seq<Value>, mid: seq<byte>, rest: seq<byte>)
    requires |items| < TWO_64 && IsSuffix(mid, bytes) && |V.Encode(|items|)| + |mid| <= |bytes|
    requires AcceptsAll(elem, mid, items, rest)
    ensures Accepts(Vec(elem), bytes, Items(items), rest)
  {
    SuffixTrans(rest, mid, bytes);
  }

  lemma BlobSound(s: Schema, bytes: seq<byte>)
    requires (s == Text || s == Bytes) && Decode(s, bytes).Got?
    ensures Accepts(s, bytes, Decode(s, bytes).value, Decode(s, bytes).rest)
  {
    CountSound(bytes);
    var count := V.ReadVInt(bytes);
    var k := if count.value <= |count.rest| then count.value else |count.rest|;
    ShorterCount(k, count.value);
    SuffixTrans(count.rest[k..], count.rest, bytes);
  }

  /** Whatever bytes decoding accepts, it returns a value of the type and a suffix, having read enough for it. */
  lemma {:induction false} DecodeSound(s: Schema, bytes: seq<byte>)
    requires Decode(s, bytes).Got?
    ensures Accepts(s, bytes, Decode(s, bytes).value, Decode(s, bytes).rest)
    decreases s, 0
  {
    match s
    case Text => BlobSound(s, bytes);
    case Bytes => BlobSound(s, bytes);
    case Vec(elem) =>
      var mid := V.ReadVInt(bytes).rest;
      CountSound(bytes);
      ItemsSound(elem, V.ReadVInt(bytes).value, mid);
      VecSound(elem, bytes, Decode(s, bytes).value.items, mid, Decode(s, bytes).rest);
    case Pair(l, r) =>
      var first := Decode(l, bytes);
      var second := Decode(r, first.rest);
      DecodeSound(l, bytes);
      DecodeSound(r, first.rest);
      PairSound(l, r, bytes, first.value, first.rest, second.value, second.rest);
    case _ => FlatSound(s, bytes);
  }

  lemma ReadNHead<T>(f: seq<byte> -> Outcome<T>, n: nat, bytes: seq<byte>)
    requires n > 0 && ReadN(f, n, bytes).Got?
    ensures f(bytes).Got? && ReadN(f, n - 1, f(bytes).rest).Got?
    ensures var tail := ReadN(f, n - 1, f(bytes).rest);
            ReadN(f, n, bytes) == Got([f(bytes).value] + tail.value, tail.rest)
  {
  }

  lemma AcceptsCons(elem: Schema, bytes: seq<byte>, item: Value, mid: seq<byte>, items: seq<Value>, rest: seq<byte>)
    requires Accepts(elem, bytes, item, mid) && AcceptsAll(elem, mid, items, rest)
    ensures AcceptsAll(elem, bytes, [item] + items, rest)
  {
    SuffixTrans(rest, mid, bytes);
    assert ([item] + items)[1..] == items;
  }

  lemma {:induction false} ItemsSound(elem: Schema, n: nat, bytes: seq<byte>)
    requires ReadN(b => Decode(elem, b), n, bytes).Got?
    ensures var Got(items, rest) := ReadN(b => Decode(elem, b), n, bytes);
            |items| == n && AcceptsAll(elem, bytes, items, rest)
    decreases elem, n + 1
  {
    if n > 0 {
      var f := b => Decode(elem, b);
      ReadNHead(f, n, bytes);
      var first := f(bytes);
      var tail := ReadN(f, n - 1, first.rest);
      DecodeSound(elem, bytes);
      ItemsSound(elem, n - 1, first.rest);
      AcceptsCons(elem, bytes, first.value, first.rest, tail.value, tail.rest);
    }
  }

  // ---- fixed sizes ----

  predicate IsFixed(s: Schema) {
    match s
    case Unit | Unsigned(_) | Signed64 | Bool => true
    case Pair(l, r) => IsFixed(l) && IsFixed(r)
    case _ => false
  }

  function SizeInBytes(s: Schema): nat
    requires IsFixed(s)
  {
    match s
    case Unit => 0
    case Unsigned(w) => w
    case Signed64 => 8
    case Bool => 1
    case Pair(l, r) => SizeInBytes(l) + SizeInBytes(r)
  }

  lemma {:induction false} FixedSize(s: Schema, v: Value)
    requires IsFixed(s) && HasType(s, v)
    ensures |Encode(s, v)| == SizeInBytes(s)
  {
    match s
    case Pair(l, r) =>
      FixedSize(l, v.first);
      FixedSize(r, v.second);
    case _ =>
  }

  // ---- the writers and readers ----

  method WriteVInt(n: nat, writer: seq<byte>) returns (writer': seq<byte>)
    requires n < TWO_64
    ensures writer' == writer + V.Encode(n)
  {
    Pow2Values();
    var buffer := new byte[10];
    var k := V.SerializeInto(n, buffer);
    writer' := writer + buffer[..k];
  }

  method WriteBlob(bytes: seq<byte>, writer: seq<byte>) returns (writer': seq<byte>)
    requires |bytes| < TWO_64
    ensures writer' == writer + (V.Encode(|bytes|) + bytes)
  {
    writer' := WriteVInt(|bytes|, writer);
    ghost var head := writer';
    for i := 0 to |bytes|
      invariant writer' == head + bytes[..i]
    {
      writer' := writer' + [bytes[i]];
    }
  }

  method WriteItems(elem: Schema, items: seq<Value>, writer: seq<byte>) returns (writer': seq<byte>)
    requires |items| < TWO_64 && forall i | 0 <= i < |items| :: HasType(elem, items[i])
    ensures writer' == writer + (V.Encode(|items|) + EncodeAll(elem, items))
    decreases elem, 1
  {
    writer' := WriteVInt(|items|, writer);
    ghost var head := writer';
    for i := 0 to |items|
      invariant writer' + EncodeAll(elem, items[i..]) == head + EncodeAll(elem, items)
    {
      assert items[i..][1..] == items[i + 1..];
      Assoc(writer', Encode(elem, items[i]), EncodeAll(elem, items[i + 1..]));
      writer' := Serialize(elem, items[i], writer');
    }
    assert items[|items|..] == [] && writer' + [] == writer';
    Assoc(writer, V.Encode(|items|), EncodeAll(elem, items));
  }

  /** Appends the encoding to a writer; vectors and byte strings loop over their elements. */
  method Serialize(s: Schema, v: Value, writer: seq<byte>) returns (writer': seq<byte>)
    requires HasType(s, v)
    ensures writer' == writer + Encode(s, v)
    decreases s, 0
  {
    match s
    case Unit => writer' := writer;
    case Unsigned(w) => writer' := writer + LeBytes(v.n, w);
    case Signed64 => writer' := writer + LeBytes(if v.n < 0 then v.n + TWO_64 else v.n, 8);
    case Bool => writer' := writer + [if v.b then 1 else 0];
    case VInt => writer' := WriteVInt(v.n, writer);
    case Text =>
      writer' := WriteVInt(|v.bytes|, writer);
      writer' := writer' + v.bytes;
      Assoc(writer, V.Encode(|v.bytes|), v.bytes);
    case Bytes => writer' := WriteBlob(v.bytes, writer);
    case Vec(elem) => writer' := WriteItems(elem, v.items, writer);
    case Pair(l, r) =>
      writer' := Serialize(l, v.first, writer);
      writer' := Serialize(r, v.second, writer');
      Assoc(writer, Encode(l, v.first), Encode(r, v.second));
  }

  method ReadItems(elem: Schema, n: nat, reader: seq<byte>) returns (r: Outcome<seq<Value>>)
    ensures r == ReadN(b => Decode(elem, b), n, reader)
    decreases elem, 1
  {
    ghost var f := b => Decode(elem, b);
    var items, rest := [], reader;
    for i := 0 to n
      invariant ReadN(f, i, reader) == Got(items, rest)
    {
      var item := Deserialize(elem, rest);
      ReadNSnoc(f, i, reader, items, rest);
      match item
      case Failed => return Failed;
      case Panicked => return Panicked;
      case Got(value, after) => items, rest := items + [value], after;
    }
    r := Got(items, rest);
  }

  /** A length or count at the front of a reader. */
  method ReadCount(reader: seq<byte>) returns (r: Outcome<nat>)
    ensures r == match V.ReadVInt(reader)
                 case Done(n, rest) => Got(n, rest)
                 case EndOfBuffer => Failed
                 case ShiftOverflow => Panicked
  {
    var count := V.Deserialize(reader);
    match count
    case Done(n, rest) => r := Got(n, rest);
    case EndOfBuffer => r := Failed;
    case ShiftOverflow => r := Panicked;
  }

  method ReadBlob(reader: seq<byte>) returns (r: Outcome<Value>)
    ensures r == Decode(Bytes, reader)
  {
    var count := ReadCount(reader);
    if !count.Got? {
      return if count.Failed? then Failed else Panicked;
    }
    var items: seq<byte>, rest := [], count.rest;
    for i := 0 to count.value
      invariant i <= |count.rest| && items == count.rest[..i] && rest == count.rest[i..]
    {
      if rest == [] {
        return Failed;
      }
      items, rest := items + [rest[0]], rest[1..];
    }
    r := Got(Blob(items), rest);
  }

  method ReadText(reader: seq<byte>) returns (r: Outcome<Value>)
    ensures r == Decode(Text, reader)
  {
    var count := ReadCount(reader);
    if !count.Got? {
      return if count.Failed? then Failed else Panicked;
    }
    var taken := if count.value <= |count.rest| then count.value else |count.rest|;
    var result := count.rest[..taken];
    r := if ValidUtf8(result) then Got(Blob(result), count.rest[taken..]) else Failed;
  }

  method ReadUnsigned(w: nat, reader: seq<byte>) returns (r: Outcome<nat>)
    ensures if |reader| < w then r == Failed else r.Got?
    ensures r.Got? ==> LeBytes(r.value, w) + r.rest == reader && r.value < Pow2(8 * w)
    ensures r.Got? ==> r.value == LeValue(reader[..w]) && r.rest == reader[w..]
  {
    if |reader| < w {
      return Failed;
    }
    r := Got(LeValue(reader[..w]), reader[w..]);
    LeBound(reader[..w]);
    LeBytesValue(r.value, w);
    Small(r.value, 8 * w);
    LeInjective(LeBytes(r.value, w), reader[..w]);
  }

  /** Reads a value from the front of a reader; vectors loop and push. */
  method Deserialize(s: Schema, reader: seq<byte>) returns (r: Outcome<Value>)
    ensures r == Decode(s, reader)
    decreases s, 0
  {
    match s
    case Unit => r := Got(Nothing, reader);
    case Unsigned(w) =>
      var n := ReadUnsigned(w, reader);
      r := if n.Got? then Got(Number(n.value), n.rest) else Failed;
    case Signed64 =>
      var n := ReadUnsigned(8, reader);
      r := if n.Got? then Got(Number(if n.value >= TWO_63 then n.value - TWO_64 else n.value), n.rest) else Failed;
    case Bool =>
      if reader == [] {
        return Failed;
      }
      r := match reader[0]
      case 0 => Got(Truth(false), reader[1..])
      case 1 => Got(Truth(true), reader[1..])
      case _ => Failed;
    case VInt =>
      var n := ReadCount(reader);
      r := match n
      case Got(value, rest) => Got(Number(value), rest)
      case Failed => Failed
      case Panicked => Panicked;
    case Text => r := ReadText(reader);
    case Bytes => r := ReadBlob(reader);
    case Vec(elem) =>
      var count := ReadCount(reader);
      if !count.Got? {
        return if count.Failed? then Failed else Panicked;
      }
      var items := ReadItems(elem, count.value, count.rest);
      r := match items
      case Got(values, rest) => Got(Items(values), rest)
      case Failed => Failed
      case Panicked => Panicked;
    case Pair(left, right) =>
      var first := Deserialize(left, reader);
      if !first.Got? {
        return first;
      }
      var second := Deserialize(right, first.rest);
      r := if second.Got? then Got(Both(first.value, second.value), second.rest) else second;
  }
}
