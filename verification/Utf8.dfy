/** Which byte strings are text: `String::from_utf8` accepts exactly the encodings of sequences of
    Unicode scalar values (sections 3 and 4 of RFC 3629). */
module Utf8 {
  import opened Bits

  // ---- the bytes that are accepted ----

  predicate Cont(b: byte) {
    0x80 <= b < 0xC0
  }

  /** Length of the character at the start of the bytes, 0 if there is none. */
  function CharLength(s: seq<byte>): (n: nat)
    ensures n <= |s|
  {
    if |s| >= 1 && s[0] < 0x80 then 1
    else if |s| >= 2 && 0xC2 <= s[0] < 0xE0 && Cont(s[1]) then 2
    else if |s| >= 3 && 0xE0 <= s[0] < 0xF0 && Cont(s[1]) && Cont(s[2])
      && (s[0] == 0xE0 ==> s[1] >= 0xA0) && (s[0] == 0xED ==> s[1] < 0xA0) then 3
    else if |s| >= 4 && 0xF0 <= s[0] < 0xF5 && Cont(s[1]) && Cont(s[2]) && Cont(s[3])
      && (s[0] == 0xF0 ==> s[1] >= 0x90) && (s[0] == 0xF4 ==> s[1] < 0x90) then 4
    else 0
  }

  predicate ValidUtf8(s: seq<byte>) {
    s == [] || (CharLength(s) > 0 && ValidUtf8(s[CharLength(s)..]))
  }

  // ---- the encoding of code points ----

  /** A code point that is not a surrogate. */
  predicate IsScalar(c: nat) {
    c < 0x11_0000 && !(0xD800 <= c < 0xE000)
  }

  /** Six bits in each byte behind the first, the highest first. */
  function EncodeChar(c: nat): seq<byte>
    requires IsScalar(c)
  {
    if c < 0x80 then [c]
    else if c < 0x800 then [0xC0 + c / 0x40, 0x80 + c % 0x40]
    else if c < 0x1_0000 then [0xE0 + c / 0x1000, 0x80 + c / 0x40 % 0x40, 0x80 + c % 0x40]
    else [0xF0 + c / 0x4_0000, 0x80 + c / 0x1000 % 0x40, 0x80 + c / 0x40 % 0x40, 0x80 + c % 0x40]
  }

  predicate AreScalars(text: seq<nat>) {
    forall i | 0 <= i < |text| :: IsScalar(text[i])
  }

  function EncodeText(text: seq<nat>): seq<byte>
    requires AreScalars(text)
  {
    if text == [] then [] else EncodeChar(text[0]) + EncodeText(text[1..])
  }

  lemma EncodedLength(c: nat, rest: seq<byte>)
    requires IsScalar(c)
    ensures CharLength(EncodeChar(c) + rest) == |EncodeChar(c)| > 0
  {
  }

  /** The code point that the first character of the bytes encodes. */
  lemma EncodedAs(s: seq<byte>) returns (c: nat)
    requires CharLength(s) > 0
    ensures IsScalar(c) && EncodeChar(c) == s[..CharLength(s)]
  {
    match CharLength(s)
    case 1 => c := s[0];
    case 2 => c := TwoBytes(s[0] - 0xC0, s[1] - 0x80);
    case 3 => c := ThreeBytes(s[0] - 0xE0, s[1] - 0x80, s[2] - 0x80);
    case _ => c := FourBytes(s[0] - 0xF0, s[1] - 0x80, s[2] - 0x80, s[3] - 0x80);
  }

  lemma TwoBytes(a: nat, b: nat) returns (c: nat)
    requires 2 <= a < 0x20 && b < 0x40
    ensures IsScalar(c) && EncodeChar(c) == [0xC0 + a, 0x80 + b]
  {
    c := 0x40 * a + b;
    assert c / 0x40 == a && c % 0x40 == b;
  }

  lemma ThreeBytes(a: nat, b: nat, d: nat) returns (c: nat)
    requires a < 0x10 && b < 0x40 && d < 0x40 && (a == 0 ==> b >= 0x20) && (a == 0xD ==> b < 0x20)
    ensures IsScalar(c) && EncodeChar(c) == [0xE0 + a, 0x80 + b, 0x80 + d]
  {
    c := 0x1000 * a + 0x40 * b + d;
    assert c / 0x40 == 0x40 * a + b && c % 0x40 == d && c / 0x1000 == a;
  }

  lemma FourBytes(a: nat, b: nat, d: nat, e: nat) returns (c: nat)
    requires a < 5 && b < 0x40 && d < 0x40 && e < 0x40 && (a == 0 ==> b >= 0x10) && (a == 4 ==> b < 0x10)
    ensures IsScalar(c) && EncodeChar(c) == [0xF0 + a, 0x80 + b, 0x80 + d, 0x80 + e]
  {
    c := 0x4_0000 * a + 0x1000 * b + 0x40 * d + e;
    assert c / 0x40 == 0x1000 * a + 0x40 * b + d && c % 0x40 == e;
    assert c / 0x1000 == 0x40 * a + b && c / 0x4_0000 == a;
  }

  // ---- whole texts ----

  lemma {:induction false} EncodedIsValid(text: seq<nat>)
    requires AreScalars(text)
    ensures ValidUtf8(EncodeText(text))
  {
    if text != [] {
      var rest := EncodeText(text[1..]);
      EncodedIsValid(text[1..]);
      EncodedLength(text[0], rest);
      assert EncodeText(text)[|EncodeChar(text[0])|..] == rest;
    }
  }

  lemma {:induction false} ValidIsEncoded(s: seq<byte>) returns (text: seq<nat>)
    requires ValidUtf8(s)
    ensures AreScalars(text) && EncodeText(text) == s
    decreases |s|
  {
    text := [];
    if s != [] {
      var n := CharLength(s);
      var c := EncodedAs(s);
      var rest := ValidIsEncoded(s[n..]);
      text := [c] + rest;
      assert text[1..] == rest && s[..n] + s[n..] == s;
    }
  }

  /** Exactly the encodings of scalar values are accepted. */
  lemma ValidIffEncoded(s: seq<byte>)
    ensures ValidUtf8(s) <==> exists text :: AreScalars(text) && EncodeText(text) == s
  {
    if ValidUtf8(s) {
      var text := ValidIsEncoded(s);
    }
    if text :| AreScalars(text) && EncodeText(text) == s {
      EncodedIsValid(text);
    }
  }

  /** A text has one encoding, and an encoding one text. */
  lemma {:induction false} TextUnique(a: seq<nat>, b: seq<nat>)
    requires AreScalars(a) && AreScalars(b) && EncodeText(a) == EncodeText(b)
    ensures a == b
  {
    if a != [] && b != [] {
      var s := EncodeText(a);
      EncodedLength(a[0], EncodeText(a[1..]));
      EncodedLength(b[0], EncodeText(b[1..]));
      var n := CharLength(s);
      assert EncodeChar(a[0]) == s[..n] == EncodeChar(b[0]);
      assert EncodeText(a[1..]) == s[n..] == EncodeText(b[1..]);
      CharUnique(a[0], b[0]);
      TextUnique(a[1..], b[1..]);
      assert a == [a[0]] + a[1..] && b == [b[0]] + b[1..];
    } else {
      EmptyText(a);
      EmptyText(b);
    }
  }

  lemma EmptyText(a: seq<nat>)
    requires AreScalars(a)
    ensures EncodeText(a) == [] <==> a == []
  {
    if a != [] {
      EncodedLength(a[0], EncodeText(a[1..]));
    }
  }

  /** The number that the bytes of one character spell. */
  function CharOf(s: seq<byte>): int
    requires 1 <= |s| <= 4
  {
    var a := s[0] as int;
    if |s| == 1 then a
    else
      var b := s[1] as int - 0x80;
      if |s| == 2 then 0x40 * (a - 0xC0) + b
      else
        var c := s[2] as int - 0x80;
        if |s| == 3 then 0x1000 * (a - 0xE0) + 0x40 * b + c
        else 0x4_0000 * (a - 0xF0) + 0x1000 * b + 0x40 * c + (s[3] as int - 0x80)
  }

  lemma CharReadsBack(c: nat)
    requires IsScalar(c)
    ensures 1 <= |EncodeChar(c)| <= 4 && CharOf(EncodeChar(c)) == c
  {
    assert c == 0x40 * (c / 0x40) + c % 0x40;
    assert c / 0x40 == 0x40 * (c / 0x1000) + c / 0x40 % 0x40;
    assert c / 0x1000 == 0x40 * (c / 0x4_0000) + c / 0x1000 % 0x40;
  }

  lemma CharUnique(a: nat, b: nat)
    requires IsScalar(a) && IsScalar(b) && EncodeChar(a) == EncodeChar(b)
    ensures a == b
  {
    CharReadsBack(a);
    CharReadsBack(b);
  }
}
