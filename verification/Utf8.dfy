/** UTF-8 as Python's codec applies it: strict encoding of Unicode scalar values, and decoding
    with errors="replace", where each maximal ill-formed prefix becomes one U+FFFD. */
module Utf8 {

  type Byte = x: int | 0 <= x < 256

  function EncodeChar(c: char): (r: seq<Byte>)
  {
    var n := c as int;
    if n < 0x80 then [n]
    else if n < 0x800 then [0xC0 + n / 64, 0x80 + n % 64]
    else if n < 0x10000 then [0xE0 + n / 4096, 0x80 + n / 64 % 64, 0x80 + n % 64]
    else [0xF0 + n / 262144, 0x80 + n / 4096 % 64, 0x80 + n / 64 % 64, 0x80 + n % 64]
  }

  function Encode(s: string): (r: seq<Byte>)
  {
    if s == [] then [] else EncodeChar(s[0]) + Encode(s[1..])
  }

  /** How many bytes a sequence with this lead byte takes; 0 for a byte no sequence starts with. */
  function SequenceLength(lead: Byte): nat
  {
    if lead < 0x80 then 1
    else if 0xC2 <= lead < 0xE0 then 2
    else if 0xE0 <= lead < 0xF0 then 3
    else if 0xF0 <= lead < 0xF5 then 4
    else 0
  }

  predicate Continuation(b: Byte) { 0x80 <= b < 0xC0 }

  /** The second byte also rules out overlong forms, surrogates and values above U+10FFFF. */
  predicate SecondByteOk(lead: Byte, b: Byte)
  {
    && Continuation(b)
    && (lead == 0xE0 ==> 0xA0 <= b)
    && (lead == 0xED ==> b < 0xA0)
    && (lead == 0xF0 ==> 0x90 <= b)
    && (lead == 0xF4 ==> b < 0x90)
  }

  /** Length of the longest prefix of `b` that could still begin a well-formed sequence. */
  function ValidPrefix(b: seq<Byte>): (k: nat)
    requires b != []
    ensures 1 <= k <= |b|
  {
    var need := SequenceLength(b[0]);
    if need < 2 || |b| < 2 || !SecondByteOk(b[0], b[1]) then 1
    else if need < 3 || |b| < 3 || !Continuation(b[2]) then 2
    else if need < 4 || |b| < 4 || !Continuation(b[3]) then 3
    else 4
  }

  function SequenceValue(b: seq<Byte>): (n: int)
    requires b != [] && SequenceLength(b[0]) == ValidPrefix(b)
    ensures 0 <= n < 0xD800 || 0xE000 <= n < 0x11_0000
  {
    var at := (i: nat) requires i < |b| => b[i] as int;
    match SequenceLength(b[0])
    case 1 => at(0)
    case 2 => (at(0) - 0xC0) * 64 + (at(1) - 0x80)
    case 3 => (at(0) - 0xE0) * 4096 + (at(1) - 0x80) * 64 + (at(2) - 0x80)
    case _ => (at(0) - 0xF0) * 262144 + (at(1) - 0x80) * 4096 + (at(2) - 0x80) * 64 + (at(3) - 0x80)
  }

  const REPLACEMENT: char := 0xFFFD as char

  function DecodeFirst(b: seq<Byte>): char
    requires b != []
  {
    if SequenceLength(b[0]) == ValidPrefix(b) then SequenceValue(b) as char else REPLACEMENT
  }

  function Decode(b: seq<Byte>): (s: string)
  {
    if b == [] then [] else [DecodeFirst(b)] + Decode(b[ValidPrefix(b)..])
  }

  lemma SixBitDigits(n: int)
    requires 0 <= n
    ensures n == n / 64 * 64 + n % 64
    ensures n / 64 == n / 4096 * 64 + n / 64 % 64
    ensures n / 4096 == n / 262144 * 64 + n / 4096 % 64
  {
    assert n / 4096 == n / 64 / 64;
    assert n / 262144 == n / 4096 / 64;
  }

  lemma DecodeFirstInverts(c: char, rest: seq<Byte>)
    ensures ValidPrefix(EncodeChar(c) + rest) == |EncodeChar(c)|
    ensures DecodeFirst(EncodeChar(c) + rest) == c
  {
    var n := c as int;
    var e := EncodeChar(c);
    var b := e + rest;
    SixBitDigits(n);
    assert b[0] == e[0];
    if n < 0x80 {
    } else if n < 0x800 {
      assert b[1] == e[1];
      assert 0xC2 <= b[0] < 0xE0;
    } else if n < 0x10000 {
      assert b[1] == e[1] && b[2] == e[2];
      assert SecondByteOk(b[0], b[1]);
    } else {
      assert b[1] == e[1] && b[2] == e[2] && b[3] == e[3];
      assert SecondByteOk(b[0], b[1]);
    }
    assert SequenceValue(b) == n;
  }

  lemma DecodeOne(c: char, rest: seq<Byte>)
    ensures Decode(EncodeChar(c) + rest) == [c] + Decode(rest)
  {
    hide EncodeChar, DecodeFirst, ValidPrefix;
    var b := EncodeChar(c) + rest;
    DecodeFirstInverts(c, rest);
    assert b[|EncodeChar(c)|..] == rest;
  }

  /** Decoding undoes encoding, whatever bytes follow. */
  lemma {:induction false} DecodeInvertsEncode(s: string, rest: seq<Byte>)
    ensures Decode(Encode(s) + rest) == s + Decode(rest)
  {
    hide EncodeChar, DecodeFirst, ValidPrefix;
    if s == [] {
      assert Encode(s) + rest == rest;
    } else {
      var tail := Encode(s[1..]);
      calc {
        Decode(Encode(s) + rest);
        { assert Encode(s) + rest == EncodeChar(s[0]) + (tail + rest); }
        Decode(EncodeChar(s[0]) + (tail + rest));
        { DecodeOne(s[0], tail + rest); }
        [s[0]] + Decode(tail + rest);
        { DecodeInvertsEncode(s[1..], rest); }
        [s[0]] + (s[1..] + Decode(rest));
        { assert [s[0]] + (s[1..] + Decode(rest)) == s + Decode(rest); }
        s + Decode(rest);
      }
    }
  }

  lemma RoundTrip(s: string)
    ensures Decode(Encode(s)) == s
  {
    DecodeInvertsEncode(s, []);
    assert Encode(s) + [] == Encode(s);
  }

  lemma {:induction false} EncodeConcat(s: string, t: string)
    ensures Encode(s + t) == Encode(s) + Encode(t)
  {
    hide EncodeChar;
    if s == [] {
      assert s + t == t;
      assert Encode(s) + Encode(t) == Encode(t);
    } else {
      calc {
        Encode(s + t);
        { assert (s + t)[0] == s[0] && (s + t)[1..] == s[1..] + t; }
        EncodeChar(s[0]) + Encode(s[1..] + t);
        { EncodeConcat(s[1..], t); }
        EncodeChar(s[0]) + (Encode(s[1..]) + Encode(t));
        { assert EncodeChar(s[0]) + (Encode(s[1..]) + Encode(t)) == EncodeChar(s[0]) + Encode(s[1..]) + Encode(t); }
        Encode(s) + Encode(t);
      }
    }
  }

  /** An ASCII byte occurs in an encoding exactly when that ASCII character occurs in the text. */
  lemma {:induction false} AsciiByteIffChar(s: string, a: Byte)
    requires a < 0x80
    ensures a in Encode(s) <==> (a as char) in s
  {
    if s != [] {
      AsciiByteIffChar(s[1..], a);
      assert a in EncodeChar(s[0]) <==> s[0] as int == a;
      assert s == [s[0]] + s[1..];
    }
  }

  lemma {:induction false} AsciiOnly(s: string)
    requires forall c :: c in s ==> c as int < 0x80
    ensures |Encode(s)| == |s|
    ensures forall i :: 0 <= i < |s| ==> Encode(s)[i] == s[i] as int
  {
    if s != [] {
      assert forall c :: c in s[1..] ==> c in s;
      assert s[0] in s;
      AsciiOnly(s[1..]);
    }
  }
}
