/** How ill-formed bytes are decoded: one U+FFFD for each longest stretch that could have begun a character. */
module Utf8Replacement {
  import opened Utf8

  /** The bytes begin the encoding of some character. */
  ghost predicate Begins(b: seq<Byte>) { exists c :: b <= EncodeChar(c) }

  /** The first k bytes are the longest beginning of a character there is, or one byte when no character begins so. */
  ghost predicate LongestBeginning(b: seq<Byte>, k: nat)
  {
    && 1 <= k <= |b| && (k > 1 ==> Begins(b[..k]))
    && forall j :: k < j <= |b| ==> !Begins(b[..j])
  }

  /** What the bytes of an encoded character look like. */
  lemma EncodedShape(c: char)
    ensures var e := EncodeChar(c);
      && 1 <= |e| <= 4 && SequenceLength(e[0]) == |e| && (|e| >= 2 ==> SecondByteOk(e[0], e[1]))
      && (|e| >= 3 ==> Continuation(e[2])) && (|e| >= 4 ==> Continuation(e[3]))
  {
    SixBitDigits(c as int);
  }

  lemma BeginningIsValid(b: seq<Byte>, j: nat)
    requires 1 <= j <= |b| && Begins(b[..j])
    ensures ValidPrefix(b) >= j
  {
    var c :| b[..j] <= EncodeChar(c);
    var e := EncodeChar(c);
    EncodedShape(c);
    forall i | 0 <= i < j
      ensures b[i] == e[i]
    {
      assert b[..j][i] == e[i];
    }
  }

  /** Two bytes with the right lead and second byte, and continuations after them, encode a character. */
  lemma TwoBegin(a: Byte, b: Byte)
    requires SequenceLength(a) == 2 && SecondByteOk(a, b)
    ensures EncodeChar(((a - 0xC0) * 64 + (b - 0x80)) as char) == [a, b]
  {
  }

  lemma ThreeBegin(a: Byte, b: Byte, d: Byte)
    requires SequenceLength(a) == 3 && SecondByteOk(a, b) && Continuation(d)
    ensures var n := (a - 0xE0) * 4096 + (b - 0x80) * 64 + (d - 0x80);
      (0 <= n < 0xD800 || 0xE000 <= n < 0x11_0000) && EncodeChar(n as char) == [a, b, d]
  {
    SixBits(0, a - 0xE0, b - 0x80, d - 0x80) by { ContinuationIs(b, d, d); }
  }

  lemma FourBegin(a: Byte, b: Byte, d: Byte, e: Byte)
    requires SequenceLength(a) == 4 && SecondByteOk(a, b) && Continuation(d) && Continuation(e)
    ensures var n := (a - 0xF0) * 262144 + (b - 0x80) * 4096 + (d - 0x80) * 64 + (e - 0x80);
      (0 <= n < 0xD800 || 0xE000 <= n < 0x11_0000) && EncodeChar(n as char) == [a, b, d, e]
  {
    hide Continuation;
    SixBits(a - 0xF0, b - 0x80, d - 0x80, e - 0x80) by { ContinuationIs(b, d, e); }
  }

  lemma ContinuationIs(b: Byte, d: Byte, e: Byte)
    requires Continuation(b) && Continuation(d) && Continuation(e)
    ensures 0x80 <= b < 0xC0 && 0x80 <= d < 0xC0 && 0x80 <= e < 0xC0
  {
  }

  lemma SixBits(x: int, y: int, z: int, w: int)
    requires 0 <= x && 0 <= y < 64 && 0 <= z < 64 && 0 <= w < 64
    ensures var n := x * 262144 + y * 4096 + z * 64 + w;
      n / 262144 == x && n / 4096 == x * 64 + y && n / 4096 % 64 == y && n / 64 % 64 == z && n % 64 == w
  {
    var n := x * 262144 + y * 4096 + z * 64 + w;
    SixBitDigits(n);
    SameDigits(x * 4096 + y * 64 + z, w, n / 64, n % 64);
    SameDigits(x * 64 + y, z, n / 4096, n / 64 % 64);
    SameDigits(x, y, n / 262144, n / 4096 % 64);
  }

  lemma SameDigits(q: int, r: int, q': int, r': int)
    requires q * 64 + r == q' * 64 + r' && 0 <= r < 64 && 0 <= r' < 64
    ensures q == q' && r == r'
  {
  }

  lemma ValidBegins(b: seq<Byte>)
    requires b != [] && ValidPrefix(b) > 1
    ensures Begins(b[..ValidPrefix(b)])
  {
    var k, need := ValidPrefix(b), SequenceLength(b[0]);
    if need == 2 {
      TwoBegin(b[0], b[1]);
      assert b[..k] == [b[0], b[1]];
    } else if need == 3 {
      var d := if k > 2 then b[2] else 0x80;
      ThreeBegin(b[0], b[1], d);
      assert b[..k] <= [b[0], b[1], d];
    } else {
      var d, e := if k > 2 then b[2] else 0x80, if k > 3 then b[3] else 0x80;
      FourBegin(b[0], b[1], d, e);
      assert b[..k] <= [b[0], b[1], d, e];
    }
  }

  lemma PrefixIsLongest(b: seq<Byte>)
    requires b != []
    ensures LongestBeginning(b, ValidPrefix(b))
  {
    hide ValidPrefix;
    var k := ValidPrefix(b);
    if k > 1 {
      ValidBegins(b);
    }
    forall j | k < j <= |b|
      ensures !Begins(b[..j])
    {
      if Begins(b[..j]) {
        BeginningIsValid(b, j);
      }
    }
  }

  lemma WholeIsEncoded(b: seq<Byte>)
    requires b != [] && SequenceLength(b[0]) == ValidPrefix(b)
    ensures EncodeChar(DecodeFirst(b)) <= b
  {
    match SequenceLength(b[0]) {
      case 1 =>
      case 2 => TwoBegin(b[0], b[1]);
      case 3 => ThreeBegin(b[0], b[1], b[2]);
      case _ => FourBegin(b[0], b[1], b[2], b[3]);
    }
  }

  /** Bytes that start with an encoded character decode to it and then the rest; others to U+FFFD and then what
      comes after the longest stretch that could have begun a character. */
  lemma DecodesExactly(b: seq<Byte>)
    requires b != []
    ensures forall c :: EncodeChar(c) <= b ==> Decode(b) == [c] + Decode(b[|EncodeChar(c)|..])
    ensures (forall c :: !(EncodeChar(c) <= b)) ==>
      exists k: nat :: LongestBeginning(b, k) && Decode(b) == [0xFFFD as char] + Decode(b[k..])
  {
    hide EncodeChar, LongestBeginning, ValidPrefix, DecodeFirst;
    forall c | EncodeChar(c) <= b
      ensures Decode(b) == [c] + Decode(b[|EncodeChar(c)|..])
    {
      var rest := b[|EncodeChar(c)|..];
      assert b == EncodeChar(c) + rest;
      DecodeOne(c, rest);
    }
    PrefixIsLongest(b);
    if forall c :: !(EncodeChar(c) <= b) {
      FirstIsReplaced(b);
    }
  }

  lemma FirstIsReplaced(b: seq<Byte>)
    requires b != [] && forall c :: !(EncodeChar(c) <= b)
    ensures DecodeFirst(b) == 0xFFFD as char
  {
    hide EncodeChar, ValidPrefix;
    if SequenceLength(b[0]) == ValidPrefix(b) {
      WholeIsEncoded(b);
      assert false;
    }
  }
}
