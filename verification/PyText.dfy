/** The Python string operations the codecs rely on: `strip`, `split`, `partition`, slicing with
    negative bounds, `str(n)` and `int(s)` for decimal text. */
module PyText {

  datatype Option<+T> = None | Some(value: T)

  /** `str.isspace` for one character; `re`'s `\s` uses the same table. */
  predicate IsSpace(c: char)
  {
    var n := c as int;
    || 0x09 <= n <= 0x0D || 0x1C <= n <= 0x20 || n == 0x85 || n == 0xA0 || n == 0x1680
    || 0x2000 <= n <= 0x200A || n == 0x2028 || n == 0x2029 || n == 0x202F || n == 0x205F || n == 0x3000
  }

  function LStrip(s: string): (r: string)
    ensures |r| <= |s| && r == s[|s| - |r|..]
    ensures r != [] ==> !IsSpace(r[0])
  {
    if s != [] && IsSpace(s[0]) then LStrip(s[1..]) else s
  }

  function RStrip(s: string): (r: string)
    ensures |r| <= |s| && r == s[..|r|]
    ensures r != [] ==> !IsSpace(r[|r| - 1])
    ensures forall i :: |r| <= i < |s| ==> IsSpace(s[i])
  {
    if s != [] && IsSpace(s[|s| - 1]) then RStrip(s[..|s| - 1]) else s
  }

  function Strip(s: string): (r: string)
    ensures Trimmed(r)
    ensures |r| <= |s|
    ensures forall c :: c in r ==> c in s
  {
    RStrip(LStrip(s))
  }

  predicate Trimmed(s: string)
  {
    s != [] ==> !IsSpace(s[0]) && !IsSpace(s[|s| - 1])
  }

  /** `s.rstrip("\r")` */
  function DropTrailingCR(s: string): (r: string)
    ensures |r| <= |s| && r == s[..|r|]
    ensures r != [] ==> r[|r| - 1] != '\r'
  {
    if s != [] && s[|s| - 1] == '\r' then DropTrailingCR(s[..|s| - 1]) else s
  }

  lemma StripOfTrimmed(s: string)
    requires Trimmed(s)
    ensures Strip(s) == s && LStrip(s) == s && RStrip(s) == s
  {
  }

  /** Leading spaces before trimmed text disappear, and trailing ones too. */
  lemma StripOneSpace(s: string)
    requires Trimmed(s)
    ensures Strip([' '] + s) == s
  {
    assert ([' '] + s)[1..] == s;
    StripOfTrimmed(s);
  }

  // ---------------------------------------------------------------------------
  // Searching and splitting

  /** Index of the first `c` in `s`, or |s|. */
  function IndexOf<T(==)>(s: seq<T>, c: T): (i: nat)
    ensures i <= |s|
    ensures i < |s| ==> s[i] == c
    ensures forall j :: 0 <= j < i ==> s[j] != c
    ensures i < |s| <==> c in s
  {
    if s == [] then 0 else if s[0] == c then 0 else 1 + IndexOf(s[1..], c)
  }

  lemma IndexOfIn<T>(s: seq<T>, c: T, rest: seq<T>)
    requires c !in s
    ensures IndexOf(s + [c] + rest, c) == |s|
  {
    var t := s + [c] + rest;
    assert t[|s|] == c;
    assert forall j :: 0 <= j < |s| ==> t[j] == s[j];
  }

  predicate MatchAt<T(==)>(s: seq<T>, pat: seq<T>, i: nat)
  {
    i + |pat| <= |s| && s[i..i + |pat|] == pat
  }

  /** `s.find(pat)` from position `i` on. */
  function FindFrom<T(==)>(s: seq<T>, pat: seq<T>, i: nat): (r: Option<nat>)
    requires i <= |s|
    ensures r.Some? ==> i <= r.value && MatchAt(s, pat, r.value)
    ensures r.Some? ==> forall j: nat :: i <= j < r.value ==> !MatchAt(s, pat, j)
    ensures r.None? ==> forall j: nat :: i <= j <= |s| ==> !MatchAt(s, pat, j)
    decreases |s| - i
  {
    if MatchAt(s, pat, i) then Some(i)
    else if i == |s| then None
    else FindFrom(s, pat, i + 1)
  }

  /** `s.split("\n")` */
  function SplitLines(s: string): (r: seq<string>)
    ensures r != []
  {
    var i := IndexOf(s, '\n');
    if i == |s| then [s] else [s[..i]] + SplitLines(s[i + 1..])
  }

  /** Python's `s[:n]`, `s[n:]` and `s[m:n]`, where a negative bound counts from the end. */
  function Bound(size: nat, n: int): (i: nat)
    ensures i <= size
  {
    if n < 0 then (if size + n < 0 then 0 else size + n)
    else if n > size then size
    else n
  }

  function SliceTo<T>(s: seq<T>, n: int): seq<T> { s[..Bound(|s|, n)] }

  function SliceFrom<T>(s: seq<T>, n: int): seq<T> { s[Bound(|s|, n)..] }

  function Slice<T>(s: seq<T>, m: int, n: int): seq<T>
  {
    if Bound(|s|, m) <= Bound(|s|, n) then s[Bound(|s|, m)..Bound(|s|, n)] else []
  }

  // ---------------------------------------------------------------------------
  // Decimal integers

  predicate IsDigit(c: char) { '0' <= c <= '9' }

  function DigitChar(d: nat): char requires d < 10 { ('0' as int + d) as char }

  /** `str(n)` for n >= 0 */
  function Decimal(n: nat): (s: string)
    ensures s != [] && forall c :: c in s ==> IsDigit(c)
  {
    if n < 10 then [DigitChar(n)] else Decimal(n / 10) + [DigitChar(n % 10)]
  }

  /** Digits with single underscores between them, read from the right. */
  function UnsignedInt(s: string): (r: Option<nat>)
  {
    if s == [] || !IsDigit(s[|s| - 1]) then None
    else
      var d := s[|s| - 1] as int - '0' as int;
      var init := s[..|s| - 1];
      if init == [] then Some(d)
      else
        var more := if init[|init| - 1] == '_' then init[..|init| - 1] else init;
        match UnsignedInt(more)
        case None => None
        case Some(v) => Some(10 * v + d)
  }

  /** `int(s)`; None is its ValueError. */
  function ParseInt(s: string): (r: Option<int>)
  {
    var t := Strip(s);
    var signed := t != [] && (t[0] == '-' || t[0] == '+');
    match UnsignedInt(if signed then t[1..] else t)
    case None => None
    case Some(n) => var v: int := n; Some(if signed && t[0] == '-' then -v else v)
  }

  lemma {:induction false} UnsignedDecimal(n: nat)
    ensures UnsignedInt(Decimal(n)) == Some(n)
  {
    if n >= 10 {
      UnsignedDecimal(n / 10);
      var s := Decimal(n);
      assert s[..|s| - 1] == Decimal(n / 10);
      assert s[|s| - 1] == DigitChar(n % 10);
      var init := Decimal(n / 10);
      assert init[|init| - 1] in init;
    }
  }

  lemma DecimalRoundTrip(n: nat)
    ensures ParseInt(Decimal(n)) == Some(n)
    ensures Trimmed(Decimal(n))
  {
    var s := Decimal(n);
    assert s[0] in s && s[|s| - 1] in s;
    StripOfTrimmed(s);
    UnsignedDecimal(n);
  }
}
