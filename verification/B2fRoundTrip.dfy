/** Parsing undoes building, under LF and under CRLF framing, exactly when every filename can stand
    on a `File:` line. */
module B2fRoundTrip {
  import opened PyText
  import opened Utf8
  import opened B2f
  import opened B2fHeaderLaws

  predicate Eol(eol: string) { eol == "\n" || eol == "\r\n" }

  // ---------------------------------------------------------------------------
  // Finding the blank line

  /** Bytes with no newline at either end and no two newlines in a row. */
  predicate Quiet(b: seq<Byte>)
  {
    && b != [] && b[0] !in {10, 13} && b[|b| - 1] !in {10, 13}
    && forall j :: 0 <= j < |b| - 1 && b[j] == 10 ==> b[j + 1] !in {10, 13}
  }

  predicate Inline(line: string)
  {
    line != [] && '\n' !in line && '\r' !in line
  }

  lemma EncodeInline(line: string)
    requires Inline(line)
    ensures Encode(line) != [] && 10 !in Encode(line) && 13 !in Encode(line)
  {
    AsciiByteIffChar(line, 10);
    AsciiByteIffChar(line, 13);
  }

  lemma EncodeEol(eol: string)
    requires Eol(eol)
    ensures Encode(eol) == if eol == "\n" then LF else CRLF
  {
    if eol == "\n" {
      assert Encode("\n") == EncodeChar('\n') + Encode([]);
    } else {
      assert eol[1..] == "\n" && "\n"[1..] == [];
      assert Encode(eol) == EncodeChar('\r') + (EncodeChar('\n') + Encode([]));
    }
  }

  lemma QuietAcross(a: seq<Byte>, nl: seq<Byte>, b: seq<Byte>)
    requires a != [] && 10 !in a && 13 !in a && (nl == LF || nl == CRLF) && Quiet(b)
    ensures Quiet(a + nl + b)
  {
    var t := a + nl + b;
    assert forall j :: 0 <= j < |a| ==> t[j] == a[j] && a[j] in a;
    assert t[|a|..|a| + |nl|] == nl;
    assert forall j :: |a| + |nl| <= j < |t| ==> t[j] == b[j - |a| - |nl|];
    forall j | 0 <= j < |t| - 1 && t[j] == 10
      ensures t[j + 1] !in {10, 13}
    {
      assert j >= |a|;
      assert j < |a| + |nl| ==> t[|a|..|a| + |nl|][j - |a|] == 10;
    }
    assert t[0] == a[0] && a[0] in a;
    assert t[|t| - 1] == b[|b| - 1];
  }

  lemma NoMatch(s: seq<Byte>, pat: seq<Byte>, i: nat, k: nat)
    requires k < |pat| && i + k < |s| && s[i + k] != pat[k]
    ensures !MatchAt(s, pat, i)
  {
    assert i + |pat| <= |s| ==> s[i..i + |pat|][k] == s[i + k];
  }

  lemma {:induction false} NoBlankLineInQuiet(b: seq<Byte>, nl: seq<Byte>, payload: seq<Byte>, j: nat)
    requires Quiet(b) && (nl == LF || nl == CRLF) && j < |b|
    ensures !MatchAt(b + nl + nl + payload, LF + LF, j)
    ensures !MatchAt(b + nl + nl + payload, CRLF + CRLF, j)
  {
    var raw := b + nl + nl + payload;
    assert forall k :: 0 <= k < |b| ==> raw[k] == b[k];
    if b[j] != 10 {
      NoMatch(raw, LF + LF, j, 0);
    } else {
      NoMatch(raw, LF + LF, j, 1);
    }
    if b[j] != 13 {
      NoMatch(raw, CRLF + CRLF, j, 0);
    } else if b[j + 1] != 10 {
      NoMatch(raw, CRLF + CRLF, j, 1);
    } else {
      NoMatch(raw, CRLF + CRLF, j, 2);
    }
  }

  lemma Between(b: seq<Byte>, nl: seq<Byte>, payload: seq<Byte>)
    requires nl != []
    ensures MatchAt(b + nl + nl + payload, nl + nl, |b|) && (b + nl + nl + payload)[|b|] == nl[0]
  {
    var raw := b + nl + nl + payload;
    assert raw == b + (nl + nl) + payload;
    assert raw[|b|..|b| + |nl + nl|] == nl + nl;
  }

  /** A quiet block followed by an empty line ends where the parser looks for it to end. */
  lemma {:induction false} SeparatorAfterQuiet(b: seq<Byte>, nl: seq<Byte>, payload: seq<Byte>)
    requires Quiet(b) && (nl == LF || nl == CRLF)
    ensures Separator(b + nl + nl + payload) == Some((|b|, 2 * |nl|))
  {
    hide Quiet, MatchAt;
    var raw := b + nl + nl + payload;
    forall j: nat | j < |b|
      ensures !MatchAt(raw, LF + LF, j) && !MatchAt(raw, CRLF + CRLF, j)
    {
      NoBlankLineInQuiet(b, nl, payload, j);
    }
    Between(b, nl, payload);
    if nl == LF {
      NoMatch(raw, CRLF + CRLF, |b|, 0);
    } else {
      NoMatch(raw, LF + LF, |b|, 0);
    }
    assert MatchAt(raw, nl + nl, |b|);
  }

  // ---------------------------------------------------------------------------
  // Reading the header block back

  /** The header lines without the newline that ends the last of them. */
  function Joined(pairs: seq<(string, string)>, eol: string): string
    requires pairs != []
  {
    if |pairs| == 1 then HeaderLine(pairs[0]) else HeaderLine(pairs[0]) + eol + Joined(pairs[1..], eol)
  }

  /** A field the parser reads back as it was written. */
  predicate GoodPair(p: (string, string))
  {
    && p.0 != [] && Trimmed(p.0) && Inline(p.0) && ':' !in p.0
    && Trimmed(p.1) && '\n' !in p.1 && '\r' !in p.1
    && (LowerAscii(p.0) == "body" ==> ParseInt(p.1).Some?)
  }

  predicate GoodPairs(pairs: seq<(string, string)>)
  {
    forall i :: 0 <= i < |pairs| ==> GoodPair(pairs[i])
  }

  function WithPair(st: HeaderState, p: (string, string)): HeaderState
  {
    HeaderState(st.headers[p.0 := p.1], if LowerAscii(p.0) == "body" then ParseInt(p.1) else st.bodyLength)
  }

  function WithPairs(st: HeaderState, pairs: seq<(string, string)>): HeaderState
    decreases |pairs|
  {
    if pairs == [] then st else WithPairs(WithPair(st, pairs[0]), pairs[1..])
  }

  lemma {:induction false} HeaderLinesAreJoined(pairs: seq<(string, string)>, eol: string)
    requires pairs != []
    ensures HeaderLines(pairs, eol) == Joined(pairs, eol) + eol
  {
    hide HeaderLine;
    var first := HeaderLine(pairs[0]);
    if |pairs| == 1 {
      assert HeaderLines(pairs[1..], eol) == [];
    } else {
      HeaderLinesAreJoined(pairs[1..], eol);
      assert first + eol + (Joined(pairs[1..], eol) + eol) == first + eol + Joined(pairs[1..], eol) + eol;
    }
  }

  lemma LineIsInline(p: (string, string))
    requires GoodPair(p)
    ensures Inline(HeaderLine(p))
  {
    hide ParseInt, LowerAscii, IsSpace;
    var line := HeaderLine(p);
    assert forall c :: c in line ==> c in p.0 || c in ": " || c in p.1;
  }

  lemma {:induction false} JoinedIsQuiet(pairs: seq<(string, string)>, eol: string)
    requires pairs != [] && GoodPairs(pairs) && Eol(eol)
    ensures Quiet(Encode(Joined(pairs, eol)))
  {
    hide HeaderLine, GoodPair, Quiet, Encode, Inline;
    var first := HeaderLine(pairs[0]);
    LineIsInline(pairs[0]);
    EncodeInline(first);
    if |pairs| == 1 {
      InlineIsQuiet(Encode(first));
    } else {
      var more := Joined(pairs[1..], eol);
      JoinedIsQuiet(pairs[1..], eol);
      EncodeEol(eol);
      EncodeConcat(first + eol, more);
      EncodeConcat(first, eol);
      QuietAcross(Encode(first), Encode(eol), Encode(more));
    }
  }

  lemma InlineIsQuiet(b: seq<Byte>)
    requires b != [] && 10 !in b && 13 !in b
    ensures Quiet(b)
  {
  }

  lemma FirstColon(p: (string, string))
    requires ':' !in p.0
    ensures ':' in HeaderLine(p) && IndexOf(HeaderLine(p), ':') == |p.0|
    ensures HeaderLine(p)[..|p.0|] == p.0 && HeaderLine(p)[|p.0| + 1..] == " " + p.1
  {
    var line := HeaderLine(p);
    assert line == p.0 + [':'] + (" " + p.1);
    IndexOfIn(p.0, ':', " " + p.1);
  }

  lemma NoTrailingCR(line: string, cr: string)
    requires line != [] && line[|line| - 1] != '\r' && (cr == "" || cr == "\r")
    ensures DropTrailingCR(line + cr) == line
  {
    assert (line + "\r")[..|line|] == line;
    assert line + "" == line;
  }

  lemma StripNotEmpty(s: string)
    requires s != [] && !IsSpace(s[0])
    ensures Strip(s) != []
  {
    assert LStrip(s) == s;
    assert 0 < |RStrip(s)|;
  }

  lemma ReadHeaderLine(st: HeaderState, p: (string, string), cr: string)
    requires GoodPair(p) && (cr == "" || cr == "\r")
    ensures ReadHeader(st, HeaderLine(p) + cr) == Headers(WithPair(st, p))
  {
    hide IsSpace, LowerAscii, ParseInt, IndexOf, DropTrailingCR, Strip;
    var line := HeaderLine(p);
    LineIsInline(p);
    assert line[|line| - 1] in line;
    NoTrailingCR(line, cr);
    assert line[0] == p.0[0];
    StripNotEmpty(line);
    FirstColon(p);
    StripOfTrimmed(p.0);
    StripOneSpace(p.1);
    assert [' '] + p.1 == " " + p.1;
  }

  lemma {:induction false} SplitFirstLine(line: string, more: string)
    requires '\n' !in line
    ensures SplitLines(line + "\n" + more) == [line] + SplitLines(more)
  {
    hide SplitLines;
    var s := line + "\n" + more;
    IndexOfIn(line, '\n', more);
    assert s == line + ['\n'] + more;
    assert s[..|line|] == line && s[|line| + 1..] == more;
    SplitLinesAt(s, |line|);
  }

  lemma {:induction false} SplitLinesAt(s: string, i: nat)
    requires i < |s| && i == IndexOf(s, '\n')
    ensures SplitLines(s) == [s[..i]] + SplitLines(s[i + 1..])
  {
    hide IndexOf;
  }

  lemma {:induction false} ReadJoined(st: HeaderState, pairs: seq<(string, string)>, eol: string)
    requires pairs != [] && GoodPairs(pairs) && Eol(eol)
    ensures ReadHeaders(st, SplitLines(Joined(pairs, eol))) == Headers(WithPairs(st, pairs))
    decreases |pairs|
  {
    hide HeaderLine, GoodPair, WithPair, ReadHeader;
    var first := HeaderLine(pairs[0]);
    LineIsInline(pairs[0]);
    if |pairs| == 1 {
      ReadHeaderLine(st, pairs[0], "");
      assert first + "" == first;
      assert SplitLines(first) == [first];
      assert pairs[1..] == [] && [first][1..] == [];
    } else {
      var cr := if eol == "\n" then "" else "\r";
      var more := Joined(pairs[1..], eol);
      assert first + eol + more == (first + cr) + "\n" + more;
      SplitFirstLine(first + cr, more);
      ReadHeaderLine(st, pairs[0], cr);
      ReadJoined(WithPair(st, pairs[0]), pairs[1..], eol);
      assert ([first + cr] + SplitLines(more))[1..] == SplitLines(more);
    }
  }

  // ---------------------------------------------------------------------------
  // Reading the sections back

  /** What can stand as the name on a `File:` line. */
  predicate GoodName(name: string)
  {
    name != [] && Trimmed(name) && '\n' !in name
  }

  function FileSpec(a: Attachment): string { Decimal(|a.data|) + " " + a.filename }

  lemma SplitAtSpace(digits: string, name: string)
    requires ' ' !in digits
    ensures var spec := digits + " " + name;
      && ' ' in spec && IndexOf(spec, ' ') == |digits| && spec[..|digits|] == digits && spec[|digits| + 1..] == name
  {
    hide IndexOf;
    IndexOfIn(digits, ' ', name);
    assert digits + " " + name == digits + [' '] + name;
  }

  lemma TwoWords(n: string, name: string)
    requires n != [] && name != [] && Trimmed(n) && Trimmed(name) && '\n' !in n && '\n' !in name
    ensures Trimmed(n + " " + name) && '\n' !in n + " " + name
    ensures (n + " " + name)[|n + " " + name| - 1] != '\r'
  {
    hide IsSpace;
    var s := n + " " + name;
    CarriageReturnIsSpace();
    assert s[0] == n[0];
    assert s[|s| - 1] == name[|name| - 1];
  }

  lemma FileSpecTrimmed(a: Attachment)
    requires GoodName(a.filename)
    ensures Trimmed(FileSpec(a)) && '\n' !in FileSpec(a) && FileSpec(a)[|FileSpec(a)| - 1] != '\r'
  {
    hide Decimal, Trimmed;
    DecimalRoundTrip(|a.data|);
    DigitsHaveNoSpace(|a.data|);
    TwoWords(Decimal(|a.data|), a.filename);
  }

  lemma FileLineParts(a: Attachment)
    requires GoodName(a.filename)
    ensures '\n' !in FileLine(a) && FileLine(a)[|FileLine(a)| - 1] != '\r'
    ensures "File:" <= FileLine(a) && Strip(FileLine(a)[5..]) == FileSpec(a)
  {
    hide Trimmed, Strip;
    var spec := FileSpec(a);
    var line := FileLine(a);
    FileSpecTrimmed(a);
    LineIsSpec(a);
    assert line[5..] == [' '] + spec;
    StripOneSpace(spec);
    assert line[|line| - 1] == spec[|spec| - 1];
  }

  lemma LineIsSpec(a: Attachment)
    ensures FileLine(a) == "File:" + ([' '] + FileSpec(a))
  {
    hide Decimal;
  }

  lemma CarriageReturnIsSpace()
    ensures IsSpace('\r')
  {
  }

  lemma DigitsHaveNoSpace(n: nat)
    ensures ' ' !in Decimal(n) && '\n' !in Decimal(n) && '\r' !in Decimal(n)
  {
  }

  /** The text of a section after its leading newline, up to and including the data. */
  lemma SectionBytes(a: Attachment, eol: string, more: seq<Byte>)
    requires Eol(eol)
    ensures var cr := if eol == "\n" then "" else "\r";
      FileSection(a, eol) + more == Encode(eol) + (Encode(FileLine(a) + cr) + [10] + (a.data + more))
  {
    hide FileLine, Encode;
    var cr := if eol == "\n" then "" else "\r";
    var line := FileLine(a);
    assert eol + line + eol == eol + ((line + cr) + "\n");
    EncodeConcat(eol, (line + cr) + "\n");
    EncodeConcat(line + cr, "\n");
    EncodeEol("\n");
    assert Encode(eol) + (Encode(line + cr) + [10]) + a.data + more
        == Encode(eol) + (Encode(line + cr) + [10] + (a.data + more));
  }

  lemma SkipsOneNewline(nl: seq<Byte>, text: seq<Byte>)
    requires nl == LF || nl == CRLF
    ensures SeparatorLength(nl + text) == |nl| && (nl + text)[|nl|..] == text
  {
    if nl == LF {
      assert (nl + text)[0] == 10;
      assert LF <= nl + text;
    } else {
      assert CRLF <= nl + text;
    }
  }

  lemma ReadFileAs(line: string, digits: string, name: string, length: int, text: seq<Byte>, start: nat)
    requires start <= |text| && start + length <= |text| && "File:" <= line && name != ""
    requires var spec := Strip(line[5..]);
      && ' ' in spec && digits == spec[..IndexOf(spec, ' ')] && name == Strip(spec[IndexOf(spec, ' ') + 1..])
    requires ParseInt(digits) == Some(length)
    ensures ReadFile(line, text, start)
         == Read(Attachment(name, Slice(text, start, start + length)), length, SliceFrom(text, start + length))
  {
    hide ParseInt, IndexOf, Strip, Slice, SliceFrom;
  }

  lemma FileLineFields(a: Attachment)
    requires GoodName(a.filename)
    ensures "File:" <= FileLine(a)
    ensures var spec := Strip(FileLine(a)[5..]);
      && ' ' in spec && Decimal(|a.data|) == spec[..IndexOf(spec, ' ')]
      && a.filename == Strip(spec[IndexOf(spec, ' ') + 1..])
  {
    hide FileLine, Strip, IndexOf, Decimal, IsSpace, Trimmed;
    FileLineParts(a);
    DigitsHaveNoSpace(|a.data|);
    SplitAtSpace(Decimal(|a.data|), a.filename);
    StripOfTrimmed(a.filename);
  }

  lemma ReadBuiltFile(a: Attachment, head: seq<Byte>, more: seq<Byte>)
    requires GoodName(a.filename)
    ensures ReadFile(FileLine(a), head + a.data + more, |head|) == Read(a, |a.data|, more)
  {
    hide FileLine, Strip, IndexOf, ParseInt, Decimal, IsSpace, Trimmed, ReadFile, Slice, SliceFrom;
    FileLineFields(a);
    DecimalRoundTrip(|a.data|);
    DataSlice(head, a.data, more);
    ReadFileAs(FileLine(a), Decimal(|a.data|), a.filename, |a.data|, head + a.data + more, |head|);
  }

  lemma {:induction false} LineThenData(line: string, cr: string, tail: seq<Byte>)
    requires line != [] && '\n' !in line && line[|line| - 1] != '\r' && (cr == "" || cr == "\r")
    ensures var head := Encode(line + cr); var text := head + [10] + tail;
      10 in text && IndexOf(text, 10) == |head| && DropTrailingCR(Decode(text[..|head|])) == line
  {
    hide Encode, Decode, IndexOf, DropTrailingCR;
    var head := Encode(line + cr);
    assert '\n' !in line + cr;
    AsciiByteIffChar(line + cr, 10);
    IndexOfIn(head, 10, tail);
    assert (head + [10] + tail)[..|head|] == head;
    RoundTrip(line + cr);
    NoTrailingCR(line, cr);
  }

  lemma ReadSectionAs(rest: seq<Byte>, skip: nat, at: nat, line: string)
    requires rest != [] && skip == SeparatorLength(rest) && 10 in rest[skip..] && at == IndexOf(rest[skip..], 10)
    requires line == DropTrailingCR(Decode(rest[skip..][..at]))
    ensures ReadSection(rest) == ReadFile(line, rest[skip..], at + 1)
  {
    hide Decode, IndexOf, DropTrailingCR, SeparatorLength, ReadFile;
  }

  lemma ReadSectionAfter(nl: seq<Byte>, line: string, cr: string, tail: seq<Byte>)
    requires nl == LF || nl == CRLF
    requires line != [] && '\n' !in line && line[|line| - 1] != '\r' && (cr == "" || cr == "\r")
    ensures var head := Encode(line + cr);
      ReadSection(nl + (head + [10] + tail)) == ReadFile(line, head + [10] + tail, |head| + 1)
  {
    hide Encode, Decode, IndexOf, DropTrailingCR, SeparatorLength, ReadFile, ReadSection;
    var text := Encode(line + cr) + [10] + tail;
    SkipsOneNewline(nl, text);
    LineThenData(line, cr, tail);
    ReadSectionAs(nl + text, |nl|, |Encode(line + cr)|, line);
  }

  /** One pass over a built section gives the attachment back and leaves what follows. */
  lemma ReadBuiltSection(a: Attachment, eol: string, more: seq<Byte>)
    requires Eol(eol) && GoodName(a.filename)
    ensures FileSection(a, eol) + more != []
    ensures ReadSection(FileSection(a, eol) + more) == Read(a, |a.data|, more)
  {
    hide FileLine, Encode, FileSection, ReadFile, GoodName, ReadSection;
    var cr := if eol == "\n" then "" else "\r";
    var head := Encode(FileLine(a) + cr);
    SectionBytes(a, eol, more);
    EncodeEol(eol);
    FileLineParts(a);
    ReadSectionAfter(Encode(eol), FileLine(a), cr, a.data + more);
    ReadBuiltFile(a, head + [10], more);
    Regroup(head + [10], a.data, more);
  }

  lemma DataSlice(head: seq<Byte>, data: seq<Byte>, more: seq<Byte>)
    ensures Slice(head + data + more, |head|, |head| + |data|) == data
    ensures SliceFrom(head + data + more, |head| + |data|) == more
  {
  }

  lemma {:induction false} ReadBuiltSections(atts: seq<Attachment>, eol: string, done: seq<Attachment>)
    requires Eol(eol) && forall i :: 0 <= i < |atts| ==> GoodName(atts[i].filename)
    ensures ReadSections(FileSections(atts, eol), done) == Sections(done + atts)
    decreases |atts|
  {
    hide FileSection, ReadSection, GoodName;
    if atts == [] {
      assert done + atts == done;
    } else {
      var more := FileSections(atts[1..], eol);
      ReadBuiltSection(atts[0], eol, more);
      ReadBuiltSections(atts[1..], eol, done + [atts[0]]);
      assert done + [atts[0]] + atts[1..] == done + atts;
      assert |FileSection(atts[0], eol)| > 0 by {
        ReadBuiltSection(atts[0], eol, []);
        assert FileSection(atts[0], eol) + [] == FileSection(atts[0], eol);
      }
    }
  }

  // ---------------------------------------------------------------------------
  // The law

  /** What a faithful transport of the draft delivers. */
  function Delivered(d: Draft): Message
  {
    Message(
      map["Mid" := HeaderSafe(d.messageId), "From" := HeaderSafe(d.fromAddr), "To" := HeaderSafe(d.toAddr),
          "Subject" := HeaderSafe(d.subject), "Mbo" := HeaderSafe(d.mbo), "Date" := HeaderSafe(d.date),
          "Body" := Decimal(|Encode(d.body)|)],
      d.body, d.attachments)
  }

  predicate NamesGood(atts: seq<Attachment>)
  {
    forall i :: 0 <= i < |atts| ==> GoodName(atts[i].filename)
  }

  lemma LettersAreGoodKey(key: string)
    requires key != [] && forall i :: 0 <= i < |key| ==> 'A' <= key[i] <= 'z'
    ensures GoodKey(key)
  {
  }

  predicate GoodKey(key: string)
  {
    key != [] && Trimmed(key) && Inline(key) && ':' !in key
  }

  lemma NotBody(key: string)
    requires |key| != 4 || key[0] == 'F' || key[0] == 'D'
    ensures LowerAscii(key) != "body"
  {
    LowerLength(key);
    assert key != [] ==> LowerAscii(key)[0] == if 'A' <= key[0] <= 'Z' then (key[0] as int + 32) as char else key[0];
  }

  lemma LowerLength(s: string)
    ensures |LowerAscii(s)| == |s|
  {
  }

  lemma LowerBody()
    ensures LowerAscii("Body") == "body"
  {
    var s := "Body";
    assert s[1..] == "ody" && s[1..][1..] == "dy" && s[1..][1..][1..] == "y" && s[1..][1..][1..][1..] == "";
    assert LowerAscii("y") == "y";
    assert LowerAscii("dy") == "dy";
    assert LowerAscii("ody") == "ody";
  }

  lemma FieldIsGood(key: string, value: string)
    requires key != [] && forall i :: 0 <= i < |key| ==> 'A' <= key[i] <= 'z'
    requires |key| != 4 || key[0] == 'F' || key[0] == 'D'
    ensures GoodPair((key, HeaderSafe(value))) && LowerAscii(key) != "body"
  {
    hide HeaderSafe, LowerAscii, ParseInt, IsSpace;
    LettersAreGoodKey(key);
    NotBody(key);
    HeaderSafeIsOneLine(value);
  }

  lemma BodyIsGood(n: nat)
    ensures GoodPair(("Body", Decimal(n))) && LowerAscii("Body") == "body"
  {
    hide Decimal, LowerAscii, ParseInt, IsSpace;
    LettersAreGoodKey("Body");
    LowerBody();
    DecimalRoundTrip(n);
    DigitsHaveNoSpace(n);
  }

  lemma HeaderPairsGood(d: Draft)
    ensures GoodPairs(HeaderPairs(d))
  {
    hide HeaderSafe, Decimal, GoodPair, Encode, LowerAscii;
    var p := HeaderPairs(d);
    FieldIsGood("Mid", d.messageId);
    assert GoodPair(p[0]);
    FieldIsGood("From", d.fromAddr);
    assert GoodPair(p[1]);
    FieldIsGood("To", d.toAddr);
    assert GoodPair(p[2]);
    FieldIsGood("Subject", d.subject);
    assert GoodPair(p[3]);
    FieldIsGood("Mbo", d.mbo);
    assert GoodPair(p[4]);
    FieldIsGood("Date", d.date);
    assert GoodPair(p[5]);
    BodyIsGood(|Encode(d.body)|);
    assert GoodPair(p[6]);
  }

  lemma PairsCollected(d: Draft)
    ensures WithPairs(HeaderState(map[], None), HeaderPairs(d))
         == HeaderState(Delivered(d).headers, Some(|Encode(d.body)|))
  {
    hide HeaderSafe, Decimal, Encode, LowerAscii, ParseInt;
    var p := HeaderPairs(d);
    NotBody("Mid"); NotBody("From"); NotBody("To"); NotBody("Subject"); NotBody("Mbo"); NotBody("Date");
    LowerBody();
    DecimalRoundTrip(|Encode(d.body)|);
    var s0 := HeaderState(map[], None);
    var s1 := WithPair(s0, p[0]);
    var s2 := WithPair(s1, p[1]);
    var s3 := WithPair(s2, p[2]);
    var s4 := WithPair(s3, p[3]);
    var s5 := WithPair(s4, p[4]);
    var s6 := WithPair(s5, p[5]);
    var s7 := WithPair(s6, p[6]);
    OneMore(s0, p, 0); OneMore(s1, p, 1); OneMore(s2, p, 2); OneMore(s3, p, 3);
    OneMore(s4, p, 4); OneMore(s5, p, 5); OneMore(s6, p, 6);
    assert p[0..] == p && p[7..] == [];
    assert s7.headers == Delivered(d).headers;
  }

  lemma OneMore(st: HeaderState, p: seq<(string, string)>, i: nat)
    requires i < |p|
    ensures WithPairs(st, p[i..]) == WithPairs(WithPair(st, p[i]), p[i + 1..])
  {
    assert p[i..][0] == p[i] && p[i..][1..] == p[i + 1..];
  }

  lemma BuiltShape(d: Draft, eol: string)
    requires Eol(eol)
    ensures Built(d, eol) == Encode(Joined(HeaderPairs(d), eol)) + Encode(eol) + Encode(eol)
                             + (Encode(d.body) + FileSections(d.attachments, eol))
  {
    hide Encode, HeaderPairs, FileSections, HeaderLines, Joined;
    var p := HeaderPairs(d);
    assert p != [] by { SevenPairs(d); }
    HeaderLinesAreJoined(p, eol);
    EncodeConcat(Joined(p, eol) + eol, eol);
    EncodeConcat(Joined(p, eol), eol);
    Regroup(Encode(Joined(p, eol)) + Encode(eol) + Encode(eol), Encode(d.body), FileSections(d.attachments, eol));
  }

  lemma Regroup(a: seq<Byte>, b: seq<Byte>, c: seq<Byte>)
    ensures a + b + c == a + (b + c)
  {
  }

  lemma SevenPairs(d: Draft)
    ensures |HeaderPairs(d)| == 7
  {
  }

  lemma HeaderReadBack(d: Draft, eol: string)
    requires Eol(eol)
    ensures Separator(Built(d, eol)) == Some((|Encode(Joined(HeaderPairs(d), eol))|, 2 * |Encode(eol)|))
    ensures var at := |Encode(Joined(HeaderPairs(d), eol))|;
      && at + 2 * |Encode(eol)| <= |Built(d, eol)|
      && ReadHeaders(HeaderState(map[], None), SplitLines(Decode(Built(d, eol)[..at])))
         == Headers(HeaderState(Delivered(d).headers, Some(|Encode(d.body)|)))
      && Built(d, eol)[at + 2 * |Encode(eol)|..] == Encode(d.body) + FileSections(d.attachments, eol)
  {
    hide Encode, Decode, HeaderPairs, FileSections, HeaderLines, Joined, Quiet, Separator, Delivered, Built;
    hide ReadHeaders, SplitLines, GoodPairs, WithPairs;
    var p := HeaderPairs(d);
    SevenPairs(d);
    var block := Encode(Joined(p, eol));
    var payload := Encode(d.body) + FileSections(d.attachments, eol);
    BuiltShape(d, eol);
    HeaderPairsGood(d);
    JoinedIsQuiet(p, eol);
    EncodeEol(eol);
    SeparatorAfterQuiet(block, Encode(eol), payload);
    assert Built(d, eol)[..|block|] == block;
    RoundTrip(Joined(p, eol));
    ReadJoined(HeaderState(map[], None), p, eol);
    PairsCollected(d);
  }

  /** Under LF and CRLF framing alike, parsing a built message returns every header sanitised, the
      body and the attachments exactly, whatever text or bytes they hold, if and only if each
      filename is non-empty, free of "\n" and without whitespace at its ends. */
  lemma ParseInvertsBuild(d: Draft, eol: string)
    requires Eol(eol)
    ensures Parse(Built(d, eol)) == Parsed(Delivered(d)) <==> NamesGood(d.attachments)
  {
    if NamesGood(d.attachments) {
      ParseBuilt(d, eol);
    }
    ParsedNamesAreGood(Built(d, eol));
  }

  lemma ParseBuilt(d: Draft, eol: string)
    requires Eol(eol) && NamesGood(d.attachments)
    ensures Parse(Built(d, eol)) == Parsed(Delivered(d))
  {
    hide Encode, Decode, HeaderPairs, FileSections, Joined, Separator, Built, ReadHeaders, SplitLines, ReadSections;
    hide HeaderSafe, Decimal;
    var body := Encode(d.body);
    var sections := FileSections(d.attachments, eol);
    HeaderReadBack(d, eol);
    ReadBuiltSections(d.attachments, eol, []);
    assert [] + d.attachments == d.attachments;
    RoundTrip(d.body);
    assert SliceTo(body + sections, |body|) == body && SliceFrom(body + sections, |body|) == sections;
  }

  lemma FileNameIsGood(line: string, text: seq<Byte>, start: nat)
    requires start <= |text| && '\n' !in line && ReadFile(line, text, start).Read?
    ensures GoodName(ReadFile(line, text, start).attachment.filename)
  {
    hide IsSpace, IndexOf, ParseInt, Strip;
    var spec := Strip(line[5..]);
    var after := spec[IndexOf(spec, ' ') + 1..];
    assert forall c :: c in spec ==> c in line[5..] && c in line;
    assert forall c :: c in after ==> c in spec;
    assert forall c :: c in Strip(after) ==> c in after;
  }

  lemma ReadNameIsGood(rest: seq<Byte>)
    requires rest != [] && ReadSection(rest).Read?
    ensures GoodName(ReadSection(rest).attachment.filename)
  {
    hide Decode, IndexOf, ReadFile, GoodName, DropTrailingCR;
    var text := rest[SeparatorLength(rest)..];
    var nl := IndexOf(text, 10);
    assert 10 !in text[..nl];
    DecodeHasNoNewline(text[..nl]);
    FileNameIsGood(DropTrailingCR(Decode(text[..nl])), text, nl + 1);
  }

  lemma {:induction false} DecodeHasNoNewline(b: seq<Byte>)
    requires 10 !in b
    ensures '\n' !in Decode(b)
  {
    if b != [] {
      assert DecodeFirst(b) != '\n';
      DecodeHasNoNewline(b[ValidPrefix(b)..]);
    }
  }

  lemma {:induction false} ReadNamesAreGood(rest: seq<Byte>, done: seq<Attachment>)
    requires NamesGood(done) && ReadSections(rest, done).Sections?
    ensures NamesGood(ReadSections(rest, done).attachments)
    decreases |rest|
  {
    hide ReadSection, GoodName;
    if rest != [] && ReadSection(rest).Read? {
      ReadNameIsGood(rest);
      var step := ReadSection(rest);
      ReadNamesAreGood(step.rest, done + [step.attachment]);
    }
  }

  /** Every filename any parse returns is trimmed, non-empty and on one line. */
  lemma ParsedNamesAreGood(raw: seq<Byte>)
    ensures Parse(raw).Parsed? ==> NamesGood(Parse(raw).message.attachments)
  {
    hide ReadSections, ReadHeaders, Separator, Decode, SplitLines, GoodName;
    if Parse(raw).Parsed? {
      var s := Separator(raw).value;
      var payload := raw[s.0 + s.1..];
      var st := ReadHeaders(HeaderState(map[], None), SplitLines(Decode(raw[..s.0]))).state;
      ReadNamesAreGood(SliceFrom(payload, st.bodyLength.value), []);
    }
  }
}
