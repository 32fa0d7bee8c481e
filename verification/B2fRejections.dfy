/** What the parser accepts and refuses, with which error, and which headers it reads, said of the lines and the
    lengths of the message itself. */
module B2fRejections {
  import opened PyText
  import opened Utf8
  import opened B2f
  import opened B2fSections

  // ---------------------------------------------------------------------------
  // Header lines

  /** Nothing but whitespace: such lines are skipped. */
  predicate Skipped(line: string) { forall i :: 0 <= i < |line| ==> IsSpace(line[i]) }

  /** A line `key: val`, split at its first colon. */
  ghost predicate HasField(line: string, key: string, val: string)
  {
    var text := DropTrailingCR(line);
    exists i :: 0 <= i < |text| && text[i] == ':' && (forall j :: 0 <= j < i ==> text[j] != ':')
      && key == Strip(text[..i]) && val == Strip(text[i + 1..])
  }

  /** "body", in whatever case. */
  predicate IsBodyKey(key: string)
  {
    && |key| == 4 && (key[0] == 'b' || key[0] == 'B') && (key[1] == 'o' || key[1] == 'O')
    && (key[2] == 'd' || key[2] == 'D') && (key[3] == 'y' || key[3] == 'Y')
  }

  /** Why a line is refused: it is not blank and has no colon, or it is a body length that is no number. */
  ghost predicate Fault(line: string, e: ParseError)
  {
    || (e == MalformedHeader && !Skipped(line) && ':' !in line)
    || (e == NonNumericBody && exists key, val :: HasField(line, key, val) && IsBodyKey(key) && ParseInt(val).None?)
  }

  ghost predicate Faultless(line: string) { !Fault(line, MalformedHeader) && !Fault(line, NonNumericBody) }

  /** The first line with a fault has that one. */
  ghost predicate FirstFault(lines: seq<string>, e: ParseError)
  {
    exists i :: 0 <= i < |lines| && Fault(lines[i], e) && forall j :: 0 <= j < i ==> Faultless(lines[j])
  }

  ghost predicate AllFaultless(lines: seq<string>) { forall i :: 0 <= i < |lines| ==> Faultless(lines[i]) }

  /** The last line with the key gives it that value. */
  ghost predicate Gives(lines: seq<string>, key: string, val: string)
  {
    exists i :: 0 <= i < |lines| && HasField(lines[i], key, val)
      && forall j, v :: i < j < |lines| ==> !HasField(lines[j], key, v)
  }

  ghost predicate HasKey(lines: seq<string>, key: string)
  {
    exists i, v :: 0 <= i < |lines| && HasField(lines[i], key, v)
  }

  ghost predicate BodyLine(line: string, n: int)
  {
    exists key, val :: HasField(line, key, val) && IsBodyKey(key) && ParseInt(val) == Some(n)
  }

  /** The last line with a body length gives that one. */
  ghost predicate GivesBody(lines: seq<string>, n: int)
  {
    exists i :: 0 <= i < |lines| && BodyLine(lines[i], n)
      && forall j, m :: i < j < |lines| ==> !BodyLine(lines[j], m)
  }

  ghost predicate HasBody(lines: seq<string>) { exists i, n :: 0 <= i < |lines| && BodyLine(lines[i], n) }

  lemma {:induction false} BodyKeyLower(key: string)
    ensures LowerAscii(key) == "body" <==> IsBodyKey(key)
  {
    LowerAt(key);
  }

  lemma {:induction false} LowerAt(s: string)
    ensures |LowerAscii(s)| == |s|
    ensures forall i :: 0 <= i < |s| ==>
      LowerAscii(s)[i] == if 'A' <= s[i] <= 'Z' then (s[i] as int + 32) as char else s[i]
  {
    if s != [] {
      LowerAt(s[1..]);
    }
  }

  lemma {:induction false} SkippedIsBlank(line: string)
    ensures Strip(DropTrailingCR(line)) == "" <==> Skipped(line)
    ensures ':' in line <==> ':' in DropTrailingCR(line)
    ensures Skipped(line) ==> ':' !in line
  {
    CutCRs(line);
    LeftBlank(DropTrailingCR(line));
    assert !IsSpace(':') && IsSpace('\r');
  }

  lemma {:induction false} CutCRs(s: string)
    ensures forall i :: |DropTrailingCR(s)| <= i < |s| ==> s[i] == '\r'
  {
    if s != [] && s[|s| - 1] == '\r' {
      CutCRs(s[..|s| - 1]);
    }
  }

  lemma {:induction false} LeftBlank(s: string)
    ensures Strip(s) == "" <==> forall i :: 0 <= i < |s| ==> IsSpace(s[i])
  {
    hide IsSpace;
    LeadingBlank(s);
    var t := LStrip(s);
    if t != [] {
      assert t[0] == s[|s| - |t|];
    }
  }

  lemma {:induction false} LeadingBlank(s: string)
    ensures forall i :: 0 <= i < |s| - |LStrip(s)| ==> IsSpace(s[i])
  {
    hide IsSpace;
    if s != [] && IsSpace(s[0]) {
      LeadingBlank(s[1..]);
    }
  }

  lemma OneField(line: string, key: string, val: string, key': string, val': string)
    requires HasField(line, key, val) && HasField(line, key', val')
    ensures key == key' && val == val'
  {
    hide Strip, DropTrailingCR;
    var text := DropTrailingCR(line);
    var i :| 0 <= i < |text| && text[i] == ':' && (forall k :: 0 <= k < i ==> text[k] != ':')
      && key == Strip(text[..i]) && val == Strip(text[i + 1..]);
    var j :| 0 <= j < |text| && text[j] == ':' && (forall k :: 0 <= k < j ==> text[k] != ':')
      && key' == Strip(text[..j]) && val' == Strip(text[j + 1..]);
    assert i == j;
  }

  /** A line with a colon has the field that is read from it. */
  lemma FieldRead(line: string)
    requires ':' in line
    ensures var text := DropTrailingCR(line); var colon := IndexOf(text, ':');
      colon < |text| && HasField(line, Strip(text[..colon]), Strip(text[colon + 1..]))
  {
    hide Strip, IndexOf, DropTrailingCR, Skipped, HasField;
    SkippedIsBlank(line);
    FieldAt(line, IndexOf(DropTrailingCR(line), ':'));
  }

  lemma FieldAt(line: string, i: nat)
    requires i < |DropTrailingCR(line)| && DropTrailingCR(line)[i] == ':'
    requires forall j :: 0 <= j < i ==> DropTrailingCR(line)[j] != ':'
    ensures var text := DropTrailingCR(line); HasField(line, Strip(text[..i]), Strip(text[i + 1..]))
  {
    hide Strip, DropTrailingCR;
  }

  /** A line is refused for its fault. */
  lemma HeaderFault(st: HeaderState, line: string)
    ensures forall e :: ReadHeader(st, line) == HeaderError(e) <==> Fault(line, e)
    ensures ReadHeader(st, line).Headers? <==> Faultless(line)
  {
    hide Strip, DropTrailingCR, IndexOf, ParseInt, LowerAscii, Skipped, IsBodyKey, HasField;
    SkippedIsBlank(line);
    if ':' in line {
      FieldRead(line);
      var text := DropTrailingCR(line);
      var colon := IndexOf(text, ':');
      var key, val := Strip(text[..colon]), Strip(text[colon + 1..]);
      BodyKeyLower(key);
      forall k, v | HasField(line, k, v)
        ensures k == key && v == val
      {
        OneField(line, key, val, k, v);
      }
    } else {
      forall k, v
        ensures !HasField(line, k, v)
      {
        NoColonNoField(line, k, v);
      }
    }
  }

  /** Any other sets the field it has, if it has one, and the body length, if that is what it is. */
  lemma HeaderSets(st: HeaderState, line: string)
    requires Faultless(line)
    ensures ReadHeader(st, line).Headers?
    ensures var st' := ReadHeader(st, line).state;
      && (forall key, val :: HasField(line, key, val) ==> st'.headers == st.headers[key := val])
      && ((forall key, val :: !HasField(line, key, val)) ==> st'.headers == st.headers)
      && (forall n :: BodyLine(line, n) ==> st'.bodyLength == Some(n))
      && ((forall n :: !BodyLine(line, n)) ==> st'.bodyLength == st.bodyLength)
  {
    hide Strip, DropTrailingCR, IndexOf, ParseInt, LowerAscii, Skipped, IsBodyKey, HasField, Fault;
    HeaderFault(st, line);
    SkippedIsBlank(line);
    if ':' in line {
      FieldRead(line);
      var text := DropTrailingCR(line);
      var colon := IndexOf(text, ':');
      var key, val := Strip(text[..colon]), Strip(text[colon + 1..]);
      BodyKeyLower(key);
      forall k, v | HasField(line, k, v)
        ensures k == key && v == val
      {
        OneField(line, key, val, k, v);
      }
      if IsBodyKey(key) {
        assert BodyLine(line, ParseInt(val).value);
      }
    } else {
      forall k, v
        ensures !HasField(line, k, v)
      {
        NoColonNoField(line, k, v);
      }
    }
  }

  lemma NoColonNoField(line: string, key: string, val: string)
    requires ':' !in line
    ensures !HasField(line, key, val)
  {
    hide Strip;
    SkippedIsBlank(line);
  }

  lemma FirstFaultCons(lines: seq<string>, e: ParseError)
    requires lines != []
    ensures FirstFault(lines, e) <==> Fault(lines[0], e) || (Faultless(lines[0]) && FirstFault(lines[1..], e))
  {
    hide Fault, Faultless;
    if Faultless(lines[0]) && FirstFault(lines[1..], e) {
      var i :| 0 <= i < |lines[1..]| && Fault(lines[1..][i], e) && forall j :: 0 <= j < i ==> Faultless(lines[1..][j]);
      forall j | 0 <= j < i + 1
        ensures Faultless(lines[j])
      {
        if j > 0 {
          assert lines[1..][j - 1] == lines[j];
        }
      }
      assert lines[1..][i] == lines[i + 1];
    }
    if FirstFault(lines, e) && !Fault(lines[0], e) {
      var i :| 0 <= i < |lines| && Fault(lines[i], e) && forall j :: 0 <= j < i ==> Faultless(lines[j]);
      assert i > 0 && lines[1..][i - 1] == lines[i];
      assert forall j :: 0 <= j < i - 1 ==> lines[1..][j] == lines[j + 1];
    }
  }

  /** The header block is refused exactly for the fault of its first line with one. */
  lemma {:induction false} HeaderRefusedExactly(st: HeaderState, lines: seq<string>, e: ParseError)
    ensures ReadHeaders(st, lines) == HeaderError(e) <==> FirstFault(lines, e)
    ensures ReadHeaders(st, lines).Headers? <==> AllFaultless(lines)
    decreases |lines|
  {
    hide ReadHeader, Fault, Faultless, FirstFault;
    if lines == [] {
      assert !FirstFault(lines, e) by { NoFirstFault(e); }
    } else {
      HeaderFault(st, lines[0]);
      FirstFaultCons(lines, e);
      match ReadHeader(st, lines[0]) {
        case HeaderError(f) => OneFault(lines[0], e, f);
        case Headers(next) =>
          HeaderRefusedExactly(next, lines[1..], e);
          assert forall i :: 0 < i < |lines| ==> lines[1..][i - 1] == lines[i];
          assert forall i :: 0 <= i < |lines[1..]| ==> lines[1..][i] == lines[i + 1];
      }
    }
  }

  lemma NoFirstFault(e: ParseError)
    ensures !FirstFault([], e)
  {
  }

  lemma OneFault(line: string, e: ParseError, f: ParseError)
    requires Fault(line, f)
    ensures Fault(line, e) ==> e == f
    ensures !Faultless(line)
  {
    if Fault(line, e) && e != f {
      assert ':' !in line;
      forall key, val
        ensures !HasField(line, key, val)
      {
        NoColonNoField(line, key, val);
      }
    }
  }

  // ---------------------------------------------------------------------------
  // What the header says

  lemma GivesCons(lines: seq<string>, key: string, val: string)
    requires lines != []
    ensures Gives(lines, key, val) <==>
      Gives(lines[1..], key, val) || (HasField(lines[0], key, val) && !HasKey(lines[1..], key))
    ensures HasKey(lines, key) <==> HasKey(lines[1..], key) || exists v :: HasField(lines[0], key, v)
  {
    hide HasField;
    var more := lines[1..];
    if Gives(more, key, val) {
      var i :| 0 <= i < |more| && HasField(more[i], key, val)
        && forall j, v :: i < j < |more| ==> !HasField(more[j], key, v);
      assert lines[i + 1] == more[i];
      forall j, v | i + 1 < j < |lines|
        ensures !HasField(lines[j], key, v)
      {
        assert lines[j] == more[j - 1];
      }
    }
    if HasField(lines[0], key, val) && !HasKey(more, key) {
      forall j, v | 0 < j < |lines|
        ensures !HasField(lines[j], key, v)
      {
        assert lines[j] == more[j - 1];
      }
    }
    if Gives(lines, key, val) {
      var i :| 0 <= i < |lines| && HasField(lines[i], key, val)
        && forall j, v :: i < j < |lines| ==> !HasField(lines[j], key, v);
      assert forall j :: 0 <= j < |more| ==> more[j] == lines[j + 1];
      if i > 0 {
        assert more[i - 1] == lines[i];
      }
    }
    if HasKey(more, key) {
      var i, v :| 0 <= i < |more| && HasField(more[i], key, v);
      assert lines[i + 1] == more[i];
    }
    if HasKey(lines, key) {
      var i, v :| 0 <= i < |lines| && HasField(lines[i], key, v);
      assert i > 0 ==> more[i - 1] == lines[i];
    }
  }

  lemma GivesBodyCons(lines: seq<string>, n: int)
    requires lines != []
    ensures GivesBody(lines, n) <==> GivesBody(lines[1..], n) || (BodyLine(lines[0], n) && !HasBody(lines[1..]))
    ensures HasBody(lines) <==> HasBody(lines[1..]) || exists m :: BodyLine(lines[0], m)
  {
    hide BodyLine;
    var more := lines[1..];
    if GivesBody(more, n) {
      var i :| 0 <= i < |more| && BodyLine(more[i], n) && forall j, m :: i < j < |more| ==> !BodyLine(more[j], m);
      assert lines[i + 1] == more[i];
      forall j, m | i + 1 < j < |lines|
        ensures !BodyLine(lines[j], m)
      {
        assert lines[j] == more[j - 1];
      }
    }
    if BodyLine(lines[0], n) && !HasBody(more) {
      forall j, m | 0 < j < |lines|
        ensures !BodyLine(lines[j], m)
      {
        assert lines[j] == more[j - 1];
      }
    }
    if GivesBody(lines, n) {
      var i :| 0 <= i < |lines| && BodyLine(lines[i], n) && forall j, m :: i < j < |lines| ==> !BodyLine(lines[j], m);
      assert forall j :: 0 <= j < |more| ==> more[j] == lines[j + 1];
      if i > 0 {
        assert more[i - 1] == lines[i];
      }
    }
    if HasBody(more) {
      var i, m :| 0 <= i < |more| && BodyLine(more[i], m);
      assert lines[i + 1] == more[i];
    }
    if HasBody(lines) {
      var i, m :| 0 <= i < |lines| && BodyLine(lines[i], m);
      assert i > 0 ==> more[i - 1] == lines[i];
    }
  }

  predicate Maps(m: map<string, string>, key: string, val: string) { key in m && m[key] == val }

  /** Each key has the value its last line gives it, or what it had when no line has it. */
  lemma {:induction false} HeadersAre(st: HeaderState, lines: seq<string>, key: string, val: string)
    requires AllFaultless(lines)
    ensures ReadHeaders(st, lines).Headers?
    ensures Maps(ReadHeaders(st, lines).state.headers, key, val) <==>
      Gives(lines, key, val) || (!HasKey(lines, key) && Maps(st.headers, key, val))
    decreases |lines|
  {
    hide ReadHeader, HasField, Gives, HasKey, BodyLine, Faultless;
    if lines == [] {
      NothingGiven(key, val);
    } else {
      assert forall i :: 0 <= i < |lines[1..]| ==> lines[1..][i] == lines[i + 1];
      HeaderSets(st, lines[0]);
      var next := ReadHeader(st, lines[0]).state;
      HeadersAre(next, lines[1..], key, val);
      GivesCons(lines, key, val);
      SetByLine(st.headers, next.headers, lines[0], key, val);
    }
  }

  lemma SetByLine(was: map<string, string>, now: map<string, string>, line: string, key: string, val: string)
    requires forall k, v :: HasField(line, k, v) ==> now == was[k := v]
    requires (forall k, v :: !HasField(line, k, v)) ==> now == was
    ensures Maps(now, key, val) <==>
      HasField(line, key, val) || ((forall v :: !HasField(line, key, v)) && Maps(was, key, val))
  {
    hide HasField;
    if k, v :| HasField(line, k, v) {
      assert now == was[k := v];
      if HasField(line, key, val) {
        assert now == was[key := val];
      } else if v' :| HasField(line, key, v') {
        assert now == was[key := v'];
        OneField(line, key, v', k, v);
      } else {
        assert k != key;
      }
    }
  }

  lemma NothingGiven(key: string, val: string)
    ensures !Gives([], key, val) && !HasKey([], key) && !HasBody([]) && forall n :: !GivesBody([], n)
  {
  }

  /** The body length is the one its last line gives. */
  lemma {:induction false} BodyLengthIs(st: HeaderState, lines: seq<string>, n: int)
    requires AllFaultless(lines)
    ensures ReadHeaders(st, lines).Headers?
    ensures ReadHeaders(st, lines).state.bodyLength == Some(n) <==>
      GivesBody(lines, n) || (!HasBody(lines) && st.bodyLength == Some(n))
    ensures ReadHeaders(st, lines).state.bodyLength == None <==> !HasBody(lines) && st.bodyLength == None
    decreases |lines|
  {
    hide ReadHeader, HasField, GivesBody, HasBody, BodyLine, Faultless;
    if lines == [] {
      NothingGiven("", "");
    } else {
      assert forall i :: 0 <= i < |lines[1..]| ==> lines[1..][i] == lines[i + 1];
      HeaderSets(st, lines[0]);
      BodyLengthIs(ReadHeader(st, lines[0]).state, lines[1..], n);
      GivesBodyCons(lines, n);
      forall m, k | BodyLine(lines[0], m) && BodyLine(lines[0], k)
        ensures m == k
      {
        OneBody(lines[0], m, k);
      }
    }
  }

  lemma OneBody(line: string, m: int, n: int)
    requires BodyLine(line, m) && BodyLine(line, n)
    ensures m == n
  {
    hide HasField, ParseInt;
    var k, v :| HasField(line, k, v) && IsBodyKey(k) && ParseInt(v) == Some(m);
    var k', v' :| HasField(line, k', v') && IsBodyKey(k') && ParseInt(v') == Some(n);
    OneField(line, k, v, k', v');
  }

  // ---------------------------------------------------------------------------
  // Sections

  /** The bytes after one newline, CRLF or LF, if they begin with one. */
  function PastNewline(rest: seq<Byte>): seq<Byte>
  {
    if |rest| >= 2 && rest[0] == 13 && rest[1] == 10 then rest[2..]
    else if |rest| >= 1 && rest[0] == 10 then rest[1..]
    else rest
  }

  /** The text is `before`, then a blank, then `after`, with no blank in `before`. */
  predicate SplitsAtBlank(text: string, before: string, after: string)
  {
    text == before + [' '] + after && ' ' !in before
  }

  predicate LengthFault(digits: string, room: nat, e: ParseError)
  {
    match ParseInt(digits)
    case None => e == NonNumericFile
    case Some(n) => e == FileTooLong && n > room
  }

  /** Why a line is no section's: no `File:`, no blank after its length, no number there, or more than there is
      room for. */
  ghost predicate LineFault(line: string, room: nat, e: ParseError)
  {
    if !("File:" <= line) then e == ExpectedFile
    else
      var spec := Strip(line[5..]);
      if ' ' !in spec then e == MalformedFile
      else exists digits, name :: SplitsAtBlank(spec, digits, name) && LengthFault(digits, room, e)
  }

  /** The bytes are a line, a newline, and more. */
  predicate IsLine(text: seq<Byte>, line: seq<Byte>, more: seq<Byte>)
  {
    text == line + [10] + more && 10 !in line
  }

  /** Why what is left of a message cannot be read on: it has no line, or the wrong one. */
  ghost predicate SectionFault(rest: seq<Byte>, e: ParseError)
  {
    var text := PastNewline(rest);
    && text != []
    && if 10 !in text then e == UnterminatedFile
       else exists line, more :: IsLine(text, line, more) && LineFault(DropTrailingCR(Decode(line)), |more|, e)
  }

  lemma SplitAtFirst<T>(s: seq<T>, c: T, before: seq<T>, after: seq<T>)
    requires s == before + [c] + after && c !in before
    ensures IndexOf(s, c) == |before| && s[..|before|] == before && s[|before| + 1..] == after
  {
    IndexOfIn(before, c, after);
  }

  lemma FirstSplits<T>(s: seq<T>, c: T)
    requires c in s
    ensures s == s[..IndexOf(s, c)] + [c] + s[IndexOf(s, c) + 1..] && c !in s[..IndexOf(s, c)]
  {
  }

  lemma NameAfterBlank(spec: string)
    requires Trimmed(spec) && ' ' in spec
    ensures Strip(spec[IndexOf(spec, ' ') + 1..]) != ""
  {
    hide IsSpace, IndexOf, Strip;
    var i := IndexOf(spec, ' ');
    assert IsSpace(spec[i]) by { assert IsSpace(' ') by { BlankIsSpace(); } }
    var after := spec[i + 1..];
    assert after[|after| - 1] == spec[|spec| - 1];
    LeftBlank(after);
  }

  lemma BlankIsSpace()
    ensures IsSpace(' ')
  {
  }

  lemma FileFault(line: string, text: seq<Byte>, start: nat, e: ParseError)
    requires start <= |text|
    ensures ReadFile(line, text, start) == Malformed(e) <==> LineFault(line, |text| - start, e)
  {
    hide IndexOf, ParseInt, Strip, Slice, SliceFrom, SplitsAtBlank;
    if "File:" <= line && ' ' in Strip(line[5..]) {
      var spec := Strip(line[5..]);
      NameAfterBlank(spec);
      OneBlank(spec);
    }
  }

  lemma OneBlank(spec: string)
    requires ' ' in spec
    ensures SplitsAtBlank(spec, spec[..IndexOf(spec, ' ')], spec[IndexOf(spec, ' ') + 1..])
    ensures forall digits, name :: SplitsAtBlank(spec, digits, name) ==> digits == spec[..IndexOf(spec, ' ')]
  {
    hide IndexOf;
    FirstSplits(spec, ' ');
    forall digits, name | SplitsAtBlank(spec, digits, name)
      ensures digits == spec[..IndexOf(spec, ' ')]
    {
      SplitAtFirst(spec, ' ', digits, name);
    }
  }

  /** A pass of the section loop refuses what is left exactly for its fault. */
  lemma {:induction false} SectionRefusedExactly(rest: seq<Byte>, e: ParseError)
    requires rest != []
    ensures ReadSection(rest) == Malformed(e) <==> SectionFault(rest, e)
  {
    hide IndexOf, Decode, DropTrailingCR, ReadFile, LineFault, IsLine, PastNewline, SeparatorLength;
    var text := PastNewline(rest);
    PastNewlineIs(rest);
    if 10 in text {
      var nl := IndexOf(text, 10);
      OneLine(text);
      FileFault(DropTrailingCR(Decode(text[..nl])), text, nl + 1, e);
    }
  }

  lemma OneLine(text: seq<Byte>)
    requires 10 in text
    ensures var nl := IndexOf(text, 10); nl < |text| && IsLine(text, text[..nl], text[nl + 1..])
    ensures forall line, more :: IsLine(text, line, more) ==>
      line == text[..IndexOf(text, 10)] && more == text[IndexOf(text, 10) + 1..]
  {
    hide IndexOf;
    FirstSplits(text, 10);
    forall line, more | IsLine(text, line, more)
      ensures line == text[..IndexOf(text, 10)] && more == text[IndexOf(text, 10) + 1..]
    {
      SplitAtFirst(text, 10, line, more);
    }
  }

  lemma PastNewlineIs(rest: seq<Byte>)
    ensures PastNewline(rest) == rest[SeparatorLength(rest)..]
  {
    assert rest[0..] == rest;
  }

  /** Some pass of the section loop begins with what cannot be read. */
  ghost predicate RunFault(rest: seq<Byte>, e: ParseError)
  {
    exists k, r :: After(rest, k) == Some(r) && r != [] && SectionFault(r, e)
  }

  lemma {:induction false} RunRefuses(rest: seq<Byte>, done: seq<Attachment>, e: ParseError) returns (k: nat)
    requires ReadSections(rest, done) == SectionError(e)
    ensures After(rest, k).Some? && After(rest, k).value != [] && SectionFault(After(rest, k).value, e)
    decreases |rest|
  {
    hide ReadSection, SectionFault;
    var step := ReadSection(rest);
    if step.Malformed? {
      SectionRefusedExactly(rest, e);
      k := 0;
    } else {
      k := RunRefuses(step.rest, done + [step.attachment], e);
      k := k + 1;
    }
  }

  lemma {:induction false} RefusedAt(rest: seq<Byte>, done: seq<Attachment>, e: ParseError, k: nat)
    requires After(rest, k).Some? && After(rest, k).value != [] && SectionFault(After(rest, k).value, e)
    ensures ReadSections(rest, done) == SectionError(e)
    decreases k
  {
    hide ReadSection, SectionFault;
    if k == 0 {
      SectionRefusedExactly(rest, e);
    } else {
      var step := ReadSection(rest);
      PassLeavesSuffix(rest);
      if |step.rest| >= |rest| {
        assert step.rest == rest;
        StuckForEver(rest, k);
        SectionRefusedExactly(rest, e);
        assert false;
      }
      RefusedAt(step.rest, done + [step.attachment], e, k - 1);
    }
  }

  /** The section loop refuses a message exactly for the fault of what some pass begins with. */
  lemma RunRefusedExactly(rest: seq<Byte>, e: ParseError)
    ensures ReadSections(rest, []) == SectionError(e) <==> RunFault(rest, e)
  {
    hide ReadSections, SectionFault, After;
    if ReadSections(rest, []) == SectionError(e) {
      var k := RunRefuses(rest, [], e);
    }
    if RunFault(rest, e) {
      var k, r :| After(rest, k) == Some(r) && r != [] && SectionFault(r, e);
      RefusedAt(rest, [], e, k);
    }
  }

  // ---------------------------------------------------------------------------
  // Whole messages

  predicate BlankLine(raw: seq<Byte>, at: nat, length: nat)
  {
    (length == 4 && MatchAt(raw, CRLF + CRLF, at)) || (length == 2 && MatchAt(raw, LF + LF, at))
  }

  /** The first blank line of the message, of either kind. */
  ghost predicate FirstBlankLine(raw: seq<Byte>, at: nat, length: nat)
  {
    BlankLine(raw, at, length) && forall j: nat, k: nat :: j < at ==> !BlankLine(raw, j, k)
  }

  /** The body is longer than what there is, or what follows it is refused. */
  ghost predicate CountedFault(payload: seq<Byte>, n: int, e: ParseError)
  {
    if n > |payload| then e == BodyTooLong else RunFault(SliceFrom(payload, n), e)
  }

  /** Why the header lines and what follows the blank line are refused. */
  ghost predicate PayloadFault(lines: seq<string>, payload: seq<Byte>, e: ParseError)
  {
    || FirstFault(lines, e)
    || (AllFaultless(lines) && !HasBody(lines) && e == MissingBody)
    || (AllFaultless(lines) && exists n :: GivesBody(lines, n) && CountedFault(payload, n, e))
  }

  /** A message is refused for want of a blank line, for its header lines, for its body length, or for a section. */
  ghost predicate Refused(raw: seq<Byte>, e: ParseError)
  {
    || (e == NoSeparator && forall at: nat, length: nat :: !BlankLine(raw, at, length))
    || exists at: nat, length: nat :: at + length <= |raw| && FirstBlankLine(raw, at, length)
         && PayloadFault(SplitLines(Decode(raw[..at])), raw[at + length..], e)
  }

  lemma SeparatorIsFirst(raw: seq<Byte>)
    ensures Separator(raw) == None <==> forall at: nat, length: nat :: !BlankLine(raw, at, length)
    ensures Separator(raw).Some? ==> FirstBlankLine(raw, Separator(raw).value.0, Separator(raw).value.1)
  {
    hide FindFrom;
    var crlf, lf := FindFrom(raw, CRLF + CRLF, 0), FindFrom(raw, LF + LF, 0);
    if crlf.Some? {
      assert BlankLine(raw, crlf.value, 4);
    }
    if lf.Some? {
      assert BlankLine(raw, lf.value, 2);
    }
  }

  lemma OneBlankLine(raw: seq<Byte>, at: nat, length: nat)
    requires FirstBlankLine(raw, at, length)
    ensures Separator(raw) == Some((at, length))
  {
    hide FindFrom, MatchAt;
    SeparatorIsFirst(raw);
    var (i, k) := Separator(raw).value;
    assert BlankLine(raw, i, k);
    assert i == at;
    NotBoth(raw, at);
  }

  lemma NotBoth(raw: seq<Byte>, at: nat)
    ensures MatchAt(raw, CRLF + CRLF, at) ==> at < |raw| && raw[at] == 13
    ensures MatchAt(raw, LF + LF, at) ==> at < |raw| && raw[at] == 10
  {
    if MatchAt(raw, CRLF + CRLF, at) {
      assert raw[at..at + 4][0] == 13;
    }
    if MatchAt(raw, LF + LF, at) {
      assert raw[at..at + 2][0] == 10;
    }
  }

  lemma CountedRefused(st: HeaderState, payload: seq<Byte>, n: int, e: ParseError)
    requires st.bodyLength == Some(n)
    ensures ParsePayload(Headers(st), payload) == Rejected(e) <==> CountedFault(payload, n, e)
  {
    hide RunFault, ReadSections, Decode;
    RunRefusedExactly(SliceFrom(payload, n), e);
  }

  lemma OnlyLength(lines: seq<string>, payload: seq<Byte>, n: int, e: ParseError)
    requires AllFaultless(lines) && !FirstFault(lines, e)
    requires forall m :: GivesBody(lines, m) <==> m == n
    ensures PayloadFault(lines, payload, e) <==> CountedFault(payload, n, e)
  {
    hide AllFaultless, FirstFault, GivesBody, HasBody, CountedFault;
    assert GivesBody(lines, n);
    HasBodyGives(lines, n);
  }

  lemma RefusedHeader(f: ParseError, lines: seq<string>, payload: seq<Byte>, e: ParseError)
    requires !AllFaultless(lines) && (FirstFault(lines, e) <==> e == f)
    ensures ParsePayload(HeaderError(f), payload) == Rejected(e) <==> PayloadFault(lines, payload, e)
  {
    hide AllFaultless, FirstFault, GivesBody, HasBody, CountedFault;
  }

  lemma NoLength(st: HeaderState, lines: seq<string>, payload: seq<Byte>, e: ParseError)
    requires AllFaultless(lines) && !FirstFault(lines, e) && !HasBody(lines) && st.bodyLength.None?
    requires forall m :: !GivesBody(lines, m)
    ensures ParsePayload(Headers(st), payload) == Rejected(e) <==> PayloadFault(lines, payload, e)
  {
    hide AllFaultless, FirstFault, GivesBody, HasBody, CountedFault;
  }

  lemma PayloadRefusedExactly(lines: seq<string>, payload: seq<Byte>, e: ParseError)
    ensures ParsePayload(ReadHeaders(HeaderState(map[], None), lines), payload) == Rejected(e)
       <==> PayloadFault(lines, payload, e)
  {
    hide ReadHeaders, FirstFault, AllFaultless, HasBody, GivesBody, CountedFault, ReadSections, Decode;
    var start := HeaderState(map[], None);
    HeaderRefusedExactly(start, lines, e);
    var header := ReadHeaders(start, lines);
    if header.HeaderError? {
      RefusedHeader(header.error, lines, payload, e);
    } else {
      BodyLengthIs(start, lines, 0);
      forall n
        ensures header.state.bodyLength == Some(n) <==> GivesBody(lines, n)
      {
        HasBodyGives(lines, n);
        BodyLengthIs(start, lines, n);
      }
      hide ParsePayload, PayloadFault;
      if header.state.bodyLength.None? {
        NoLength(header.state, lines, payload, e);
      } else {
        var n := header.state.bodyLength.value;
        CountedRefused(header.state, payload, n, e);
        OnlyLength(lines, payload, n, e);
      }
    }
  }

  lemma HasBodyGives(lines: seq<string>, n: int)
    ensures GivesBody(lines, n) ==> HasBody(lines)
  {
    hide BodyLine;
  }

  /** A message is rejected, with that error, exactly when it is refused for it. */
  lemma ParseRejectsExactly(raw: seq<Byte>, e: ParseError)
    ensures Parse(raw) == Rejected(e) <==> Refused(raw, e)
  {
    hide ParsePayload, ReadHeaders, SplitLines, Decode, PayloadFault, BlankLine, Separator, FirstBlankLine;
    SeparatorIsFirst(raw);
    if Separator(raw).Some? {
      var (at, length) := Separator(raw).value;
      assert FirstBlankLine(raw, at, length) && at + length <= |raw|;
      PayloadRefusedExactly(SplitLines(Decode(raw[..at])), raw[at + length..], e);
      forall i: nat, k: nat | FirstBlankLine(raw, i, k)
        ensures i == at && k == length
      {
        OneBlankLine(raw, i, k);
      }
      IsBlankLine(raw, at, length);
    } else {
      forall i: nat, k: nat
        ensures !FirstBlankLine(raw, i, k)
      {
        if FirstBlankLine(raw, i, k) {
          OneBlankLine(raw, i, k);
        }
      }
    }
  }

  lemma IsBlankLine(raw: seq<Byte>, at: nat, length: nat)
    requires FirstBlankLine(raw, at, length)
    ensures BlankLine(raw, at, length)
  {
  }

  /** The headers of a message that is read are what its header lines give: each key has the value of the last line
      with it, and no other keys are there. */
  lemma ParsedHeadersAre(raw: seq<Byte>, at: nat, length: nat, key: string, val: string)
    requires Parse(raw).Parsed? && FirstBlankLine(raw, at, length)
    ensures at <= |raw|
    ensures Maps(Parse(raw).message.headers, key, val) <==> Gives(SplitLines(Decode(raw[..at])), key, val)
  {
    hide ReadHeaders, SplitLines, Decode, Gives, HasKey, ReadSections, SliceFrom, SliceTo, AllFaultless, FindFrom;
    OneBlankLine(raw, at, length);
    var lines := SplitLines(Decode(raw[..at]));
    HeaderRefusedExactly(HeaderState(map[], None), lines, NoSeparator);
    HeadersAre(HeaderState(map[], None), lines, key, val);
  }
}
