/** The section loop: when it ends, and how it accounts for every byte. */
module B2fSections {
  import opened PyText
  import opened Utf8
  import opened B2f
  import opened B2fRoundTrip

  /** The bytes that remain after k passes of the loop, or None once the loop has been left. */
  function After(rest: seq<Byte>, k: nat): Option<seq<Byte>>
    decreases k
  {
    if k == 0 then Some(rest)
    else if rest == [] then None
    else match ReadSection(rest)
      case Read(_, _, more) => After(more, k - 1)
      case _ => None
  }

  /** A pass leaves a suffix of what it was given. */
  lemma PassLeavesSuffix(rest: seq<Byte>)
    requires rest != [] && ReadSection(rest).Read?
    ensures var more := ReadSection(rest).rest; |more| <= |rest| && more == rest[|rest| - |more|..]
  {
    hide Decode, IndexOf, ParseInt, Strip, DropTrailingCR, SeparatorLength;
  }

  /** A pass that announces a length of zero or more consumes at least its own header line. */
  lemma NonNegativeLengthConsumes(rest: seq<Byte>)
    requires rest != [] && ReadSection(rest).Read? && ReadSection(rest).length >= 0
    ensures |ReadSection(rest).rest| < |rest|
    ensures |ReadSection(rest).attachment.data| == ReadSection(rest).length
  {
    hide Decode, IndexOf, ParseInt, Strip, DropTrailingCR, SeparatorLength;
  }

  /** A pass changes nothing exactly when no newline precedes the `File:` line and the (negative)
      length puts the end of the data at the first byte, or before it. */
  lemma {:induction false} StuckExactly(rest: seq<Byte>)
    requires rest != [] && ReadSection(rest).Read?
    ensures ReadSection(rest).rest == rest <==>
      && SeparatorLength(rest) == 0
      && var end := IndexOf(rest, 10) + 1 + ReadSection(rest).length;
         end == 0 || end <= -|rest|
  {
    hide Decode, IndexOf, ParseInt, Strip, DropTrailingCR, SeparatorLength;
    assert rest[0..] == rest;
  }

  /** The length and the filename a `File:` line announces. */
  function FileHeader(bytes: seq<Byte>): Option<(int, string)>
  {
    var line := DropTrailingCR(Decode(bytes));
    if !("File:" <= line) then None
    else
      var spec := Strip(line[5..]);
      if ' ' !in spec then None
      else
        var length, filename := ParseInt(spec[..IndexOf(spec, ' ')]), Strip(spec[IndexOf(spec, ' ') + 1..]);
        if length.None? || filename == "" then None else Some((length.value, filename))
  }

  /** The length announced by the `File:` line the bytes begin with. */
  function Announced(rest: seq<Byte>): Option<int>
  {
    if 10 !in rest then None
    else
      var header := FileHeader(rest[..IndexOf(rest, 10)]);
      if header.None? then None else Some(header.value.0)
  }

  /** Bytes that begin with a `File:` line, no newline before it, whose length is minus the size of that
      line with its newline, or at least the size of everything more than that. */
  predicate Stuck(rest: seq<Byte>)
  {
    && rest != [] && SeparatorLength(rest) == 0 && Announced(rest).Some?
    && var end := IndexOf(rest, 10) + 1 + Announced(rest).value;
       end == 0 || end <= -|rest|
  }

  /** That is exactly when the loop body leaves what it was given. */
  lemma {:induction false} StuckIsNoProgress(rest: seq<Byte>)
    requires rest != []
    ensures Stuck(rest) <==> ReadSection(rest).Read? && ReadSection(rest).rest == rest
  {
    if SeparatorLength(rest) == 0 {
      assert rest[0..] == rest;
      AnnouncedIsRead(rest);
    }
    if ReadSection(rest).Read? {
      StuckExactly(rest);
    }
  }

  lemma {:induction false} AnnouncedIsRead(rest: seq<Byte>)
    requires rest != [] && SeparatorLength(rest) == 0
    ensures ReadSection(rest).Read? <==>
      Announced(rest).Some? && IndexOf(rest, 10) + 1 + Announced(rest).value <= |rest|
    ensures ReadSection(rest).Read? ==> ReadSection(rest).length == Announced(rest).value
  {
    hide Decode, IndexOf, ParseInt, Strip, DropTrailingCR, SeparatorLength;
    assert rest[0..] == rest;
  }

  lemma {:induction false} StuckForEver(rest: seq<Byte>, k: nat)
    requires rest != [] && ReadSection(rest).Read? && ReadSection(rest).rest == rest
    ensures After(rest, k) == Some(rest)
  {
    hide ReadSection;
    if k > 0 {
      StuckForEver(rest, k - 1);
    }
  }

  lemma {:induction false} NoEndRunsOn(rest: seq<Byte>, done: seq<Attachment>, k: nat)
    requires ReadSections(rest, done) == NoEnd
    ensures After(rest, k).Some?
    decreases |rest|, k
  {
    hide ReadSection;
    var step := ReadSection(rest);
    PassLeavesSuffix(rest);
    if |step.rest| >= |rest| {
      assert step.rest == rest;
      StuckForEver(rest, k);
    } else if k > 0 {
      NoEndRunsOn(step.rest, done + [step.attachment], k - 1);
    }
  }

  lemma {:induction false} OtherwiseStops(rest: seq<Byte>, done: seq<Attachment>)
    requires ReadSections(rest, done) != NoEnd
    ensures After(rest, |rest| + 1) == None
    decreases |rest|
  {
    hide ReadSection;
    if rest != [] && ReadSection(rest).Read? {
      var step := ReadSection(rest);
      OtherwiseStops(step.rest, done + [step.attachment]);
      StaysOut(step.rest, |step.rest| + 1, |rest|);
    }
  }

  lemma {:induction false} StaysOut(rest: seq<Byte>, k: nat, n: nat)
    requires k <= n && After(rest, k) == None
    ensures After(rest, n) == None
    decreases k
  {
    hide ReadSection;
    if rest != [] && ReadSection(rest).Read? {
      StaysOut(ReadSection(rest).rest, k - 1, n - 1);
    }
  }

  /** The outcome NoEnd is reported exactly for the bytes on which every number of passes can be made. */
  lemma NoEndRunsForEver(rest: seq<Byte>)
    ensures ReadSections(rest, []) == NoEnd <==> forall k: nat :: After(rest, k).Some?
  {
    hide ReadSections;
    if ReadSections(rest, []) == NoEnd {
      forall k: nat
        ensures After(rest, k).Some?
      {
        NoEndRunsOn(rest, [], k);
      }
    } else {
      OtherwiseStops(rest, []);
    }
  }

  /** Some pass of the loop begins at bytes it leaves as they are. */
  ghost predicate GetsStuck(rest: seq<Byte>)
  {
    exists k: nat :: k <= |rest| && After(rest, k).Some? && Stuck(After(rest, k).value)
  }

  lemma {:induction false} StuckMeansNoEnd(rest: seq<Byte>, done: seq<Attachment>, k: nat)
    requires After(rest, k).Some? && Stuck(After(rest, k).value)
    ensures ReadSections(rest, done) == NoEnd
    decreases k
  {
    hide ReadSection, Stuck;
    if k == 0 {
      StuckHasBytes(rest);
      StuckIsNoProgress(rest);
    } else {
      var step := ReadSection(rest);
      PassLeavesSuffix(rest);
      StuckMeansNoEnd(step.rest, done + [step.attachment], k - 1);
    }
  }

  lemma StuckHasBytes(rest: seq<Byte>)
    ensures Stuck(rest) ==> rest != []
  {
  }

  lemma {:induction false} NoEndGetsStuck(rest: seq<Byte>, done: seq<Attachment>) returns (k: nat)
    requires ReadSections(rest, done) == NoEnd
    ensures k <= |rest| && After(rest, k).Some? && Stuck(After(rest, k).value)
    decreases |rest|
  {
    hide ReadSection, Stuck;
    var step := ReadSection(rest);
    PassLeavesSuffix(rest);
    if |step.rest| >= |rest| {
      assert step.rest == rest;
      StuckIsNoProgress(rest);
      k := 0;
    } else {
      k := NoEndGetsStuck(step.rest, done + [step.attachment]);
      k := k + 1;
    }
  }

  /** The section loop never ends if and only if one of its passes begins with a `File:` line, right where
      the bytes begin, whose negative length puts the end of its data at or before that beginning. */
  lemma NoEndExactly(rest: seq<Byte>)
    ensures ReadSections(rest, []) == NoEnd <==> GetsStuck(rest)
  {
    hide ReadSections, Stuck;
    if ReadSections(rest, []) == NoEnd {
      var k := NoEndGetsStuck(rest, []);
    }
    if GetsStuck(rest) {
      var k: nat :| k <= |rest| && After(rest, k).Some? && Stuck(After(rest, k).value);
      StuckMeansNoEnd(rest, [], k);
    }
  }

  /** The bytes of a message after its body, when its header is sound and the body fits. */
  function SectionBytes(raw: seq<Byte>): Option<seq<Byte>>
  {
    match Separator(raw)
    case None => None
    case Some((at, length)) =>
      match ReadHeaders(HeaderState(map[], None), SplitLines(Decode(raw[..at])))
      case HeaderError(_) => None
      case Headers(st) =>
        var payload := raw[at + length..];
        if st.bodyLength.None? || st.bodyLength.value > |payload| then None
        else Some(SliceFrom(payload, st.bodyLength.value))
  }

  /** Parsing a message never returns if and only if its sections get stuck; the loop can then be passed
      any number of times. */
  lemma ParseEndlessExactly(raw: seq<Byte>)
    ensures Parse(raw) == Endless <==> SectionBytes(raw).Some? && GetsStuck(SectionBytes(raw).value)
    ensures Parse(raw) == Endless ==> forall k: nat :: After(SectionBytes(raw).value, k).Some?
  {
    hide ReadSections, GetsStuck, Decode, SplitLines, ReadHeaders, Separator, SliceFrom, After;
    if SectionBytes(raw).Some? {
      NoEndExactly(SectionBytes(raw).value);
      NoEndRunsForEver(SectionBytes(raw).value);
    }
  }

  /** Some pass announces a negative length. */
  predicate ReadsNegativeLength(rest: seq<Byte>)
    decreases |rest|
  {
    && rest != [] && ReadSection(rest).Read?
    && var step := ReadSection(rest);
       step.length < 0 || (|step.rest| < |rest| && ReadsNegativeLength(step.rest))
  }

  /** With non-negative lengths the loop always ends. */
  lemma {:induction false} NonNegativeLengthsEnd(rest: seq<Byte>, done: seq<Attachment>)
    requires !ReadsNegativeLength(rest)
    ensures ReadSections(rest, done) != NoEnd
    decreases |rest|
  {
    hide ReadSection;
    if rest != [] && ReadSection(rest).Read? {
      NonNegativeLengthConsumes(rest);
      NonNegativeLengthsEnd(ReadSection(rest).rest, done + [ReadSection(rest).attachment]);
    }
  }

  function Minus(n: int): string requires n >= 0 { "-" + Decimal(n) }

  lemma MinusParses(n: int)
    requires n >= 0
    ensures ParseInt(Minus(n)) == Some(-n)
    ensures Minus(n) != [] && Trimmed(Minus(n)) && ' ' !in Minus(n) && '\n' !in Minus(n)
  {
    hide IsSpace, Decimal, UnsignedInt;
    var s := Minus(n);
    DecimalRoundTrip(n);
    UnsignedDecimal(n);
    DigitsHaveNoSpace(n);
    DashIsNotSpace();
    assert s[|s| - 1] == Decimal(n)[|Decimal(n)| - 1];
    StripOfTrimmed(s);
    assert s[1..] == Decimal(n);
  }

  /** The line "File: -n a". */
  function NegativeLine(n: int): string requires n >= 0 { "File:" + ([' '] + (Minus(n) + " " + "a")) }

  lemma StripNegative(n: int)
    requires n >= 0
    ensures "File:" <= NegativeLine(n) && Strip(NegativeLine(n)[5..]) == Minus(n) + " " + "a"
  {
    hide IsSpace, Minus, Strip;
    var spec := Minus(n) + " " + "a";
    DashIsNotSpace();
    MinusParses(n);
    TwoWords(Minus(n), "a");
    assert NegativeLine(n)[5..] == [' '] + spec;
    StripOneSpace(spec);
  }

  lemma ReadNegative(n: int, text: seq<Byte>, start: nat)
    requires n >= 0 && start <= |text|
    ensures ReadFile(NegativeLine(n), text, start)
         == Read(Attachment("a", Slice(text, start, start - n)), -n, SliceFrom(text, start - n))
  {
    hide ParseInt, IsSpace, Minus, IndexOf, Strip, Slice, SliceFrom, ReadFile, NegativeLine;
    DashIsNotSpace();
    MinusParses(n);
    SplitAtSpace(Minus(n), "a");
    StripOfTrimmed("a");
    StripNegative(n);
    ReadFileAs(NegativeLine(n), Minus(n), "a", -n, text, start);
  }

  lemma NegativeTwelve()
    ensures NegativeLine(12) == "File: -12 a"
  {
    assert Decimal(1) == "1";
    assert Decimal(12) == "1" + "2";
  }

  lemma DashIsNotSpace()
    ensures !IsSpace('-') && !IsSpace('a')
  {
  }

  lemma NegativeLineBytes(line: string)
    requires line == "File: -12 a"
    ensures forall c :: c in line ==> c as int < 0x80
    ensures |line| == 11 && '\n' !in line && line[10] != '\r' && line[0] == 'F'
  {
  }

  /** Sections on which the loop never ends. */
  lemma NegativeLengthLoops()
    ensures ReadSections(Encode("File: -12 a\n"), []) == NoEnd
  {
    hide Encode, ReadFile, ReadSection, Decode, DropTrailingCR, IndexOf, SeparatorLength, NegativeLine;
    var line := NegativeLine(12);
    var rest := Encode(line) + [10];
    NegativeTwelve();
    NegativeLineBytes(line);
    EncodeConcat(line, "\n");
    assert line + "\n" == "File: -12 a\n";
    EncodeEol("\n");
    LineThenData(line, "", []);
    assert line + "" == line && rest + [] == rest;
    AsciiOnly(line);
    NoSeparator(rest);
    assert rest[0..] == rest;
    ReadSectionAs(rest, 0, 11, line);
    ReadNegative(12, rest, 12);
    assert SliceFrom(rest, 0) == rest;
    assert ReadSection(rest).Read? && ReadSection(rest).rest == rest;
  }

  /** A whole message on which the parser never returns. */
  lemma NegativeLengthNeverReturns()
    ensures Parse(Encode("Body: 0\n\nFile: -12 a\n")) == Endless
  {
    hide Encode, Decode, ReadSections, ReadHeaders, SplitLines, Separator, GoodPair, Quiet, SliceFrom, SliceTo;
    var header, sections := "Body: 0", "File: -12 a\n";
    var b, payload := Encode(header), Encode(sections);
    assert "Body: 0\n\nFile: -12 a\n" == header + "\n" + "\n" + sections;
    EncodeConcat(header + "\n" + "\n", sections);
    EncodeConcat(header + "\n", "\n");
    EncodeConcat(header, "\n");
    EncodeEol("\n");
    var raw := b + LF + LF + payload;
    EmptyBodyHeader();
    SeparatorAfterQuiet(b, LF, payload);
    assert raw[..|b|] == b && raw[|b| + 2..] == payload;
    RoundTrip(header);
    NegativeLengthLoops();
    WholePayload(payload);
  }

  lemma WholePayload(payload: seq<Byte>)
    ensures SliceFrom(payload, 0) == payload
  {
  }

  lemma EmptyBodyHeader()
    ensures Quiet(Encode("Body: 0"))
    ensures ReadHeaders(HeaderState(map[], None), SplitLines("Body: 0"))
         == Headers(HeaderState(map["Body" := "0"], Some(0)))
  {
    hide Encode, ReadHeaders, SplitLines, GoodPair, Quiet, ParseInt, LowerAscii, Decimal;
    var pairs := [("Body", Decimal(0))];
    ZeroIsDecimal();
    BodyIsGood(0);
    DecimalRoundTrip(0);
    assert Joined(pairs, "\n") == "Body: 0";
    JoinedIsQuiet(pairs, "\n");
    ReadJoined(HeaderState(map[], None), pairs, "\n");
    assert pairs[1..] == [];
  }

  lemma ZeroIsDecimal()
    ensures Decimal(0) == "0"
  {
  }

  lemma NoSeparator(rest: seq<Byte>)
    requires rest != [] && rest[0] != 10 && rest[0] != 13
    ensures SeparatorLength(rest) == 0
  {
  }

  // ---------------------------------------------------------------------------
  // Byte accounting

  /** One section as it stands in the message. */
  datatype Frame = Frame(separator: seq<Byte>, line: seq<Byte>, data: seq<Byte>)

  /** The frame holds the attachment: its one line is the `File:` line that announces the data and the name. */
  predicate Holds(f: Frame, a: Attachment)
  {
    && IsSeparator(f.separator) && 10 !in f.line && FileHeader(f.line) == Some((|f.data|, a.filename))
    && f.data == a.data
  }

  predicate AllHold(frames: seq<Frame>, attachments: seq<Attachment>)
  {
    |frames| == |attachments| && forall i :: 0 <= i < |frames| ==> Holds(frames[i], attachments[i])
  }

  function FrameBytes(f: Frame): seq<Byte> { f.separator + f.line + [10] + f.data }

  function AllBytes(frames: seq<Frame>): seq<Byte>
  {
    if frames == [] then [] else FrameBytes(frames[0]) + AllBytes(frames[1..])
  }

  predicate IsSeparator(b: seq<Byte>) { b == [] || b == LF || b == CRLF }

  lemma ReadFileShape(line: string, text: seq<Byte>, start: nat)
    requires start <= |text| && ReadFile(line, text, start).Read? && ReadFile(line, text, start).length >= 0
    ensures var r := ReadFile(line, text, start); var end := start + r.length;
      end <= |text| && r.attachment.data == text[start..end] && r.rest == text[end..]
  {
    hide ParseInt, Strip, IndexOf;
  }

  /** What was read off the line is what it announces. */
  lemma ReadFileAnnounced(bytes: seq<Byte>, text: seq<Byte>, start: nat)
    requires start <= |text|
    requires var r := ReadFile(DropTrailingCR(Decode(bytes)), text, start); r.Read? && r.length >= 0
    ensures var r := ReadFile(DropTrailingCR(Decode(bytes)), text, start);
      FileHeader(bytes) == Some((|r.attachment.data|, r.attachment.filename))
  {
    hide ParseInt, Strip, IndexOf, Decode, DropTrailingCR;
  }

  lemma PassShape(rest: seq<Byte>) returns (skip: nat, nl: nat, end: nat)
    requires rest != [] && ReadSection(rest).Read? && ReadSection(rest).length >= 0
    ensures skip <= |rest| && nl < end <= |rest[skip..]|
    ensures IsSeparator(rest[..skip])
    ensures 10 !in rest[skip..][..nl] && rest[skip..][nl] == 10
    ensures ReadSection(rest).attachment.data == rest[skip..][nl + 1..end]
    ensures FileHeader(rest[skip..][..nl]) == Some((end - nl - 1, ReadSection(rest).attachment.filename))
    ensures ReadSection(rest).rest == rest[skip..][end..]
  {
    hide Decode, DropTrailingCR, ReadFile, FileHeader, IndexOf;
    skip := SeparatorLength(rest);
    nl := IndexOf(rest[skip..], 10);
    end := nl + 1 + ReadSection(rest).length;
    ReadFileShape(DropTrailingCR(Decode(rest[skip..][..nl])), rest[skip..], nl + 1);
    ReadFileAnnounced(rest[skip..][..nl], rest[skip..], nl + 1);
  }

  lemma CutInFour(rest: seq<Byte>, skip: nat, nl: nat, end: nat)
    requires skip <= |rest| && nl < end <= |rest[skip..]| && rest[skip..][nl] == 10
    ensures var text := rest[skip..];
      rest == rest[..skip] + text[..nl] + [10] + text[nl + 1..end] + text[end..]
  {
  }

  lemma PassAccounts(rest: seq<Byte>) returns (f: Frame)
    requires rest != [] && ReadSection(rest).Read? && ReadSection(rest).length >= 0
    ensures Holds(f, ReadSection(rest).attachment)
    ensures rest == FrameBytes(f) + ReadSection(rest).rest
  {
    hide ReadSection, IsSeparator, FileHeader;
    var skip, nl, end := PassShape(rest);
    CutInFour(rest, skip, nl, end);
    f := Frame(rest[..skip], rest[skip..][..nl], rest[skip..][nl + 1..end]);
  }

  lemma {:induction false} SectionsAccount(rest: seq<Byte>, done: seq<Attachment>)
      returns (frames: seq<Frame>, tail: seq<Byte>)
    requires !ReadsNegativeLength(rest) && ReadSections(rest, done).Sections?
    ensures rest == AllBytes(frames) + tail && IsSeparator(tail)
    ensures done <= ReadSections(rest, done).attachments
    ensures AllHold(frames, ReadSections(rest, done).attachments[|done|..])
    decreases |rest|
  {
    hide ReadSection, Holds, FrameBytes;
    if rest == [] || ReadSection(rest).Finished? {
      frames, tail := [], rest;
      if rest != [] {
        FinishedIsSeparator(rest);
      }
    } else {
      var step := ReadSection(rest);
      NonNegativeLengthConsumes(rest);
      var f := PassAccounts(rest);
      var more, last := SectionsAccount(step.rest, done + [step.attachment]);
      frames, tail := [f] + more, last;
      assert frames[1..] == more;
      assert FrameBytes(f) + (AllBytes(more) + last) == FrameBytes(f) + AllBytes(more) + last;
      var all := ReadSections(rest, done).attachments;
      assert all[|done|] == (done + [step.attachment])[|done|];
      assert all[|done|..] == [step.attachment] + all[|done| + 1..];
    }
  }

  lemma FinishedIsSeparator(rest: seq<Byte>)
    requires rest != [] && ReadSection(rest).Finished?
    ensures IsSeparator(rest)
  {
    hide Decode, IndexOf, ParseInt, Strip, DropTrailingCR;
    assert |rest| == SeparatorLength(rest);
  }

  /** Where the parser found the blank line, and the body length the header gave. */
  predicate Located(raw: seq<Byte>, at: nat, length: nat, n: int)
  {
    && Separator(raw) == Some((at, length))
    && var h := ReadHeaders(HeaderState(map[], None), SplitLines(Decode(raw[..at])));
       h.Headers? && h.state.bodyLength == Some(n)
  }

  /** Every byte of a message parsed with non-negative `File:` lengths is header, blank line, body, section
      framing or attachment data, in that order; at most one newline is left over at the end. A negative
      body length n takes all but the last -n bytes for the body. */
  lemma ParseAccounts(raw: seq<Byte>, at: nat, length: nat, n: int)
      returns (frames: seq<Frame>, tail: seq<Byte>)
    requires Parse(raw).Parsed? && Located(raw, at, length, n)
    requires !ReadsNegativeLength(SliceFrom(raw[at + length..], n))
    ensures at + length + n <= |raw|
    ensures raw[at..at + length] == (if length == 4 then CRLF + CRLF else LF + LF)
    ensures Parse(raw).message.body == Decode(SliceTo(raw[at + length..], n))
    ensures n >= 0 ==> |SliceTo(raw[at + length..], n)| == n
    ensures raw == raw[..at + length] + SliceTo(raw[at + length..], n) + AllBytes(frames) + tail
    ensures IsSeparator(tail) && AllHold(frames, Parse(raw).message.attachments)
  {
    hide AllHold, ReadSections, Decode, SplitLines, ReadHeaders, ReadsNegativeLength, IsSeparator, AllBytes, FindFrom;
    hide SliceFrom, SliceTo;
    var payload := raw[at + length..];
    CutAt(payload, n);
    frames, tail := SectionsAccount(SliceFrom(payload, n), []);
    ghost var all := ReadSections(SliceFrom(payload, n), []).attachments;
    assert all[0..] == all;
    assert raw == raw[..at + length] + payload;
    assert raw == raw[..at + length] + SliceTo(payload, n) + SliceFrom(payload, n);
  }

  lemma CutAt(payload: seq<Byte>, n: int)
    ensures SliceTo(payload, n) + SliceFrom(payload, n) == payload
    ensures 0 <= n <= |payload| ==> |SliceTo(payload, n)| == n
  {
  }
}
