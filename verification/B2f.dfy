/** The decoded .b2f message format: a line-oriented header block, a blank line, a byte-counted body
    and byte-counted `File:` sections. `build_b2f` and `parse_b2f`, each as its loops proved against a
    function; the laws relating the two are in B2fHeaderLaws,
    B2fRoundTrip and B2fSections. */
module B2f {
  import opened PyText
  import opened Utf8

  datatype Attachment = Attachment(filename: string, data: seq<Byte>)

  datatype Message = Message(headers: map<string, string>, body: string, attachments: seq<Attachment>)

  /** The arguments of the builder. */
  datatype Draft = Draft(
    messageId: string, fromAddr: string, toAddr: string, subject: string,
    mbo: string, date: string, body: string, attachments: seq<Attachment>)

  datatype ParseError =
    | NoSeparator | MalformedHeader | NonNumericBody | MissingBody | BodyTooLong
    | UnterminatedFile | ExpectedFile | MalformedFile | NonNumericFile | FileTooLong

  /** `Endless` stands for a parse that never returns. */
  datatype Outcome = Parsed(message: Message) | Rejected(error: ParseError) | Endless

  const LF: seq<Byte> := [10]
  const CRLF: seq<Byte> := [13, 10]

  // ---------------------------------------------------------------------------
  // Header values

  function SpacesForNewlines(s: string): (r: string)
  {
    if s == [] then []
    else [if s[0] == '\r' || s[0] == '\n' then ' ' else s[0]] + SpacesForNewlines(s[1..])
  }

  /** `re.sub(r"\s+", " ", s)` */
  function CollapseSpace(s: string): (r: string)
  {
    if s == [] then []
    else if !IsSpace(s[0]) then [s[0]] + CollapseSpace(s[1..])
    else if |s| > 1 && IsSpace(s[1]) then CollapseSpace(s[1..])
    else [' '] + CollapseSpace(s[1..])
  }

  function HeaderSafe(value: string): (r: string)
  {
    Strip(CollapseSpace(SpacesForNewlines(value)))
  }

  // ---------------------------------------------------------------------------
  // Building

  function HeaderPairs(d: Draft): (r: seq<(string, string)>)
  {
    [ ("Mid", HeaderSafe(d.messageId)), ("From", HeaderSafe(d.fromAddr)), ("To", HeaderSafe(d.toAddr)),
      ("Subject", HeaderSafe(d.subject)), ("Mbo", HeaderSafe(d.mbo)), ("Date", HeaderSafe(d.date)),
      ("Body", Decimal(|Encode(d.body)|)) ]
  }

  function HeaderLine(pair: (string, string)): string { pair.0 + ": " + pair.1 }

  function HeaderLines(pairs: seq<(string, string)>, eol: string): string
  {
    if pairs == [] then [] else HeaderLine(pairs[0]) + eol + HeaderLines(pairs[1..], eol)
  }

  function FileLine(a: Attachment): string { "File: " + Decimal(|a.data|) + " " + a.filename }

  function FileSection(a: Attachment, eol: string): seq<Byte>
  {
    Encode(eol + FileLine(a) + eol) + a.data
  }

  function FileSections(atts: seq<Attachment>, eol: string): seq<Byte>
  {
    if atts == [] then [] else FileSection(atts[0], eol) + FileSections(atts[1..], eol)
  }

  /** The message with `eol` as its framing newline; the builder itself writes "\n". */
  function Built(d: Draft, eol: string): seq<Byte>
  {
    Encode(HeaderLines(HeaderPairs(d), eol) + eol) + Encode(d.body) + FileSections(d.attachments, eol)
  }

  lemma {:induction false} FileSectionsSnoc(atts: seq<Attachment>, a: Attachment, eol: string)
    ensures FileSections(atts + [a], eol) == FileSections(atts, eol) + FileSection(a, eol)
  {
    if atts == [] {
      assert atts + [a] == [a];
      assert FileSections([a][1..], eol) == [];
    } else {
      assert (atts + [a])[1..] == atts[1..] + [a];
      FileSectionsSnoc(atts[1..], a, eol);
    }
  }

  method Build(d: Draft) returns (out: seq<Byte>)
    ensures out == Built(d, "\n")
  {
    hide Encode, Decimal, HeaderSafe, HeaderPairs, FileSection, HeaderLine;
    var body := Encode(d.body);
    var header := HeaderLines(HeaderPairs(d), "\n") + "\n";
    out := Encode(header) + body;
    ghost var prefix := out;
    assert out == prefix + FileSections(d.attachments[..0], "\n");
    for i := 0 to |d.attachments|
      invariant out == prefix + FileSections(d.attachments[..i], "\n")
    {
      var a := d.attachments[i];
      out := out + FileSection(a, "\n");
      assert d.attachments[..i + 1] == d.attachments[..i] + [a];
      FileSectionsSnoc(d.attachments[..i], a, "\n");
    }
    assert d.attachments[..|d.attachments|] == d.attachments;
  }

  // ---------------------------------------------------------------------------
  // Parsing: the header block

  datatype HeaderState = HeaderState(headers: map<string, string>, bodyLength: Option<int>)

  datatype HeaderResult = Headers(state: HeaderState) | HeaderError(error: ParseError)

  function LowerAscii(s: string): (r: string)
  {
    if s == [] then [] else [if 'A' <= s[0] <= 'Z' then (s[0] as int + 32) as char else s[0]] + LowerAscii(s[1..])
  }

  function ReadHeader(st: HeaderState, rawLine: string): HeaderResult
  {
    var line := DropTrailingCR(rawLine);
    if Strip(line) == "" then Headers(st)
    else if ':' !in line then HeaderError(MalformedHeader)
    else
      var colon := IndexOf(line, ':');
      var key := Strip(line[..colon]);
      var val := Strip(line[colon + 1..]);
      var headers := st.headers[key := val];
      if LowerAscii(key) != "body" then Headers(HeaderState(headers, st.bodyLength))
      else match ParseInt(val)
        case None => HeaderError(NonNumericBody)
        case Some(n) => Headers(HeaderState(headers, Some(n)))
  }

  function ReadHeaders(st: HeaderState, lines: seq<string>): HeaderResult
    decreases |lines|
  {
    if lines == [] then Headers(st)
    else match ReadHeader(st, lines[0])
      case HeaderError(e) => HeaderError(e)
      case Headers(next) => ReadHeaders(next, lines[1..])
  }

  // ---------------------------------------------------------------------------
  // Parsing: the File: sections

  datatype SectionStep =
    | Finished
    | Malformed(error: ParseError)
    | Read(attachment: Attachment, length: int, rest: seq<Byte>)

  function SeparatorLength(rest: seq<Byte>): (n: nat)
    ensures n <= |rest| && n <= 2
  {
    if CRLF <= rest then 2 else if LF <= rest then 1 else 0
  }

  /** A `File:` line and the data it announces; the data starts at `start` in `text`. */
  function ReadFile(line: string, text: seq<Byte>, start: nat): SectionStep
    requires start <= |text|
  {
    if !("File:" <= line) then Malformed(ExpectedFile)
    else
      var spec := Strip(line[5..]);
      if ' ' !in spec then Malformed(MalformedFile)
      else
        var space := IndexOf(spec, ' ');
        var filename := Strip(spec[space + 1..]);
        if filename == "" then Malformed(MalformedFile)
        else match ParseInt(spec[..space])
          case None => Malformed(NonNumericFile)
          case Some(length) =>
            if start + length > |text| then Malformed(FileTooLong)
            else Read(Attachment(filename, Slice(text, start, start + length)), length,
                      SliceFrom(text, start + length))
  }

  /** One pass through the section loop. */
  function ReadSection(rest: seq<Byte>): SectionStep
    requires rest != []
  {
    var text := rest[SeparatorLength(rest)..];
    if text == [] then Finished
    else if 10 !in text then Malformed(UnterminatedFile)
    else
      var nl := IndexOf(text, 10);
      ReadFile(DropTrailingCR(Decode(text[..nl])), text, nl + 1)
  }

  datatype SectionsResult = Sections(attachments: seq<Attachment>) | SectionError(error: ParseError) | NoEnd

  /** The whole section loop. A pass that leaves the remaining bytes as they were repeats for ever. */
  function ReadSections(rest: seq<Byte>, attachments: seq<Attachment>): SectionsResult
    decreases |rest|
  {
    if rest == [] then Sections(attachments)
    else match ReadSection(rest)
      case Finished => Sections(attachments)
      case Malformed(e) => SectionError(e)
      case Read(a, _, more) =>
        if |more| >= |rest| then NoEnd else ReadSections(more, attachments + [a])
  }

  // ---------------------------------------------------------------------------
  // Parsing: the whole message

  /** Where the blank line starts and how long it is. */
  function Separator(raw: seq<Byte>): (r: Option<(nat, nat)>)
    ensures r.Some? ==> r.value.0 + r.value.1 <= |raw|
  {
    var crlf := FindFrom(raw, CRLF + CRLF, 0);
    var lf := FindFrom(raw, LF + LF, 0);
    if crlf.Some? && (lf.None? || crlf.value <= lf.value) then Some((crlf.value, 4))
    else if lf.Some? then Some((lf.value, 2))
    else None
  }

  function Assemble(headers: map<string, string>, body: string, sections: SectionsResult): Outcome
  {
    match sections
    case SectionError(e) => Rejected(e)
    case NoEnd => Endless
    case Sections(atts) => Parsed(Message(headers, body, atts))
  }

  function ParsePayload(header: HeaderResult, payload: seq<Byte>): Outcome
  {
    match header
    case HeaderError(e) => Rejected(e)
    case Headers(st) =>
      match st.bodyLength
      case None => Rejected(MissingBody)
      case Some(n) =>
        if n > |payload| then Rejected(BodyTooLong)
        else Assemble(st.headers, Decode(SliceTo(payload, n)), ReadSections(SliceFrom(payload, n), []))
  }

  function Parse(raw: seq<Byte>): Outcome
  {
    match Separator(raw)
    case None => Rejected(NoSeparator)
    case Some((at, length)) =>
      ParsePayload(ReadHeaders(HeaderState(map[], None), SplitLines(Decode(raw[..at]))), raw[at + length..])
  }

  method ReadHeaderBlock(lines: seq<string>) returns (r: HeaderResult)
    ensures r == ReadHeaders(HeaderState(map[], None), lines)
  {
    hide ReadHeader;
    var headers: map<string, string> := map[];
    var bodyLength: Option<int> := None;
    ghost var start := HeaderState(map[], None);
    for i := 0 to |lines|
      invariant ReadHeaders(start, lines) == ReadHeaders(HeaderState(headers, bodyLength), lines[i..])
    {
      assert lines[i..][0] == lines[i] && lines[i..][1..] == lines[i + 1..];
      match ReadHeader(HeaderState(headers, bodyLength), lines[i]) {
        case HeaderError(e) => return HeaderError(e);
        case Headers(next) => headers, bodyLength := next.headers, next.bodyLength;
      }
    }
    r := Headers(HeaderState(headers, bodyLength));
  }

  method ReadAttachments(payload: seq<Byte>) returns (r: SectionsResult)
    ensures r == ReadSections(payload, [])
  {
    var rest := payload;
    var attachments: seq<Attachment> := [];
    while rest != []
      invariant ReadSections(payload, []) == ReadSections(rest, attachments)
      decreases |rest|
    {
      match ReadSection(rest) {
        case Finished => return Sections(attachments);
        case Malformed(e) => return SectionError(e);
        case Read(a, _, more) =>
          if |more| >= |rest| {
            return NoEnd;
          }
          attachments := attachments + [a];
          rest := more;
      }
    }
    r := Sections(attachments);
  }

  method ParseMessage(raw: seq<Byte>) returns (r: Outcome)
    ensures r == Parse(raw)
  {
    hide FindFrom, MatchAt, Decode, SplitLines, ReadHeaders, ParsePayload;
    var crlf := FindFrom(raw, CRLF + CRLF, 0);
    var lf := FindFrom(raw, LF + LF, 0);
    if crlf.None? && lf.None? {
      return Rejected(NoSeparator);
    }
    var sep, sepLength;
    if crlf.Some? && (lf.None? || crlf.value <= lf.value) {
      sep, sepLength := crlf.value, 4;
    } else {
      sep, sepLength := lf.value, 2;
    }
    assert Separator(raw) == Some((sep, sepLength));
    var header := ReadHeaderBlock(SplitLines(Decode(raw[..sep])));
    r := ParseBody(header, raw[sep + sepLength..]);
  }

  method ParseBody(header: HeaderResult, payload: seq<Byte>) returns (r: Outcome)
    ensures r == ParsePayload(header, payload)
  {
    if header.HeaderError? {
      return Rejected(header.error);
    }
    var bodyLength := header.state.bodyLength;
    if bodyLength.None? {
      return Rejected(MissingBody);
    }
    if bodyLength.value > |payload| {
      return Rejected(BodyTooLong);
    }
    var body := Decode(SliceTo(payload, bodyLength.value));
    var sections := ReadAttachments(SliceFrom(payload, bodyLength.value));
    r := Assemble(header.state.headers, body, sections);
  }
}
