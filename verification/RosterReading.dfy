/** Reading a whole roster table back from its text. */
module RosterReading {
  import opened PyText
  import opened RosterTable

  /** What a table says of a check-in; its cells are without trailing blanks. */
  datatype Entry = Entry(newMember: bool, cells: seq<string>, comments: string)

  function StrippedCells(c: CheckIn): (r: seq<string>)
    ensures |r| == COLUMNS && forall i :: 0 <= i < COLUMNS ==> r[i] == RStrip(Cells(c)[i])
  {
    seq(COLUMNS, i requires 0 <= i < COLUMNS => RStrip(Cells(c)[i]))
  }

  function Recorded(c: CheckIn): Entry { Entry(c.newMember, StrippedCells(c), OrEmpty(c.comments)) }

  function Records(checkIns: seq<CheckIn>): (r: seq<Entry>)
    ensures |r| == |checkIns|
  {
    if checkIns == [] then [] else Records(checkIns[..|checkIns| - 1]) + [Recorded(checkIns[|checkIns| - 1])]
  }

  /** Comment lines start with four spaces. */
  predicate IsComment(line: string) { |line| >= 4 && line[0] == line[1] == line[2] == line[3] == ' ' }

  function CellsAt(line: string, ws: seq<nat>): (r: seq<string>)
    requires |ws| == COLUMNS
    ensures |r| == COLUMNS && forall i :: 0 <= i < COLUMNS ==> r[i] == CellAt(line, ws, i)
  {
    seq(COLUMNS, i requires 0 <= i < COLUMNS => CellAt(line, ws, i))
  }

  /** A comment line belongs to the row above it; the first line can only be a row. */
  function ReadBody(lines: seq<string>, ws: seq<nat>): seq<Entry>
    requires |ws| == COLUMNS
  {
    if lines == [] then []
    else
      var before, line := ReadBody(lines[..|lines| - 1], ws), lines[|lines| - 1];
      if before == [] || !IsComment(line) then before + [Entry(Marked(line), CellsAt(line, ws), "")]
      else before[|before| - 1 := before[|before| - 1].(comments := line[4..])]
  }

  function ReadTable(text: string, ws: seq<nat>): seq<Entry>
    requires |ws| == COLUMNS
  {
    if text == "" then []
    else
      var lines := SplitLines(text);
      if |lines| < 2 then [] else ReadBody(lines[2..], ws)
  }

  // ---------------------------------------------------------------------------
  // Lines

  lemma SplitAt(s: string, i: nat)
    requires i < |s| && s[i] == '\n' && forall j :: 0 <= j < i ==> s[j] != '\n'
    ensures SplitLines(s) == [s[..i]] + SplitLines(s[i + 1..])
  {
    hide IndexOf;
    assert IndexOf(s, '\n') == i;
  }

  lemma SplitNone(s: string)
    requires '\n' !in s
    ensures SplitLines(s) == [s]
  {
  }

  lemma {:induction false} SplitSnoc(a: string, b: string)
    requires '\n' !in b
    ensures SplitLines(a + "\n" + b) == SplitLines(a) + [b]
  {
    hide SplitLines, IndexOf;
    var s := a + "\n" + b;
    var i := IndexOf(a, '\n');
    SplitNone(b);
    forall j | 0 <= j < |a|
      ensures s[j] == a[j]
    {
    }
    SplitAt(s, i);
    if i == |a| {
      SplitNone(a);
      assert s[|a| + 1..] == b && s[..|a|] == a;
    } else {
      SplitAt(a, i);
      assert s[i + 1..] == a[i + 1..] + "\n" + b && s[..i] == a[..i];
      SplitSnoc(a[i + 1..], b);
    }
  }

  predicate OneLineEach(lines: seq<string>) { forall i :: 0 <= i < |lines| ==> '\n' !in lines[i] }

  lemma {:induction false} SplitJoined(lines: seq<string>)
    requires lines != [] && OneLineEach(lines)
    ensures SplitLines(JoinLines(lines)) == lines
  {
    hide SplitLines;
    if |lines| == 1 {
      SplitNone(lines[0]);
    } else {
      var init, last := lines[..|lines| - 1], lines[|lines| - 1];
      assert init + [last] == lines;
      SplitJoined(init);
      SplitSnoc(JoinLines(init), last);
    }
  }

  /** No cell or comment of the check-in breaks its line. */
  predicate OneLine(c: CheckIn)
  {
    '\n' !in OrEmpty(c.comments) && forall i :: 0 <= i < COLUMNS ==> '\n' !in Cells(c)[i]
  }

  lemma {:induction false} JoinedIsOneLine(vals: seq<string>, ws: seq<nat>, n: nat)
    requires Fits(vals, ws) && n <= COLUMNS && OneLineEach(vals)
    ensures '\n' !in Joined(vals, ws, n)
  {
    hide LJust;
    if n > 0 {
      PaddedIsOneLine(vals[n - 1], ws[n - 1]);
      if n > 1 {
        JoinedIsOneLine(vals, ws, n - 1);
        NewlineIn(Joined(vals, ws, n - 1), LJust(vals[n - 1], ws[n - 1]));
      }
    }
  }

  lemma NewlineIn(a: string, b: string)
    requires '\n' !in a && '\n' !in b
    ensures '\n' !in a + "  " + b
  {
  }

  lemma PaddedIsOneLine(s: string, w: nat)
    requires '\n' !in s
    ensures '\n' !in LJust(s, w)
  {
  }

  lemma RowIsOneLine(marker: char, vals: seq<string>, ws: seq<nat>)
    requires Fits(vals, ws) && OneLineEach(vals) && marker != '\n'
    ensures '\n' !in RowLine(marker, vals, ws)
  {
    hide Joined, RStrip;
    JoinedIsOneLine(vals, ws, COLUMNS);
  }

  lemma CellsFit(checkIns: seq<CheckIn>, i: nat)
    requires i < |checkIns|
    ensures Fits(Cells(checkIns[i]), Widths(checkIns))
  {
    hide Width, Cells;
  }

  ghost predicate AllFit(checkIns: seq<CheckIn>, ws: seq<nat>)
  {
    |ws| == COLUMNS && forall i :: 0 <= i < |checkIns| ==> OneLine(checkIns[i]) && Fits(Cells(checkIns[i]), ws)
  }

  lemma {:induction false} BodyLines(checkIns: seq<CheckIn>, ws: seq<nat>)
    requires AllFit(checkIns, ws)
    ensures OneLineEach(Body(checkIns, ws))
  {
    hide Cells, RowLine, Fits;
    if checkIns != [] {
      var init, c := checkIns[..|checkIns| - 1], checkIns[|checkIns| - 1];
      assert forall i :: 0 <= i < |init| ==> init[i] == checkIns[i];
      BodyLines(init, ws);
      RowIsOneLine(Marker(c), Cells(c), ws);
    }
  }

  lemma {:induction false} TableLines(checkIns: seq<CheckIn>)
    requires checkIns != [] && forall i :: 0 <= i < |checkIns| ==> OneLine(checkIns[i])
    ensures Table(checkIns) != "" && SplitLines(Table(checkIns)) == Lines(checkIns)
  {
    hide RowLine, JoinLines, SplitLines, OneLine, Cells, Body;
    var ws := Widths(checkIns);
    forall i | 0 <= i < |checkIns|
      ensures Fits(Cells(checkIns[i]), ws)
    {
      CellsFit(checkIns, i);
    }
    BodyLines(checkIns, ws);
    HeadLines(checkIns);
    SplitJoined(Lines(checkIns));
    EmptyIsOneLine();
    assert |Lines(checkIns)| >= 2;
  }

  lemma EmptyIsOneLine()
    ensures SplitLines("") == [""]
  {
  }

  lemma DashesAreOneLine(ws: seq<nat>)
    ensures OneLineEach(Dashes(ws)) && OneLineEach(HEADERS)
  {
  }

  lemma HeadLines(checkIns: seq<CheckIn>)
    ensures var ws := Widths(checkIns);
      '\n' !in RowLine(' ', HEADERS, ws) && '\n' !in RowLine(' ', Dashes(ws), ws)
  {
    hide RowLine, Width;
    var ws := Widths(checkIns);
    DashesAreOneLine(ws);
    RowIsOneLine(' ', HEADERS, ws);
    RowIsOneLine(' ', Dashes(ws), ws);
  }

  // ---------------------------------------------------------------------------
  // Rows and comments

  /** A row line that reads as a comment line. */
  predicate Confusable(c: CheckIn, ws: seq<nat>)
    requires |ws| == COLUMNS
  {
    IsComment(RowLine(Marker(c), Cells(c), ws))
  }

  lemma ReadSnoc(lines: seq<string>, line: string, ws: seq<nat>)
    requires |ws| == COLUMNS
    ensures var before := ReadBody(lines, ws);
      ReadBody(lines + [line], ws) ==
      if before == [] || !IsComment(line) then before + [Entry(Marked(line), CellsAt(line, ws), "")]
      else before[|before| - 1 := before[|before| - 1].(comments := line[4..])]
  {
    assert (lines + [line])[..|lines|] == lines;
  }

  /** The lines of one check-in add its record, unless its row reads as a comment on one before it. */
  lemma ReadOne(lines: seq<string>, c: CheckIn, ws: seq<nat>)
    requires Fits(Cells(c), ws)
    ensures var before := ReadBody(lines, ws);
      var after := ReadBody(lines + [RowLine(Marker(c), Cells(c), ws)] + Comment(c), ws);
      if before != [] && Confusable(c, ws) then |after| == |before| else after == before + [Recorded(c)]
  {
    hide ReadBody, RowLine, CellAt, Cells;
    var row := RowLine(Marker(c), Cells(c), ws);
    ReadSnoc(lines, row, ws);
    forall col | 0 <= col < COLUMNS
      ensures CellAt(row, ws, col) == RStrip(Cells(c)[col])
    {
      CellRecovered(Marker(c), Cells(c), ws, col);
    }
    assert CellsAt(row, ws) == StrippedCells(c);
    MarkerRecovered(c, ws);
    if OrEmpty(c.comments) != "" {
      var line := "    " + OrEmpty(c.comments);
      ReadSnoc(lines + [row], line, ws);
      assert line[4..] == OrEmpty(c.comments);
    } else {
      assert lines + [row] + [] == lines + [row];
    }
  }

  lemma {:induction false} BodyReads(checkIns: seq<CheckIn>, ws: seq<nat>)
    requires AllFit(checkIns, ws)
    ensures |ReadBody(Body(checkIns, ws), ws)| <= |checkIns|
    ensures ReadBody(Body(checkIns, ws), ws) == [] <==> checkIns == []
    ensures (forall i :: 0 < i < |checkIns| ==> !Confusable(checkIns[i], ws)) ==>
      ReadBody(Body(checkIns, ws), ws) == Records(checkIns)
    ensures (exists i :: 0 < i < |checkIns| && Confusable(checkIns[i], ws)) ==>
      |ReadBody(Body(checkIns, ws), ws)| < |checkIns|
  {
    hide Confusable, ReadBody, RowLine, Cells, Fits, OneLine;
    if checkIns == [] {
      NothingRead(ws);
    } else {
      var init, c := checkIns[..|checkIns| - 1], checkIns[|checkIns| - 1];
      forall i | 0 <= i < |init|
        ensures init[i] == checkIns[i]
      {
      }
      BodyReads(init, ws);
      ReadOne(Body(init, ws), c, ws);
    }
  }

  lemma NothingRead(ws: seq<nat>)
    requires |ws| == COLUMNS
    ensures ReadBody([], ws) == []
  {
  }

  /** A table of check-ins without line breaks gives every check-in back, with its marker, its cells and
      its comment, exactly when no row after the first reads as a comment line. */
  lemma {:induction false} TableReadsBackExactly(checkIns: seq<CheckIn>)
    requires forall i :: 0 <= i < |checkIns| ==> OneLine(checkIns[i])
    ensures ReadTable(Table(checkIns), Widths(checkIns)) == Records(checkIns)
       <==> forall i :: 0 < i < |checkIns| ==> !Confusable(checkIns[i], Widths(checkIns))
  {
    hide Confusable, ReadBody, RowLine, Cells, OneLine, Body, SplitLines, JoinLines, Width;
    if checkIns != [] {
      var ws := Widths(checkIns);
      TableLines(checkIns);
      assert Lines(checkIns)[2..] == Body(checkIns, ws);
      forall i | 0 <= i < |checkIns|
        ensures Fits(Cells(checkIns[i]), ws)
      {
        CellsFit(checkIns, i);
      }
      BodyReads(checkIns, ws);
    }
  }

  // ---------------------------------------------------------------------------
  // Which rows read as comments

  predicate Blank(s: string) { forall i :: 0 <= i < |s| ==> IsSpace(s[i]) }

  lemma {:induction false} BlankStrips(s: string)
    ensures RStrip(s) == "" <==> Blank(s)
  {
    hide IsSpace;
  }

  lemma {:induction false} JoinedBlank(vals: seq<string>, ws: seq<nat>, n: nat)
    requires Fits(vals, ws) && n <= COLUMNS && forall i :: 0 <= i < COLUMNS ==> Blank(vals[i])
    ensures Blank(Joined(vals, ws, n))
  {
    if n > 0 {
      PaddedBlank(vals[n - 1], ws[n - 1]);
      JoinedBlank(vals, ws, n - 1);
    }
  }

  lemma PaddedBlank(s: string, w: nat)
    requires Blank(s)
    ensures Blank(LJust(s, w))
  {
    assert IsSpace(' ');
  }

  /** A row has something to show exactly when some cell has. */
  lemma {:induction false} RowIsEmpty(c: CheckIn, ws: seq<nat>)
    requires Fits(Cells(c), ws) && !c.newMember
    ensures RowLine(Marker(c), Cells(c), ws) == "" <==> forall i :: 0 <= i < COLUMNS ==> Blank(Cells(c)[i])
  {
    hide Joined, RStrip, Cells, Slice, Blank;
    var row := RowLine(Marker(c), Cells(c), ws);
    if forall i :: 0 <= i < COLUMNS ==> Blank(Cells(c)[i]) {
      JoinedBlank(Cells(c), ws, COLUMNS);
      BlankAfterBlanks(Joined(Cells(c), ws, COLUMNS));
      BlankStrips([Marker(c), ' '] + Joined(Cells(c), ws, COLUMNS));
    } else if row == "" {
      forall i | 0 <= i < COLUMNS
        ensures Blank(Cells(c)[i])
      {
        CellRecovered(Marker(c), Cells(c), ws, i);
        EmptySlice(Offset(ws, i), Offset(ws, i) + ws[i]);
        BlankStrips(Cells(c)[i]);
      }
      assert false;
    }
  }

  lemma EmptySlice(m: nat, n: nat)
    ensures RStrip(Slice("", m, n)) == ""
  {
  }

  lemma BlankAfterBlanks(s: string)
    requires Blank(s)
    ensures Blank([' ', ' '] + s)
  {
    assert IsSpace(' ');
  }

  /** A name that shows nothing in the first two places of its column. */
  predicate Indented(name: string) { forall i :: 0 <= i < |name| && i < 2 ==> name[i] == ' ' }

  /** A row reads as a comment exactly when it is not a new member's, its name is missing or starts with
      blanks, and some cell is not blank. */
  lemma ConfusableExactly(c: CheckIn, ws: seq<nat>)
    requires Fits(Cells(c), ws) && ws[0] >= 4
    ensures Confusable(c, ws) <==>
      !c.newMember && Indented(c.name) && exists i :: 0 <= i < COLUMNS && !Blank(Cells(c)[i])
  {
    hide RowLine, Blank;
    if c.newMember {
      MarkerRecovered(c, ws);
    } else {
      RowIsEmpty(c, ws);
      RowStarts(c, ws);
    }
  }

  /** A row line that shows anything starts with four spaces exactly when the name is indented. */
  lemma {:induction false} RowStarts(c: CheckIn, ws: seq<nat>)
    requires Fits(Cells(c), ws) && ws[0] >= 4 && !c.newMember
    ensures var row := RowLine(Marker(c), Cells(c), ws);
      IsComment(row) <==> row != "" && Indented(c.name)
  {
    hide Joined, RStrip, Indented;
    var text := Joined(Cells(c), ws, COLUMNS);
    TextStarts(c, ws);
    StrippedStart([Marker(c), ' '] + text);
  }

  lemma {:induction false} TextStarts(c: CheckIn, ws: seq<nat>)
    requires Fits(Cells(c), ws) && ws[0] >= 4
    ensures var text := Joined(Cells(c), ws, COLUMNS);
      |text| >= 4 && (text[0] == text[1] == ' ' <==> Indented(c.name))
  {
    hide Joined, LJust, Indented;
    var text, name := Joined(Cells(c), ws, COLUMNS), LJust(c.name, ws[0]);
    JoinedAt(Cells(c), ws, COLUMNS, 0);
    NamePadded(c.name, ws[0]);
    assert text[0..ws[0]] == name;
    assert text[0..ws[0]][0] == text[0] && text[0..ws[0]][1] == text[1];
  }

  /** A line cut at its end still starts as it did, if anything of it is left. */
  lemma {:induction false} StrippedStart(s: string)
    requires |s| >= 4
    ensures IsComment(RStrip(s)) <==> RStrip(s) != "" && s[0] == s[1] == s[2] == s[3] == ' '
  {
    hide RStrip;
    var r := RStrip(s);
    if r != "" && s[0] == s[1] == s[2] == s[3] == ' ' {
      assert r[|r| - 1] == s[|r| - 1];
      assert |r| >= 5;
    }
  }

  lemma NamePadded(name: string, w: nat)
    requires |name| <= w && w >= 4
    ensures |LJust(name, w)| == w
    ensures LJust(name, w)[0] == LJust(name, w)[1] == ' ' <==> Indented(name)
  {
  }

  // ---------------------------------------------------------------------------
  // What a table's text says

  /** After a column's dashes comes a blank, or nothing when it is the last. */
  lemma {:induction false} AfterColumn(vals: seq<string>, ws: seq<nat>, n: nat, col: nat)
    requires Fits(vals, ws) && col < n <= COLUMNS
    ensures var text, k := Joined(vals, ws, n), Offset(ws, col) - 2 + ws[col];
      if col == n - 1 then |text| == k else k < |text| && text[k] == ' '
  {
    JoinedLength(vals, ws, n);
    if col < n - 1 {
      JoinedLength(vals, ws, n - 1);
      AfterColumn(vals, ws, n - 1, col);
    }
  }

  lemma DashesFit(ws: seq<nat>)
    requires |ws| == COLUMNS
    ensures Fits(Dashes(ws), ws)
  {
  }

  /** The line of dashes holds a dash at each place of a column, and none right after it. */
  lemma {:induction false} DashLine(ws: seq<nat>, col: nat, k: nat)
    requires |ws| == COLUMNS && (forall i :: 0 <= i < COLUMNS ==> ws[i] >= 1) && col < COLUMNS && k <= ws[col]
    ensures var line, at := RowLine(' ', Dashes(ws), ws), Offset(ws, col) + k;
      (at < |line| && line[at] == '-') <==> k < ws[col]
  {
    hide Joined, RStrip, LJust;
    var text := Joined(Dashes(ws), ws, COLUMNS);
    DashesFit(ws);
    JoinedAt(Dashes(ws), ws, COLUMNS, col);
    AfterColumn(Dashes(ws), ws, COLUMNS, col);
    NothingToStrip(ws);
    var column := text[Offset(ws, col) - 2..Offset(ws, col) - 2 + ws[col]];
    assert column == Times('-', ws[col]) by { FullColumn(ws[col]); }
    if k < ws[col] {
      assert column[k] == text[Offset(ws, col) - 2 + k];
    }
  }

  lemma FullColumn(w: nat)
    ensures LJust(Times('-', w), w) == Times('-', w)
  {
  }

  lemma {:induction false} NothingToStrip(ws: seq<nat>)
    requires |ws| == COLUMNS && forall i :: 0 <= i < COLUMNS ==> ws[i] >= 1
    ensures RowLine(' ', Dashes(ws), ws) == [' ', ' '] + Joined(Dashes(ws), ws, COLUMNS)
  {
    hide Joined, RStrip, LJust;
    var text := Joined(Dashes(ws), ws, COLUMNS);
    var last := COLUMNS - 1;
    DashesFit(ws);
    JoinedAt(Dashes(ws), ws, COLUMNS, last);
    AfterColumn(Dashes(ws), ws, COLUMNS, last);
    var column := text[Offset(ws, last) - 2..Offset(ws, last) - 2 + ws[last]];
    assert column == Times('-', ws[last]) by { FullColumn(ws[last]); }
    assert column[ws[last] - 1] == text[|text| - 1];
    assert column[ws[last] - 1] == '-' && !IsSpace('-');
    var padded := [' ', ' '] + text;
    assert padded[|padded| - 1] == text[|text| - 1];
  }

  lemma {:induction false} SameOffset(a: seq<nat>, b: seq<nat>, col: nat)
    requires |a| == |b| && col <= |a| && a[..col] == b[..col]
    ensures Offset(a, col) == Offset(b, col)
  {
    if col > 0 {
      assert a[..col - 1] == a[..col][..col - 1] && b[..col - 1] == b[..col][..col - 1];
      assert a[..col][col - 1] == b[..col][col - 1];
      SameOffset(a, b, col - 1);
    }
  }

  /** The line of dashes tells the widths. */
  lemma {:induction false} DashesTellWidths(a: seq<nat>, b: seq<nat>, n: nat)
    requires |a| == |b| == COLUMNS && n <= COLUMNS
    requires forall i :: 0 <= i < COLUMNS ==> a[i] >= 1 && b[i] >= 1
    requires RowLine(' ', Dashes(a), a) == RowLine(' ', Dashes(b), b)
    ensures a[..n] == b[..n]
  {
    hide RowLine, Dashes;
    if n > 0 {
      var col := n - 1;
      DashesTellWidths(a, b, col);
      SameOffset(a, b, col);
      if a[col] < b[col] {
        DashLine(a, col, a[col]);
        DashLine(b, col, a[col]);
      } else {
        DashLine(a, col, b[col]);
        DashLine(b, col, b[col]);
      }
      assert a[..n] == a[..col] + [a[col]] && b[..n] == b[..col] + [b[col]];
    }
  }

  ghost predicate Readable(checkIns: seq<CheckIn>)
  {
    && (forall i :: 0 <= i < |checkIns| ==> OneLine(checkIns[i]))
    && (forall i :: 0 < i < |checkIns| ==> !Confusable(checkIns[i], Widths(checkIns)))
  }

  /** The text of a table by itself tells what is in it: two tables of check-ins without line breaks, none of
      whose rows after the first reads as a comment, have the same text only if they say the same of the same
      check-ins. */
  lemma TextTellsTable(a: seq<CheckIn>, b: seq<CheckIn>)
    requires Readable(a) && Readable(b) && Table(a) == Table(b)
    ensures Records(a) == Records(b)
  {
    hide Confusable, OneLine, Lines, JoinLines, SplitLines, Widths, ReadTable, Records, RowLine, Dashes;
    if a != [] {
      TableLines(a);
    }
    if b != [] {
      TableLines(b);
    }
    if a != [] && b != [] {
      SecondLine(a);
      SecondLine(b);
      WideEnough(a);
      WideEnough(b);
      DashesTellWidths(Widths(a), Widths(b), COLUMNS);
      assert Widths(a)[..COLUMNS] == Widths(a) && Widths(b)[..COLUMNS] == Widths(b);
      TableReadsBackExactly(a);
      TableReadsBackExactly(b);
    }
  }

  lemma SecondLine(checkIns: seq<CheckIn>)
    ensures |Lines(checkIns)| >= 2 && Lines(checkIns)[1] == RowLine(' ', Dashes(Widths(checkIns)), Widths(checkIns))
  {
    hide RowLine, Dashes, Widths, Body;
  }

  /** The first line of a table names its columns. */
  lemma HeadingsRead(checkIns: seq<CheckIn>, col: nat)
    requires col < 6
    ensures |Lines(checkIns)| >= 2
    ensures CellAt(Lines(checkIns)[0], Widths(checkIns), col)
         == ["Name", "Callsign", "City", "County", "State", "Mode"][col]
  {
    hide RowLine, Width, CellAt, Dashes, Body;
    var ws := Widths(checkIns);
    CellRecovered(' ', HEADERS, ws, col);
    HeadingTrimmed(HEADERS[col]);
  }

  lemma HeadingTrimmed(s: string)
    requires s in HEADERS
    ensures RStrip(s) == s
  {
  }

  lemma WideEnough(checkIns: seq<CheckIn>)
    ensures forall i :: 0 <= i < COLUMNS ==> Widths(checkIns)[i] >= 1
  {
    hide Width;
  }

  lemma WidthOnlyCells(a: seq<CheckIn>, b: seq<CheckIn>)
    requires |a| == |b| && forall i :: 0 <= i < |a| ==> Cells(a[i]) == Cells(b[i])
    ensures Widths(a) == Widths(b)
  {
    hide Cells, Width;
    forall col | 0 <= col < COLUMNS
      ensures Width(a, col) == Width(b, col)
    {
    }
  }

  lemma BodySnoc(checkIns: seq<CheckIn>, c: CheckIn, ws: seq<nat>)
    requires |ws| == COLUMNS
    ensures Body(checkIns + [c], ws) == Body(checkIns, ws) + [RowLine(Marker(c), Cells(c), ws)] + Comment(c)
  {
    hide RowLine, Cells, Comment;
    assert (checkIns + [c])[..|checkIns|] == checkIns;
  }

  lemma {:induction false} BodyJoins(a: seq<CheckIn>, b: seq<CheckIn>, ws: seq<nat>)
    requires |ws| == COLUMNS
    ensures Body(a + b, ws) == Body(a, ws) + Body(b, ws)
  {
    hide RowLine, Cells, Comment;
    if b == [] {
      assert a + b == a;
    } else {
      var init := b[..|b| - 1];
      assert a + b == (a + init) + [b[|b| - 1]] && init + [b[|b| - 1]] == b;
      BodyJoins(a, init, ws);
      BodySnoc(a + init, b[|b| - 1], ws);
      BodySnoc(init, b[|b| - 1], ws);
    }
  }

  /** A row that reads as a comment, below a row without one, has a twin: the table without it, whose check-in
      above has the row's text for its comment, is the same text though it has one check-in less. */
  lemma ConfusableHasTwin(front: seq<CheckIn>, above: CheckIn, c: CheckIn, back: seq<CheckIn>)
    requires OrEmpty(above.comments) == "" && OrEmpty(c.comments) == ""
    requires var all := front + [above, c] + back;
      Widths(all) == Widths(front + [above] + back) && Confusable(c, Widths(all))
    ensures var all := front + [above, c] + back;
      var row := RowLine(Marker(c), Cells(c), Widths(all));
      var twin := front + [above.(comments := Some(row[4..]))] + back;
      Table(twin) == Table(all) && Records(twin) != Records(all)
  {
    hide Width, Widths, RowLine, Cells, Body, JoinLines, Records, Dashes;
    var all, one := front + [above, c] + back, front + [above] + back;
    var ws := Widths(all);
    var row := RowLine(Marker(c), Cells(c), ws);
    ConfusableIsLong(c, ws);
    var commented := above.(comments := Some(row[4..]));
    var twin := front + [commented] + back;
    assert front + [above, c] == front + [above] + [c];
    SameCells(above, Some(row[4..]));
    WidthOnlyCells(twin, one);
    BodyJoins(front + [above, c], back, ws);
    BodyJoins(front + [commented], back, ws);
    BodySnoc(front + [above], c, ws);
    BodySnoc(front, above, ws);
    BodySnoc(front, commented, ws);
    assert "    " + row[4..] == row;
    assert Body(front + [commented], ws) == Body(front + [above, c], ws);
    assert |Records(twin)| != |Records(all)|;
  }

  lemma {:induction false} ConfusableIsLong(c: CheckIn, ws: seq<nat>)
    requires |ws| == COLUMNS && Confusable(c, ws)
    ensures |RowLine(Marker(c), Cells(c), ws)| > 4
  {
    hide Joined, RStrip, Cells;
    assert IsSpace(' ');
  }

  lemma SameCells(c: CheckIn, comments: Option<string>)
    ensures Cells(c.(comments := comments)) == Cells(c)
  {
  }
}
