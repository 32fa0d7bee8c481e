/** The roster's fixed-width check-in table. */
module RosterTable {
  import opened PyText

  datatype CheckIn = CheckIn(
    name: string, callsign: string, city: Option<string>, county: Option<string>, state: Option<string>, mode: string,
    newMember: bool, comments: Option<string>)

  const HEADERS: seq<string> := ["Name", "Callsign", "City", "County", "State", "Mode"]

  const COLUMNS: nat := 6

  function OrEmpty(s: Option<string>): string { if s.Some? then s.value else "" }

  function Cells(c: CheckIn): (r: seq<string>)
    ensures |r| == COLUMNS
  {
    [c.name, c.callsign, OrEmpty(c.city), OrEmpty(c.county), OrEmpty(c.state), c.mode]
  }

  function Max(a: nat, b: nat): nat { if a < b then b else a }

  /** A column is as wide as its header and its widest cell. */
  function Width(checkIns: seq<CheckIn>, col: nat): (w: nat)
    requires col < COLUMNS
    ensures |HEADERS[col]| <= w
    ensures forall i :: 0 <= i < |checkIns| ==> |Cells(checkIns[i])[col]| <= w
    ensures w == |HEADERS[col]| || exists i :: 0 <= i < |checkIns| && |Cells(checkIns[i])[col]| == w
  {
    if checkIns == [] then |HEADERS[col]|
    else
      var n := |checkIns| - 1;
      assert forall i :: 0 <= i < n ==> checkIns[..n][i] == checkIns[i];
      Max(Width(checkIns[..n], col), |Cells(checkIns[n])[col]|)
  }

  function Widths(checkIns: seq<CheckIn>): (ws: seq<nat>)
    ensures |ws| == COLUMNS && forall col :: 0 <= col < COLUMNS ==> ws[col] == Width(checkIns, col)
  {
    seq(COLUMNS, col requires 0 <= col < COLUMNS => Width(checkIns, col))
  }

  function Times(c: char, n: nat): (s: string)
    ensures |s| == n && forall i :: 0 <= i < n ==> s[i] == c
  {
    seq(n, _ => c)
  }

  /** `s.ljust(w)` */
  function LJust(s: string, w: nat): (r: string)
    ensures |r| == Max(|s|, w) && r[..|s|] == s && forall i :: |s| <= i < |r| ==> r[i] == ' '
  {
    if |s| < w then s + Times(' ', w - |s|) else s
  }

  /** The first n columns, two spaces apart. */
  function Joined(vals: seq<string>, ws: seq<nat>, n: nat): string
    requires n <= |vals| && n <= |ws|
  {
    if n == 0 then ""
    else if n == 1 then LJust(vals[0], ws[0])
    else Joined(vals, ws, n - 1) + "  " + LJust(vals[n - 1], ws[n - 1])
  }

  function RowLine(marker: char, vals: seq<string>, ws: seq<nat>): string
    requires |vals| == |ws| == COLUMNS
  {
    RStrip([marker, ' '] + Joined(vals, ws, COLUMNS))
  }

  function Marker(c: CheckIn): char { if c.newMember then '*' else ' ' }

  function Comment(c: CheckIn): seq<string>
  {
    if OrEmpty(c.comments) != "" then ["    " + OrEmpty(c.comments)] else []
  }

  /** A row per check-in, and below it its comment when there is one. */
  function Body(checkIns: seq<CheckIn>, ws: seq<nat>): seq<string>
    requires |ws| == COLUMNS
  {
    if checkIns == [] then []
    else
      var n := |checkIns| - 1;
      var c := checkIns[n];
      Body(checkIns[..n], ws) + [RowLine(Marker(c), Cells(c), ws)] + Comment(c)
  }

  function Dashes(ws: seq<nat>): (r: seq<string>)
    ensures |r| == |ws| && forall i :: 0 <= i < |ws| ==> |r[i]| == ws[i]
  {
    seq(|ws|, i requires 0 <= i < |ws| => Times('-', ws[i]))
  }

  function Lines(checkIns: seq<CheckIn>): seq<string>
  {
    var ws := Widths(checkIns);
    [RowLine(' ', HEADERS, ws), RowLine(' ', Dashes(ws), ws)] + Body(checkIns, ws)
  }

  /** `"\n".join(lines)` */
  function JoinLines(lines: seq<string>): string
  {
    if lines == [] then ""
    else if |lines| == 1 then lines[0]
    else JoinLines(lines[..|lines| - 1]) + "\n" + lines[|lines| - 1]
  }

  function Table(checkIns: seq<CheckIn>): string
  {
    if checkIns == [] then "" else JoinLines(Lines(checkIns))
  }

  /** The table as it is rendered, line by line. */
  method FormatRosterTable(checkIns: seq<CheckIn>) returns (table: string)
    ensures table == Table(checkIns)
  {
    hide RowLine, Widths, Width, Cells, Comment;
    if checkIns == [] {
      return "";
    }
    var ws := MeasureColumns(checkIns);
    var lines := [RowLine(' ', HEADERS, ws), RowLine(' ', Dashes(ws), ws)];
    ghost var head := lines;
    for i := 0 to |checkIns|
      invariant lines == head + Body(checkIns[..i], ws)
    {
      assert checkIns[..i + 1][..i] == checkIns[..i];
      var c := checkIns[i];
      lines := lines + [RowLine(Marker(c), Cells(c), ws)];
      lines := lines + Comment(c);
    }
    assert checkIns[..|checkIns|] == checkIns;
    table := JoinLines(lines);
  }

  method MeasureColumns(checkIns: seq<CheckIn>) returns (ws: seq<nat>)
    ensures ws == Widths(checkIns)
  {
    hide Width;
    ws := [];
    for col: nat := 0 to COLUMNS
      invariant |ws| == col && forall k :: 0 <= k < col ==> ws[k] == Width(checkIns, k)
    {
      var w := MeasureColumn(checkIns, col);
      ws := ws + [w];
    }
    assert ws == Widths(checkIns);
  }

  method MeasureColumn(checkIns: seq<CheckIn>, col: nat) returns (w: nat)
    requires col < COLUMNS
    ensures w == Width(checkIns, col)
  {
    hide Width, Cells;
    w := |HEADERS[col]|;
    NoCells(checkIns, col);
    for i := 0 to |checkIns|
      invariant w == Width(checkIns[..i], col)
    {
      WidthSnoc(checkIns, i, col);
      if w < |Cells(checkIns[i])[col]| {
        w := |Cells(checkIns[i])[col]|;
      }
    }
    assert checkIns[..|checkIns|] == checkIns;
  }

  lemma NoCells(checkIns: seq<CheckIn>, col: nat)
    requires col < COLUMNS
    ensures Width(checkIns[..0], col) == |HEADERS[col]|
  {
  }

  lemma WidthSnoc(checkIns: seq<CheckIn>, i: nat, col: nat)
    requires i < |checkIns| && col < COLUMNS
    ensures Width(checkIns[..i + 1], col) == Max(Width(checkIns[..i], col), |Cells(checkIns[i])[col]|)
  {
    hide Cells;
    assert checkIns[..i + 1][..i] == checkIns[..i];
  }

  // ---------------------------------------------------------------------------
  // Reading a row back

  /** Where a column starts in a row line. */
  function Offset(ws: seq<nat>, col: nat): nat
    requires col <= |ws|
  {
    if col == 0 then 2 else Offset(ws, col - 1) + ws[col - 1] + 2
  }

  /** The text between a column's bounds, without the padding. */
  function CellAt(line: string, ws: seq<nat>, col: nat): string
    requires col < |ws|
  {
    RStrip(Slice(line, Offset(ws, col), Offset(ws, col) + ws[col]))
  }

  predicate Fits(vals: seq<string>, ws: seq<nat>)
  {
    |vals| == |ws| == COLUMNS && forall i :: 0 <= i < COLUMNS ==> |vals[i]| <= ws[i]
  }

  lemma {:induction false} JoinedLength(vals: seq<string>, ws: seq<nat>, n: nat)
    requires Fits(vals, ws) && 1 <= n <= COLUMNS
    ensures |Joined(vals, ws, n)| == Offset(ws, n) - 4
  {
    if n > 1 {
      JoinedLength(vals, ws, n - 1);
    } else {
      assert Offset(ws, 1) == Offset(ws, 0) + ws[0] + 2;
    }
  }

  lemma {:induction false} JoinedAt(vals: seq<string>, ws: seq<nat>, n: nat, col: nat)
    requires Fits(vals, ws) && col < n <= COLUMNS
    ensures Offset(ws, col) >= 2
    ensures Offset(ws, col) - 2 + ws[col] <= |Joined(vals, ws, n)|
    ensures Joined(vals, ws, n)[Offset(ws, col) - 2..Offset(ws, col) - 2 + ws[col]] == LJust(vals[col], ws[col])
  {
    hide LJust;
    JoinedLength(vals, ws, n);
    if n > 1 {
      JoinedLength(vals, ws, n - 1);
      if col < n - 1 {
        JoinedAt(vals, ws, n - 1, col);
      }
    }
  }

  lemma {:induction false} RStripKeeps(s: string, k: nat)
    requires k <= |s| && forall i :: k <= i < |s| ==> IsSpace(s[i])
    ensures RStrip(s) == RStrip(s[..k])
  {
    if k < |s| {
      var init := s[..|s| - 1];
      assert init[..k] == s[..k];
      RStripKeeps(init, k);
    } else {
      assert s[..k] == s;
    }
  }

  /** How much of a slice is left when the line is cut to `len` characters. */
  function Remaining(len: nat, m: nat, n: nat): (k: nat)
    requires m <= n
    ensures k <= n - m
  {
    if len <= m then 0 else if len <= n then len - m else n - m
  }

  lemma SliceTwice<T>(s: seq<T>, len: nat, m: nat, n: nat)
    requires m <= n <= len <= |s|
    ensures s[..len][m..n] == s[m..n]
  {
  }

  lemma ShortSlice(line: string, len: nat, m: nat, n: nat)
    requires m <= n <= |line| && len <= |line|
    ensures Slice(line[..len], m, n) == line[m..n][..Remaining(len, m, n)]
  {
    if len <= m {
      assert Slice(line[..len], m, n) == [];
    } else if len <= n {
      SliceTwice(line, len, m, len);
      assert line[m..n][..len - m] == line[m..len];
    } else {
      SliceTwice(line, len, m, n);
      assert line[m..n][..n - m] == line[m..n];
    }
  }

  lemma BlankRest(line: string, len: nat, m: nat, n: nat)
    requires m <= n <= |line| && forall i :: len <= i < |line| ==> IsSpace(line[i])
    ensures forall i :: Remaining(len, m, n) <= i < n - m ==> IsSpace(line[m..n][i])
  {
    hide IsSpace;
  }

  /** Cutting off trailing blanks first does not change what a slice holds. */
  lemma SliceOfStripped(line: string, m: nat, n: nat)
    requires m <= n <= |line|
    ensures RStrip(Slice(RStrip(line), m, n)) == RStrip(line[m..n])
  {
    hide RStrip, Remaining, Slice, IsSpace;
    var len := |RStrip(line)|;
    ShortSlice(line, len, m, n);
    BlankRest(line, len, m, n);
    RStripKeeps(line[m..n], Remaining(len, m, n));
  }

  /** Slicing a row line at its columns gives every cell back, but for blanks at its end; a cell without
      them comes back exactly. */
  lemma CellRecovered(marker: char, vals: seq<string>, ws: seq<nat>, col: nat)
    requires Fits(vals, ws) && col < COLUMNS
    ensures CellAt(RowLine(marker, vals, ws), ws, col) == RStrip(vals[col])
  {
    hide Joined, LJust, RStrip, Slice;
    var padded := [marker, ' '] + Joined(vals, ws, COLUMNS);
    var m, n := Offset(ws, col), Offset(ws, col) + ws[col];
    JoinedAt(vals, ws, COLUMNS, col);
    assert padded[m..n] == Joined(vals, ws, COLUMNS)[m - 2..n - 2];
    SliceOfStripped(padded, m, n);
    PaddingStrips(vals[col], ws[col]);
  }

  lemma PaddingStrips(s: string, w: nat)
    ensures RStrip(LJust(s, w)) == RStrip(s)
  {
    RStripKeeps(LJust(s, w), |s|);
  }

  predicate Marked(line: string) { line != "" && line[0] == '*' }

  /** The first character of a row line is a star exactly for new members. */
  lemma MarkerRecovered(c: CheckIn, ws: seq<nat>)
    requires |ws| == COLUMNS
    ensures Marked(RowLine(Marker(c), Cells(c), ws)) <==> c.newMember
  {
    hide Joined, Cells;
    var padded := [Marker(c), ' '] + Joined(Cells(c), ws, COLUMNS);
    assert padded[0] == Marker(c) && !IsSpace('*');
  }
}
