/** The after-action report: stints and time on the event per participant, recomputed from the log. */
module EventReport {
  import opened PyText
  import opened Events
  import opened EventLaws
  import opened EventTimes

  /** A stay at the event; the end is None while it lasts. Times in microseconds. */
  datatype Stint = Stint(start: int, end: Option<int>)

  /** The stints ended so far and the start of the one that is not. */
  datatype Tally = Tally(ended: seq<Stint>, open: Option<int>)

  function Counted(t: Tally, x: LogEntry): Tally
  {
    if x.newStatus == Some(CheckedIn) && t.open.None? then t.(open := Some(x.createdAt))
    else if x.newStatus == Some(CheckedOut) && t.open.Some? then
      Tally(t.ended + [Stint(t.open.value, Some(x.createdAt))], None)
    else t
  }

  predicate Concerns(x: LogEntry, callsign: string)
  {
    x.callsign == Some(callsign) && (x.newStatus == Some(CheckedIn) || x.newStatus == Some(CheckedOut))
  }

  /** The tally over the entries that concern the callsign. */
  function TallyOf(log: seq<LogEntry>, callsign: string): Tally
  {
    if log == [] then Tally([], None)
    else
      var last := log[|log| - 1];
      var t := TallyOf(log[..|log| - 1], callsign);
      if Concerns(last, callsign) then Counted(t, last) else t
  }

  function StintsOf(t: Tally): seq<Stint>
  {
    t.ended + if t.open.Some? then [Stint(t.open.value, None)] else []
  }

  function TotalTime(stints: seq<Stint>, cutoff: int): int
  {
    if stints == [] then 0
    else
      var s := stints[|stints| - 1];
      TotalTime(stints[..|stints| - 1], cutoff) + (if s.end.Some? then s.end.value else cutoff) - s.start
  }

  datatype ReportRow = ReportRow(callsign: string, stints: seq<Stint>, totalSeconds: int)

  /** Python's `int()` of a number of seconds given in microseconds. */
  function WholeSeconds(t: int): int { if t >= 0 then t / 1_000_000 else -(-t / 1_000_000) }

  function RowOf(log: seq<LogEntry>, callsign: string, cutoff: int): ReportRow
  {
    var stints := StintsOf(TallyOf(log, callsign));
    ReportRow(callsign, stints, WholeSeconds(TotalTime(stints, cutoff)))
  }

  /** The entries that concern the callsign, in order. */
  function About(log: seq<LogEntry>, callsign: string): seq<LogEntry>
  {
    if log == [] then []
    else About(log[..|log| - 1], callsign)
         + if Concerns(log[|log| - 1], callsign) then [log[|log| - 1]] else []
  }

  function TallyAll(entries: seq<LogEntry>): Tally
  {
    if entries == [] then Tally([], None) else Counted(TallyAll(entries[..|entries| - 1]), entries[|entries| - 1])
  }

  lemma {:induction false} TallyOfIsTallyAll(log: seq<LogEntry>, callsign: string)
    ensures TallyOf(log, callsign) == TallyAll(About(log, callsign))
  {
    hide Counted;
    if log != [] {
      TallyOfIsTallyAll(log[..|log| - 1], callsign);
      var before := About(log[..|log| - 1], callsign);
      if Concerns(log[|log| - 1], callsign) {
        assert (before + [log[|log| - 1]])[..|before|] == before;
      } else {
        assert before + [] == before;
      }
    }
  }

  /** The cutoff is when the event closed, or now. */
  method ComputeReport(ev: Event, callsigns: seq<string>, now: int) returns (report: seq<ReportRow>)
    ensures |report| == |callsigns|
    ensures var cutoff := if ev.closedAt.Some? then ev.closedAt.value else now;
      forall i :: 0 <= i < |callsigns| ==> report[i] == RowOf(ev.log, callsigns[i], cutoff)
  {
    hide RowOf, About, TallyOf, TallyAll;
    var byCallsign := GroupByCallsign(ev.log);
    var cutoff := now;
    if ev.closedAt.Some? {
      cutoff := ev.closedAt.value;
    }
    report := [];
    for i := 0 to |callsigns|
      invariant |report| == i && forall j :: 0 <= j < i ==> report[j] == RowOf(ev.log, callsigns[j], cutoff)
    {
      var entries := Group(byCallsign, callsigns[i]);
      var row := RowFromEntries(callsigns[i], entries, ev.log, cutoff);
      report := report + [row];
    }
  }

  type Groups = map<string, seq<LogEntry>>

  function Group(groups: Groups, c: string): seq<LogEntry> { if c in groups then groups[c] else [] }

  lemma AboutSnoc(log: seq<LogEntry>, i: nat, c: string)
    requires i < |log|
    ensures About(log[..i + 1], c) == About(log[..i], c) + if Concerns(log[i], c) then [log[i]] else []
  {
    assert log[..i + 1][..i] == log[..i];
  }

  method GroupByCallsign(log: seq<LogEntry>) returns (groups: Groups)
    ensures forall c :: Group(groups, c) == About(log, c)
  {
    hide About;
    groups := map[];
    assert forall c :: About(log[..0], c) == [] by { AboutNothing(log); }
    for i := 0 to |log|
      invariant forall c :: Group(groups, c) == About(log[..i], c)
    {
      var x := log[i];
      ghost var before := groups;
      if x.callsign.Some? && (x.newStatus == Some(CheckedIn) || x.newStatus == Some(CheckedOut)) {
        groups := groups[x.callsign.value := Group(groups, x.callsign.value) + [x]];
      }
      forall c
        ensures Group(groups, c) == About(log[..i + 1], c)
      {
        AboutSnoc(log, i, c);
        assert Group(before, c) == About(log[..i], c);
      }
    }
    assert log[..|log|] == log;
  }

  lemma AboutNothing(log: seq<LogEntry>)
    ensures forall c :: About(log[..0], c) == []
  {
  }

  method RowFromEntries(callsign: string, entries: seq<LogEntry>, ghost log: seq<LogEntry>, cutoff: int)
      returns (row: ReportRow)
    requires entries == About(log, callsign)
    ensures row == RowOf(log, callsign, cutoff)
  {
    var stints: seq<Stint> := [];
    var openStart: Option<int> := None;
    for i := 0 to |entries|
      invariant Tally(stints, openStart) == TallyAll(entries[..i])
    {
      var entry := entries[i];
      assert entries[..i + 1][..i] == entries[..i];
      if entry.newStatus == Some(CheckedIn) && openStart.None? {
        openStart := Some(entry.createdAt);
      } else if entry.newStatus == Some(CheckedOut) && openStart.Some? {
        stints := stints + [Stint(openStart.value, Some(entry.createdAt))];
        openStart := None;
      }
    }
    assert entries[..|entries|] == entries;
    TallyOfIsTallyAll(log, callsign);
    ghost var tally := Tally(stints, openStart);
    if openStart.Some? {
      stints := stints + [Stint(openStart.value, None)];
    }
    var total := SumStints(stints, cutoff);
    assert StintsOf(tally) == stints;
    row := ReportRow(callsign, stints, WholeSeconds(total));
  }

  method SumStints(stints: seq<Stint>, cutoff: int) returns (total: int)
    ensures total == TotalTime(stints, cutoff)
  {
    total := 0;
    for i := 0 to |stints|
      invariant total == TotalTime(stints[..i], cutoff)
    {
      assert stints[..i + 1][..i] == stints[..i];
      total := total + (if stints[i].end.Some? then stints[i].end.value else cutoff) - stints[i].start;
    }
    assert stints[..|stints|] == stints;
  }

  // ---------------------------------------------------------------------------
  // The report against a replay of every status

  predicate Present(log: seq<LogEntry>, callsign: string)
  {
    var s := LastStatus(log, callsign);
    s.Some? && !s.value.CheckedOut?
  }

  /** Replay: the time up to `until` during which the last status logged was any but CHECKED_OUT. */
  function TimePresent(log: seq<LogEntry>, callsign: string, until: int): int
  {
    if log == [] then 0
    else
      var at := log[|log| - 1].createdAt;
      TimePresent(log[..|log| - 1], callsign, at) + if Present(log, callsign) then until - at else 0
  }

  /** Every stint that ended has its end. */
  ghost predicate TallyShape(t: Tally) { forall i :: 0 <= i < |t.ended| ==> t.ended[i].end.Some? }

  /** What the tally says about the past, for a log in time order read up to `until`. */
  ghost predicate TallyOk(t: Tally, until: int)
  {
    && (forall i :: 0 <= i < |t.ended| ==> t.ended[i].end.Some? && t.ended[i].start <= t.ended[i].end.value <= until)
    && (forall i, j :: 0 <= i < j < |t.ended| ==> t.ended[i].end.value <= t.ended[j].start)
    && (t.open.Some? ==> t.open.value <= until)
    && (forall i :: 0 <= i < |t.ended| && t.open.Some? ==> t.ended[i].end.value <= t.open.value)
  }

  function TallyTime(t: Tally, until: int): int
  {
    TotalTime(t.ended, until) + if t.open.Some? then until - t.open.value else 0
  }

  lemma {:induction false} EndedTimeIsFixed(stints: seq<Stint>, a: int, b: int)
    requires forall i :: 0 <= i < |stints| ==> stints[i].end.Some?
    ensures TotalTime(stints, a) == TotalTime(stints, b)
  {
    if stints != [] {
      EndedTimeIsFixed(stints[..|stints| - 1], a, b);
    }
  }

  lemma LogInit(log: seq<LogEntry>)
    requires LogOk(log) && log != []
    ensures LogOk(log[..|log| - 1])
    ensures LegalEntry(log, |log| - 1)
  {
    var init := log[..|log| - 1];
    forall i | 0 <= i < |init|
      ensures LegalEntry(init, i)
    {
      assert LegalEntry(log, i);
      assert init[..i] == log[..i];
    }
  }

  lemma CountedOk(t: Tally, x: LogEntry)
    requires TallyOk(t, x.createdAt)
    ensures TallyOk(Counted(t, x), x.createdAt)
  {
  }

  lemma {:induction false} TotalSnoc(stints: seq<Stint>, s: Stint, cutoff: int)
    ensures TotalTime(stints + [s], cutoff)
         == TotalTime(stints, cutoff) + (if s.end.Some? then s.end.value else cutoff) - s.start
  {
    assert (stints + [s])[..|stints|] == stints;
  }

  lemma {:induction false} CountedTime(t: Tally, x: LogEntry, until: int)
    requires TallyShape(t)
    ensures TallyShape(Counted(t, x))
    ensures TallyTime(Counted(t, x), until)
         == TallyTime(t, x.createdAt) + if Counted(t, x).open.Some? then until - x.createdAt else 0
  {
    hide TotalTime;
    EndedTimeIsFixed(t.ended, until, x.createdAt);
    if t.open.Some? {
      TotalSnoc(t.ended, Stint(t.open.value, Some(x.createdAt)), until);
    }
  }

  lemma {:induction false} TallyLater(t: Tally, at: int, until: int)
    requires TallyShape(t)
    ensures TallyTime(t, until) == TallyTime(t, at) + if t.open.Some? then until - at else 0
  {
    EndedTimeIsFixed(t.ended, at, until);
  }

  /** Which way an entry leaves the callsign, when status changes are legal. */
  lemma OpenMatchesPresent(log: seq<LogEntry>, callsign: string)
    requires log != [] && LegalEntry(log, |log| - 1)
    requires TallyOf(log[..|log| - 1], callsign).open.Some? <==> Present(log[..|log| - 1], callsign)
    ensures TallyOf(log, callsign).open.Some? <==> Present(log, callsign)
  {
  }

  /** The tally is open exactly while the callsign is present, and it adds up to the replayed time. */
  lemma {:induction false} TallyReplays(log: seq<LogEntry>, callsign: string, until: int)
    requires LogOk(log)
    ensures var t := TallyOf(log, callsign);
      && (t.open.Some? <==> Present(log, callsign))
      && TallyShape(t) && TallyTime(t, until) == TimePresent(log, callsign, until)
    decreases |log|
  {
    hide LogOk, LegalEntry, TallyShape, TallyTime, Counted, LastStatus;
    if log == [] {
      EmptyTally(until);
      assert LastStatus(log, callsign) == None by { NothingLogged(callsign); }
    } else {
      var init, last := log[..|log| - 1], log[|log| - 1];
      LogInit(log);
      TallyReplays(init, callsign, last.createdAt);
      OpenMatchesPresent(log, callsign);
      var t := TallyOf(init, callsign);
      if Concerns(last, callsign) {
        CountedTime(t, last, last.createdAt);
        TallyLater(Counted(t, last), last.createdAt, until);
      } else {
        TallyLater(t, last.createdAt, until);
      }
    }
  }

  /** Of a log in time order, the stints are in order and apart. */
  lemma {:induction false} TallyOrdered(log: seq<LogEntry>, callsign: string, until: int)
    requires TimesOk(log, until)
    ensures TallyOk(TallyOf(log, callsign), until)
    decreases |log|
  {
    hide TallyOk, Counted;
    if log == [] {
      EmptyTally(until);
    } else {
      var init, last := log[..|log| - 1], log[|log| - 1];
      assert TimesOk(init, last.createdAt);
      TallyOrdered(init, callsign, last.createdAt);
      CountedOk(TallyOf(init, callsign), last);
      OkLater(TallyOf(log, callsign), last.createdAt, until);
    }
  }

  lemma LaterOk(log: seq<LogEntry>, at: int, until: int)
    requires TimesOk(log, at) && at <= until
    ensures TimesOk(log, until)
  {
  }

  /** The closing entry is nobody's, so what is dated after the closing time does not count. */
  lemma ClosedTallyOrdered(log: seq<LogEntry>, callsign: string, at: int)
    requires ClosedLog(log, at)
    ensures TallyOk(TallyOf(log, callsign), at)
  {
    hide TallyOk;
    TallyOrdered(log[..|log| - 1], callsign, at);
  }

  lemma OkLater(t: Tally, at: int, until: int)
    requires TallyOk(t, at) && at <= until
    ensures TallyOk(t, until)
  {
  }

  lemma NothingLogged(callsign: string)
    ensures LastStatus([], callsign) == None
  {
  }

  lemma EmptyTally(until: int)
    ensures TallyOk(Tally([], None), until) && TallyShape(Tally([], None)) && TallyTime(Tally([], None), until) == 0
  {
  }

  function EndOf(s: Stint, cutoff: int): int { if s.end.Some? then s.end.value else cutoff }

  predicate Precedes(a: Stint, b: Stint) { a.end.Some? && a.end.value <= b.start }

  /** Stints in time order and apart, each with its start no later than its end, only the last open. */
  predicate StintsInOrder(stints: seq<Stint>, cutoff: int)
  {
    && (forall i :: 0 <= i < |stints| ==> stints[i].start <= EndOf(stints[i], cutoff))
    && (forall i, j :: 0 <= i < j < |stints| ==> Precedes(stints[i], stints[j]))
  }

  lemma StintsInOrderOf(t: Tally, cutoff: int)
    requires TallyOk(t, cutoff)
    ensures StintsInOrder(StintsOf(t), cutoff)
  {
  }

  lemma StintsTotal(t: Tally, cutoff: int)
    requires TallyShape(t)
    ensures TotalTime(StintsOf(t), cutoff) == TallyTime(t, cutoff)
    ensures StintsOf(t) != [] && StintsOf(t)[|StintsOf(t)| - 1].end.None? <==> t.open.Some?
  {
    if t.open.Some? {
      assert StintsOf(t)[..|t.ended|] == t.ended;
    } else {
      assert StintsOf(t) == t.ended;
    }
  }

  /** In every reachable state, whatever the clock did, the report of a participant has a stint, the last
      one open exactly when the participant is not checked out, and its total is the time present replayed
      from the log up to the cutoff, cut to whole seconds. */
  lemma ReportReplays(ops: seq<Timed>, e: int, pid: int, now: int)
    requires pid in After(ops).participants && After(ops).participants[pid].eventId == e && e in After(ops).events
    ensures var db := After(ops); var p := db.participants[pid]; var ev := db.events[e];
      var cutoff := if ev.closedAt.Some? then ev.closedAt.value else now;
      var row := RowOf(ev.log, p.callsign, cutoff);
      && row.stints != [] && (row.stints[|row.stints| - 1].end.None? <==> !p.status.CheckedOut?)
      && row.totalSeconds == WholeSeconds(TimePresent(ev.log, p.callsign, cutoff))
  {
    hide After, LogOk, TallyOf, TallyShape, TallyTime, TimePresent, LastStatus, TotalTime, WholeSeconds;
    var db := After(ops);
    ReachableIsConsistent(ops);
    var ev := db.events[e];
    var cutoff := if ev.closedAt.Some? then ev.closedAt.value else now;
    var c := db.participants[pid].callsign;
    assert ParticipantOk(db, pid);
    TallyReplays(ev.log, c, cutoff);
    StintsTotal(TallyOf(ev.log, c), cutoff);
    SomeStint(ev.log, c);
  }

  /** And if the clock never stepped back, its stints are in time order and apart, and its total is a number
      of seconds that is not negative. */
  lemma ReportIsOrdered(ops: seq<Timed>, e: int, pid: int, now: int)
    requires InOrder(ops) && (ops == [] || ops[|ops| - 1].now <= now) && 0 <= now
    requires pid in After(ops).participants && After(ops).participants[pid].eventId == e && e in After(ops).events
    ensures var db := After(ops); var p := db.participants[pid]; var ev := db.events[e];
      var cutoff := if ev.closedAt.Some? then ev.closedAt.value else now;
      var row := RowOf(ev.log, p.callsign, cutoff);
      StintsInOrder(row.stints, cutoff) && row.totalSeconds == TotalTime(row.stints, cutoff) / 1_000_000 >= 0
  {
    hide After, TallyOf, TallyOk, StintsInOrder, LastStatus, TotalTime, StintsOf, TimesOk, ClosedLog;
    var db := After(ops);
    ReachableIsOrdered(ops);
    var ev := db.events[e];
    var cutoff := if ev.closedAt.Some? then ev.closedAt.value else now;
    var c := db.participants[pid].callsign;
    assert EventTimed(ev, db.clock);
    if ev.closedAt.Some? {
      ClosedTallyOrdered(ev.log, c, cutoff);
    } else {
      LaterOk(ev.log, db.clock, cutoff);
      TallyOrdered(ev.log, c, cutoff);
    }
    StintsInOrderOf(TallyOf(ev.log, c), cutoff);
    TotalNonNegative(StintsOf(TallyOf(ev.log, c)), cutoff);
  }

  /** A callsign with a status has at least one stint. */
  lemma {:induction false} SomeStint(log: seq<LogEntry>, callsign: string)
    requires LastStatus(log, callsign).Some? && LogOk(log)
    ensures StintsOf(TallyOf(log, callsign)) != []
    decreases |log|
  {
    hide Transition, LogOk;
    LogInit(log);
    var init := log[..|log| - 1];
    if LastStatus(init, callsign).Some? {
      SomeStint(init, callsign);
    }
  }

  lemma StintsInit(stints: seq<Stint>, cutoff: int)
    requires StintsInOrder(stints, cutoff) && stints != []
    ensures StintsInOrder(stints[..|stints| - 1], cutoff)
  {
    var init := stints[..|stints| - 1];
    forall i | 0 <= i < |init|
      ensures init[i].start <= EndOf(init[i], cutoff)
    {
      assert init[i] == stints[i];
    }
    forall i, j | 0 <= i < j < |init|
      ensures Precedes(init[i], init[j])
    {
      assert init[i] == stints[i] && init[j] == stints[j];
    }
  }

  lemma {:induction false} TotalNonNegative(stints: seq<Stint>, cutoff: int)
    requires StintsInOrder(stints, cutoff)
    ensures TotalTime(stints, cutoff) >= 0
  {
    if stints != [] {
      StintsInit(stints, cutoff);
      TotalNonNegative(stints[..|stints| - 1], cutoff);
    }
  }
}
