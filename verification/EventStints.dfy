/** Which stints a report lists, read off the log itself. */
module EventStints {
  import opened PyText
  import opened Events
  import opened EventLaws
  import opened EventReport

  /** The callsign checks in while it is not there. */
  predicate Arrives(log: seq<LogEntry>, i: nat, c: string)
    requires i < |log|
  {
    log[i].callsign == Some(c) && log[i].newStatus == Some(CheckedIn) && !Present(log[..i], c)
  }

  predicate Leaves(log: seq<LogEntry>, j: nat, c: string)
    requires j < |log|
  {
    log[j].callsign == Some(c) && log[j].newStatus == Some(CheckedOut)
  }

  /** The first time it checks out after entry i. */
  ghost predicate LeavesFirst(log: seq<LogEntry>, i: nat, j: nat, c: string)
  {
    i < j < |log| && Leaves(log, j, c) && forall k :: i < k < j ==> !Leaves(log, k, c)
  }

  ghost predicate NeverLeaves(log: seq<LogEntry>, i: nat, c: string)
  {
    forall k :: i < k < |log| ==> !Leaves(log, k, c)
  }

  /** The stint begins with entry i, at which the callsign arrives, and ends when it first leaves after that, or is
      open because it never does. */
  ghost predicate IsStint(log: seq<LogEntry>, c: string, s: Stint, i: nat)
  {
    && i < |log| && Arrives(log, i, c) && s.start == log[i].createdAt
    && if s.end.None? then NeverLeaves(log, i, c)
       else exists j: nat :: LeavesFirst(log, i, j, c) && s.end.value == log[j].createdAt
  }

  /** The stints are those that begin with the entries given: every arrival, in the order of the log. */
  ghost predicate Lists(log: seq<LogEntry>, c: string, stints: seq<Stint>, arrivals: seq<nat>)
  {
    && |arrivals| == |stints|
    && (forall m, n :: 0 <= m < n < |arrivals| ==> arrivals[m] < arrivals[n])
    && (forall m :: 0 <= m < |stints| ==> IsStint(log, c, stints[m], arrivals[m]))
    && forall i :: 0 <= i < |log| && Arrives(log, i, c) ==> i in arrivals
  }

  lemma SameArrivals(log: seq<LogEntry>, x: LogEntry, c: string)
    ensures forall i :: 0 <= i < |log| ==> (Arrives(log + [x], i, c) <==> Arrives(log, i, c))
    ensures forall i :: 0 <= i < |log| ==> (Leaves(log + [x], i, c) <==> Leaves(log, i, c))
    ensures Arrives(log + [x], |log|, c) <==>
      x.callsign == Some(c) && x.newStatus == Some(CheckedIn) && !Present(log, c)
    ensures Leaves(log + [x], |log|, c) <==> x.callsign == Some(c) && x.newStatus == Some(CheckedOut)
  {
    hide Present;
    forall i | 0 <= i < |log|
      ensures Arrives(log + [x], i, c) <==> Arrives(log, i, c)
    {
      assert (log + [x])[..i] == log[..i];
    }
    assert (log + [x])[..|log|] == log;
  }

  /** A stint stays one when more is logged, unless it is open and the callsign leaves. */
  lemma StintStays(log: seq<LogEntry>, x: LogEntry, c: string, s: Stint, i: nat)
    requires IsStint(log, c, s, i)
    requires s.end.Some? || !Leaves(log + [x], |log|, c)
    ensures IsStint(log + [x], c, s, i)
  {
    hide Arrives, Leaves;
    SameArrivals(log, x, c);
    var all := log + [x];
    assert all[i] == log[i];
    if s.end.Some? {
      var j: nat :| LeavesFirst(log, i, j, c) && s.end.value == log[j].createdAt;
      assert all[j] == log[j] && LeavesFirst(all, i, j, c);
    }
  }

  /** An open stint ends when the callsign leaves. */
  lemma StintEnds(log: seq<LogEntry>, x: LogEntry, c: string, s: Stint, i: nat)
    requires IsStint(log, c, s, i) && s.end.None? && Leaves(log + [x], |log|, c)
    ensures IsStint(log + [x], c, s.(end := Some(x.createdAt)), i)
  {
    hide Arrives, Leaves;
    SameArrivals(log, x, c);
    var all := log + [x];
    assert all[i] == log[i];
    assert LeavesFirst(all, i, |log|, c) && x.createdAt == all[|log|].createdAt;
  }

  lemma StintBegins(log: seq<LogEntry>, x: LogEntry, c: string)
    requires Arrives(log + [x], |log|, c)
    ensures IsStint(log + [x], c, Stint(x.createdAt, None), |log|)
  {
  }

  lemma ListsSame(log: seq<LogEntry>, x: LogEntry, c: string, stints: seq<Stint>, arrivals: seq<nat>)
    requires Lists(log, c, stints, arrivals) && !Arrives(log + [x], |log|, c)
    requires (forall m :: 0 <= m < |stints| ==> stints[m].end.Some?) || !Leaves(log + [x], |log|, c)
    ensures Lists(log + [x], c, stints, arrivals)
  {
    hide Arrives, Leaves, IsStint;
    SameArrivals(log, x, c);
    forall m | 0 <= m < |stints|
      ensures IsStint(log + [x], c, stints[m], arrivals[m])
    {
      StintStays(log, x, c, stints[m], arrivals[m]);
    }
  }

  lemma ListsArrival(log: seq<LogEntry>, x: LogEntry, c: string, stints: seq<Stint>, arrivals: seq<nat>)
    requires Lists(log, c, stints, arrivals) && Arrives(log + [x], |log|, c)
    requires forall m :: 0 <= m < |stints| ==> stints[m].end.Some?
    ensures Lists(log + [x], c, stints + [Stint(x.createdAt, None)], arrivals + [|log|])
  {
    hide Arrives, Leaves;
    SameArrivals(log, x, c);
    var more := stints + [Stint(x.createdAt, None)];
    var all := arrivals + [|log|];
    forall m | 0 <= m < |more|
      ensures IsStint(log + [x], c, more[m], all[m])
    {
      if m < |stints| {
        StintStays(log, x, c, stints[m], arrivals[m]);
      } else {
        StintBegins(log, x, c);
      }
    }
    forall i | 0 <= i < |log + [x]| && Arrives(log + [x], i, c)
      ensures i in all
    {
      if i < |log| {
        assert i in arrivals;
      } else {
        assert all[|arrivals|] == i;
      }
    }
  }

  lemma ListsLeaving(log: seq<LogEntry>, x: LogEntry, c: string, stints: seq<Stint>, start: int, arrivals: seq<nat>)
    requires Lists(log, c, stints + [Stint(start, None)], arrivals) && Leaves(log + [x], |log|, c)
    requires forall m :: 0 <= m < |stints| ==> stints[m].end.Some?
    ensures Lists(log + [x], c, stints + [Stint(start, Some(x.createdAt))], arrivals)
  {
    hide IsStint;
    SameArrivals(log, x, c);
    var was, now := stints + [Stint(start, None)], stints + [Stint(start, Some(x.createdAt))];
    forall m | 0 <= m < |now|
      ensures IsStint(log + [x], c, now[m], arrivals[m])
    {
      if m < |stints| {
        assert was[m] == stints[m];
        StintStays(log, x, c, was[m], arrivals[m]);
      } else {
        StintEnds(log, x, c, was[m], arrivals[m]);
      }
    }
  }

  /** The stints counted from a log are exactly those its entries tell of: one for each arrival, in order, each up
      to the first leaving after it. */
  lemma {:induction false} StintsAreLogged(log: seq<LogEntry>, c: string) returns (arrivals: seq<nat>)
    requires LogOk(log)
    ensures Lists(log, c, StintsOf(TallyOf(log, c)), arrivals)
    decreases |log|
  {
    hide Lists, LogOk, TallyTime, TimePresent, Present, LegalEntry, StintsOf;
    if log == [] {
      arrivals := [];
      NothingListed(c);
    } else {
      var init, x := log[..|log| - 1], log[|log| - 1];
      assert init + [x] == log;
      LogInit(log);
      arrivals := StintsAreLogged(init, c);
      TallyReplays(init, c, 0);
      SameArrivals(init, x, c);
      var t := TallyOf(init, c);
      StintsOfTally(t);
      StintsOfTally(TallyOf(log, c));
      if Arrives(log, |init|, c) {
        ListsArrival(init, x, c, t.ended, arrivals);
        arrivals := arrivals + [|init|];
      } else if Leaves(log, |init|, c) && t.open.Some? {
        ListsLeaving(init, x, c, t.ended, t.open.value, arrivals);
      } else {
        ListsSame(init, x, c, StintsOf(t), arrivals);
      }
    }
  }

  lemma StintsOfTally(t: Tally)
    ensures StintsOf(t) == if t.open.Some? then t.ended + [Stint(t.open.value, None)] else t.ended
  {
  }

  lemma NothingListed(c: string)
    ensures Lists([], c, StintsOf(TallyOf([], c)), [])
  {
  }

  /** In every reachable state the report of an event lists, for whatever callsign, one stint for each time it
      checked in while it was not there, in the order of the log, from that entry to the first after it that checks
      it out; the stint is open when there is none. */
  lemma ReportListsStints(ops: seq<Timed>, e: int, c: string, cutoff: int) returns (arrivals: seq<nat>)
    requires e in After(ops).events
    ensures var log := After(ops).events[e].log;
      RowOf(log, c, cutoff).callsign == c && Lists(log, c, RowOf(log, c, cutoff).stints, arrivals)
  {
    hide After, LogOk, Lists, TallyOf, WholeSeconds, TotalTime;
    ReachableIsConsistent(ops);
    OneEventOk(After(ops), e);
    arrivals := StintsAreLogged(After(ops).events[e].log, c);
  }
}
