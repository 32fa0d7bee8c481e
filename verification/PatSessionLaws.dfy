/** What every interleaving of the engine's steps keeps, and exactly which interleavings break what. */
module PatSessionLaws {
  import opened PyText
  import opened PatSteps

  // ---------------------------------------------------------------------------
  // Whole runs

  const INITIAL := World(map[], map[], None, None, None, map[], 1)

  ghost predicate Run(worlds: seq<World>, steps: seq<Step>)
  {
    && |worlds| == |steps| + 1 && worlds[0] == INITIAL
    && forall i :: 0 <= i < |steps| ==>
      worlds[i].phases.Keys == worlds[i].sessions.Keys && Enabled(worlds[i], steps[i])
      && worlds[i + 1] == Next(worlds[i], steps[i])
  }

  lemma {:induction false} RunIsCoherent(worlds: seq<World>, steps: seq<Step>, n: nat)
    requires Run(worlds, steps) && n <= |steps|
    ensures Coherent(worlds[n])
  {
    hide Coherent, Next, Enabled;
    if n == 0 {
      InitialKeeps();
    } else {
      RunIsCoherent(worlds, steps, n - 1);
      StepCoherent(worlds[n - 1], steps[n - 1]);
    }
  }

  lemma InitialKeeps()
    ensures Coherent(INITIAL) && AllEndedOk(INITIAL) && SingleFlight(INITIAL)
  {
  }

  /** In every interleaving whatever, COMPLETED and FAILED stay with their end times, and the event list
      is append-only. */
  lemma {:induction false} FinalStatesStay(worlds: seq<World>, steps: seq<Step>, m: nat, n: nat, id: int)
    requires Run(worlds, steps) && m <= n <= |steps| && id in worlds[m].sessions
    ensures id in worlds[n].sessions && KeepsFinal(worlds[m].sessions[id], worlds[n].sessions[id])
    decreases n
  {
    hide Coherent, Next, Enabled;
    if m < n {
      FinalStatesStay(worlds, steps, m, n - 1, id);
      RunIsCoherent(worlds, steps, n - 1);
      StepKeepsFinal(worlds[n - 1], steps[n - 1], id);
    }
  }

  /** No session whose abort came before its first segment is put back to CONNECTED. */
  ghost predicate NoneRevived(worlds: seq<World>, steps: seq<Step>)
    requires |worlds| == |steps| + 1
  {
    forall i :: 0 <= i < |steps| ==> !Revives(worlds[i], steps[i])
  }

  /** No shutdown forgets a run that was started while it waited for another. */
  ghost predicate NoneForgotten(worlds: seq<World>, steps: seq<Step>)
    requires |worlds| == |steps| + 1
  {
    forall i :: 0 <= i < |steps| ==> !Forgets(worlds[i], steps[i])
  }

  lemma {:induction false} SessionsMoveOn(worlds: seq<World>, steps: seq<Step>, m: nat, n: nat, id: int)
    requires Run(worlds, steps) && NoneRevived(worlds, steps) && m <= n <= |steps| && id in worlds[m].sessions
    ensures id in worlds[n].sessions && SessionMoves(worlds[m].sessions[id], worlds[n].sessions[id])
    decreases n
  {
    hide Coherent, Revives, Next, Enabled;
    if m < n {
      SessionsMoveOn(worlds, steps, m, n - 1, id);
      RunIsCoherent(worlds, steps, n - 1);
      StepMovesExactly(worlds[n - 1], steps[n - 1]);
      assert SessionMoves(worlds[n - 1].sessions[id], worlds[n].sessions[id]);
    }
  }

  ghost predicate SessionsAdvance(worlds: seq<World>, m: nat, n: nat)
    requires m < |worlds| && n < |worlds|
  {
    forall id :: id in worlds[m].sessions ==>
      id in worlds[n].sessions && SessionMoves(worlds[m].sessions[id], worlds[n].sessions[id])
  }

  /** Over a whole interleaving every session only moves on (what is final stays, ABORTED becomes at most
      FAILED, events are kept) if and only if no first segment comes after an abort. */
  lemma SessionsAdvanceExactly(worlds: seq<World>, steps: seq<Step>)
    requires Run(worlds, steps)
    ensures (forall m: nat, n: nat :: m <= n <= |steps| ==> SessionsAdvance(worlds, m, n))
       <==> NoneRevived(worlds, steps)
  {
    hide Coherent, Revives, Next, Enabled, SessionMoves;
    if NoneRevived(worlds, steps) {
      forall m: nat, n: nat | m <= n <= |steps|
        ensures SessionsAdvance(worlds, m, n)
      {
        forall id | id in worlds[m].sessions
          ensures id in worlds[n].sessions && SessionMoves(worlds[m].sessions[id], worlds[n].sessions[id])
        {
          SessionsMoveOn(worlds, steps, m, n, id);
        }
      }
    } else {
      var i :| 0 <= i < |steps| && Revives(worlds[i], steps[i]);
      RunIsCoherent(worlds, steps, i);
      StepMovesExactly(worlds[i], steps[i]);
      assert !SessionsAdvance(worlds, i, i + 1);
    }
  }

  lemma {:induction false} EndTimesHold(worlds: seq<World>, steps: seq<Step>, n: nat)
    requires Run(worlds, steps) && n <= |steps| && NoneRevived(worlds, steps)
    ensures AllEndedOk(worlds[n])
  {
    hide Coherent, AllEndedOk, Revives, Next, Enabled;
    if n == 0 {
      InitialKeeps();
    } else {
      EndTimesHold(worlds, steps, n - 1);
      RunIsCoherent(worlds, steps, n - 1);
      StepEndedExactly(worlds[n - 1], steps[n - 1]);
    }
  }

  /** `ended_at` is set exactly in the terminal states throughout an interleaving if and only if no first
      segment comes after an abort. */
  lemma EndTimesExactly(worlds: seq<World>, steps: seq<Step>)
    requires Run(worlds, steps)
    ensures (forall n: nat :: n <= |steps| ==> AllEndedOk(worlds[n])) <==> NoneRevived(worlds, steps)
  {
    hide Coherent, AllEndedOk, Revives, Next, Enabled;
    if NoneRevived(worlds, steps) {
      forall n: nat | n <= |steps|
        ensures AllEndedOk(worlds[n])
      {
        EndTimesHold(worlds, steps, n);
      }
    } else {
      var i :| 0 <= i < |steps| && Revives(worlds[i], steps[i]);
      RunIsCoherent(worlds, steps, i);
      if AllEndedOk(worlds[i]) {
        StepEndedExactly(worlds[i], steps[i]);
        assert !AllEndedOk(worlds[i + 1]);
      }
    }
  }

  lemma {:induction false} FlightStaysSingle(worlds: seq<World>, steps: seq<Step>, n: nat)
    requires Run(worlds, steps) && n <= |steps| && forall i :: 0 <= i < n ==> !Forgets(worlds[i], steps[i])
    ensures SingleFlight(worlds[n])
  {
    hide Coherent, SingleFlight, Forgets, Next, Enabled;
    if n == 0 {
      InitialKeeps();
    } else {
      FlightStaysSingle(worlds, steps, n - 1);
      RunIsCoherent(worlds, steps, n - 1);
      StepSingleFlightExactly(worlds[n - 1], steps[n - 1]);
    }
  }

  /** The engine's run is the only unfinished one throughout an interleaving if and only if no shutdown
      ends while a run started in the meantime is unfinished. */
  lemma SingleFlightExactly(worlds: seq<World>, steps: seq<Step>)
    requires Run(worlds, steps)
    ensures (forall n: nat :: n <= |steps| ==> SingleFlight(worlds[n])) <==> NoneForgotten(worlds, steps)
  {
    hide Coherent, SingleFlight, Forgets, Next, Enabled;
    if NoneForgotten(worlds, steps) {
      forall n: nat | n <= |steps|
        ensures SingleFlight(worlds[n])
      {
        FlightStaysSingle(worlds, steps, n);
      }
    } else {
      var i :| 0 <= i < |steps| && Forgets(worlds[i], steps[i]);
      RunIsCoherent(worlds, steps, i);
      if SingleFlight(worlds[i]) {
        StepSingleFlightExactly(worlds[i], steps[i]);
        assert !SingleFlight(worlds[i + 1]);
      }
    }
  }

  /** At most one run is unfinished after n steps when none of them was such a shutdown. */
  lemma AtMostOneRun(worlds: seq<World>, steps: seq<Step>, n: nat, a: int, b: int)
    requires Run(worlds, steps) && n <= |steps| && forall i :: 0 <= i < n ==> !Forgets(worlds[i], steps[i])
    requires Live(worlds[n], a) && Live(worlds[n], b)
    ensures a == b
  {
    hide Next, Enabled;
    FlightStaysSingle(worlds, steps, n);
  }

  /** Every abort writes its status only after the session's run has begun. So it is for callers who learn the
      id from `start`: it queues the run's first segment before it returns, and `abort` suspends before it
      writes. */
  ghost predicate AbortsComeLater(worlds: seq<World>, steps: seq<Step>)
    requires |worlds| == |steps| + 1
  {
    forall i :: 0 <= i < |steps| && steps[i].Abort? && steps[i].id in worlds[i].phases ==>
      !worlds[i].phases[steps[i].id].NotStarted?
  }

  /** A run that has not begun belongs to a session still CONNECTING. */
  ghost predicate Fresh(w: World)
  {
    forall id :: id in w.sessions && id in w.phases && w.phases[id].NotStarted? ==> w.sessions[id].status.Connecting?
  }

  lemma StepKeepsFresh(w: World, s: Step)
    requires Coherent(w) && Enabled(w, s) && Fresh(w)
    requires s.Abort? && s.id in w.phases ==> !w.phases[s.id].NotStarted?
    ensures Fresh(Next(w, s))
  {
  }

  lemma {:induction false} FreshUntilBegun(worlds: seq<World>, steps: seq<Step>, n: nat)
    requires Run(worlds, steps) && AbortsComeLater(worlds, steps) && n <= |steps|
    ensures Fresh(worlds[n])
  {
    hide Coherent, Next, Enabled, Fresh;
    if n == 0 {
      InitiallyFresh();
    } else {
      FreshUntilBegun(worlds, steps, n - 1);
      RunIsCoherent(worlds, steps, n - 1);
      StepKeepsFresh(worlds[n - 1], steps[n - 1]);
    }
  }

  lemma InitiallyFresh()
    ensures Fresh(INITIAL)
  {
  }

  /** As the engine is used no aborted session is revived, so sessions only move on and end times hold
      throughout. */
  lemma AsUsedNoneRevived(worlds: seq<World>, steps: seq<Step>)
    requires Run(worlds, steps) && AbortsComeLater(worlds, steps)
    ensures NoneRevived(worlds, steps)
    ensures forall n: nat :: n <= |steps| ==> AllEndedOk(worlds[n])
    ensures forall m: nat, n: nat :: m <= n <= |steps| ==> SessionsAdvance(worlds, m, n)
  {
    hide Coherent, Next, AllEndedOk, SessionsAdvance;
    forall i | 0 <= i < |steps|
      ensures !Revives(worlds[i], steps[i])
    {
      FreshUntilBegun(worlds, steps, i);
    }
    EndTimesExactly(worlds, steps);
    SessionsAdvanceExactly(worlds, steps);
  }

  /** An abort that lands before the first segment leaves a session CONNECTED with an end time. */
  lemma EarlyAbortRevived(now: int)
    ensures var w1 := Next(INITIAL, Start); var w2 := Next(w1, Abort(1, now)); var w3 := Next(w2, FirstSegment(1));
      AllEndedOk(w2) && Revives(w2, FirstSegment(1)) && !AllEndedOk(w3)
  {
    var w1 := Next(INITIAL, Start);
    var w2 := Next(w1, Abort(1, now));
    var w3 := Next(w2, FirstSegment(1));
    assert w3.sessions[1] == NewSession().(status := Connected, endedAt := Some(now));
    assert 1 in w3.sessions && !EndedOk(w3.sessions[1]);
  }

  /** A start that slips in before a shutdown resumes can be followed by a second live run. */
  lemma ShutdownForgetsARun(now: int)
    ensures var w1 := Next(INITIAL, Start); var w2 := Next(w1, BeginShutdown);
      var w3 := Next(w2, CancelledUnstarted(1));
      var w4 := Next(w3, Start); var w5 := Next(w4, EndShutdown); var w6 := Next(w5, Start);
      Forgets(w4, EndShutdown) && Live(w6, 2) && Live(w6, 3)
  {
    var w1 := Next(INITIAL, Start);
    var w2 := Next(w1, BeginShutdown);
    var w3 := Next(w2, CancelledUnstarted(1));
    assert !Busy(w3);
    var w4 := Next(w3, Start);
    assert Busy(w4) && w4.nextId == 3;
    var w5 := Next(w4, EndShutdown);
    var w6 := Next(w5, Start);
    assert w6.phases[2] == NotStarted && w6.phases[3] == NotStarted;
  }
}
