/** How runs end: what the last step of a run leaves, and what every interleaving makes of a session. */
module PatOutcomes {
  import opened PyText
  import opened PatSteps
  import opened PatSessionLaws
  import Delivery

  // ---------------------------------------------------------------------------
  // The end of a run

  /** The reason a connection that ended so gives for its failure. */
  predicate Explains(how: Ending, message: string)
  {
    how == ConnectError(message) || (how.TimedOut? && message == "session timed out")
  }

  predicate FailedAt(s: Session, message: string, now: int)
  {
    s.status.Failed? && s.error == Some(message) && s.endedAt == Some(now)
  }

  /** A run winding up leaves a session whose connection failed or timed out FAILED, with the reason and the time;
      one whose connect returned COMPLETED at that time, unless it had ended before, in which case it stays as it
      was; and one whose run is unwinding as it was. Events stay, and so does every other session. */
  lemma WindUpLeaves(w: World, id: int, now: int, stillOut: Option<set<string>>, received: nat)
    requires Coherent(w) && Enabled(w, WindUp(id, now, stillOut, received))
    ensures var w' := Next(w, WindUp(id, now, stillOut, received)); var how := w.phases[id].ending;
      && w'.sessions == w.sessions[id := w'.sessions[id]] && w'.phases == w.phases[id := Done]
      && w'.activeSessionId == None && w'.active == w.active && w'.leaving == w.leaving
      && (forall m :: Explains(how, m) ==> FailedAt(w'.sessions[id], m, now))
      && (how.Returned? && !Terminal(w.sessions[id].status) ==>
            w'.sessions[id].status.Completed? && w'.sessions[id].endedAt == Some(now)
            && w'.sessions[id].error == w.sessions[id].error && w'.sessions[id].received == received)
      && (how.Returned? && Terminal(w.sessions[id].status) ==> w'.sessions[id] == w.sessions[id])
      && (how.Unwinding? ==> w'.sessions[id] == w.sessions[id])
      && (!how.Returned? ==> w'.rows == w.rows) && w'.sessions[id].events == w.sessions[id].events
  {
    hide Delivery.Reconciled, FlippedCount;
  }

  /** Steps that keep a run from being seen through: a failed write, an exception, a cancellation. */
  predicate Disturbs(s: Step, id: int)
  {
    match s
    case FirstSegmentFails(x) => x == id
    case Breaks(x) => x == id
    case BreaksSyncing(x, _, _, _) => x == id
    case CancelledUnstarted(x) => x == id
    case _ => false
  }

  /** A run seen through so far: it is not unwinding, and has ended its session if it is over. */
  ghost predicate SeenThrough(w: World, id: int)
  {
    id in w.phases && id in w.sessions ==>
      w.phases[id] != Stopping(Unwinding) && (w.phases[id].Done? ==> Terminal(w.sessions[id].status))
  }

  lemma StepSeenThrough(w: World, s: Step, id: int)
    requires Coherent(w) && Enabled(w, s) && SeenThrough(w, id) && !Disturbs(s, id)
    ensures SeenThrough(Next(w, s), id)
  {
    hide Delivery.Reconciled, FlippedCount;
    if s.WindUp? && s.id == id {
      WindUpLeaves(w, id, s.now, s.stillOut, s.received);
    }
  }

  /** A run that is over and was not disturbed has left its session in a terminal status. */
  lemma {:induction false} UndisturbedRunsEnd(worlds: seq<World>, steps: seq<Step>, n: nat, id: int)
    requires Run(worlds, steps) && n <= |steps| && forall i :: 0 <= i < n ==> !Disturbs(steps[i], id)
    ensures SeenThrough(worlds[n], id)
    ensures id in worlds[n].phases && worlds[n].phases[id].Done? && id in worlds[n].sessions ==>
      Terminal(worlds[n].sessions[id].status)
  {
    hide Coherent, Next, Enabled, Disturbs;
    if n > 0 {
      UndisturbedRunsEnd(worlds, steps, n - 1, id);
      RunIsCoherent(worlds, steps, n - 1);
      StepSeenThrough(worlds[n - 1], steps[n - 1], id);
    }
  }

  /** The connection has failed for that reason, and its run is about to wind up or has. */
  ghost predicate FailingFor(w: World, id: int, message: string)
  {
    && id in w.phases && id in w.sessions
    && ((w.phases[id].Stopping? && Explains(w.phases[id].ending, message))
        || (w.phases[id].Done? && w.sessions[id].status.Failed? && w.sessions[id].error == Some(message)))
  }

  lemma StepFailingFor(w: World, s: Step, id: int, message: string)
    requires Coherent(w) && Enabled(w, s) && FailingFor(w, id, message) && !Disturbs(s, id)
    ensures FailingFor(Next(w, s), id, message)
  {
    hide Delivery.Reconciled, FlippedCount;
  }

  /** Once a connection has failed or timed out, its run, if not disturbed, ends its session FAILED for that very
      reason, and so it stays whatever else happens, aborts included. */
  lemma {:induction false} FailuresAreRecorded(worlds: seq<World>, steps: seq<Step>, m: nat, n: nat, id: int,
                                              message: string)
    requires Run(worlds, steps) && m <= n <= |steps| && forall i :: m <= i < n ==> !Disturbs(steps[i], id)
    requires id in worlds[m].phases && worlds[m].phases[id].Stopping? && Explains(worlds[m].phases[id].ending, message)
    ensures FailingFor(worlds[n], id, message)
    ensures id in worlds[n].phases && id in worlds[n].sessions
    ensures worlds[n].phases[id].Done? ==>
      worlds[n].sessions[id].status.Failed? && worlds[n].sessions[id].error == Some(message)
    decreases n
  {
    hide Coherent, Next, Enabled, Disturbs, Explains;
    if n > m {
      FailuresAreRecorded(worlds, steps, m, n - 1, id, message);
      RunIsCoherent(worlds, steps, n - 1);
      StepFailingFor(worlds[n - 1], steps[n - 1], id, message);
    } else {
      SessionsOfRuns(worlds, steps, m);
    }
  }

  lemma SessionsOfRuns(worlds: seq<World>, steps: seq<Step>, n: nat)
    requires Run(worlds, steps) && n <= |steps|
    ensures worlds[n].phases.Keys == worlds[n].sessions.Keys
  {
    RunIsCoherent(worlds, steps, n);
  }

  // ---------------------------------------------------------------------------
  // Aborts

  /** An abort leaves the session ABORTED at that time, unless it is COMPLETED or FAILED; it touches no other
      session, no run and no delivery. */
  lemma AbortLeaves(w: World, id: int, now: int)
    requires Coherent(w)
    ensures var w' := Next(w, Abort(id, now));
      && w' == w.(sessions := w'.sessions) && w'.sessions.Keys == w.sessions.Keys
      && (forall x :: x in w.sessions && x != id ==> w'.sessions[x] == w.sessions[x])
      && (id in w.sessions ==>
            var s := w.sessions[id];
            if s.status.Completed? || s.status.Failed? then w'.sessions[id] == s
            else w'.sessions[id] == s.(status := Aborted, endedAt := Some(now)))
  {
  }

  /** A session that was aborted at some point is terminal from then on, when no abort came before its first
      segment. */
  lemma AbortsStick(worlds: seq<World>, steps: seq<Step>, m: nat, n: nat, id: int, now: int)
    requires Run(worlds, steps) && NoneRevived(worlds, steps)
    requires m < n <= |steps| && steps[m] == Abort(id, now) && id in worlds[m].sessions
    ensures id in worlds[n].sessions && Terminal(worlds[n].sessions[id].status)
  {
    hide Coherent, Enabled, Next;
    RunIsCoherent(worlds, steps, m);
    AbortLeaves(worlds[m], id, now);
    SessionsMoveOn(worlds, steps, m + 1, n, id);
  }

  // ---------------------------------------------------------------------------
  // Frames

  /** The events of the frames received for a session, in order. */
  function FramesOf(steps: seq<Step>, id: int): seq<Event>
  {
    if steps == [] then []
    else
      var s := steps[|steps| - 1];
      FramesOf(steps[..|steps| - 1], id) + if s.Frame? && s.id == id then [s.event] else []
  }

  predicate LinksUp(s: Step, id: int) { s.Frame? && s.id == id && s.linkUp }

  ghost predicate LinkedUp(steps: seq<Step>, id: int)
  {
    exists i :: 0 <= i < |steps| && LinksUp(steps[i], id)
  }

  /** The run is at work, from its first segment until it winds up, and nothing has gone wrong. */
  predicate AtWork(p: Phase) { p.InConnect? || p.InDisconnect? || (p.Stopping? && !p.ending.Unwinding?) }

  /** What the frames so far make of a session. */
  ghost predicate FollowsFrames(w: World, id: int, frames: seq<Event>, linked: bool)
  {
    if id in w.sessions && id in w.phases then
      && w.sessions[id].events == frames && (w.phases[id].NotStarted? ==> !linked)
      && (AtWork(w.phases[id]) && !w.sessions[id].status.Aborted? ==> (w.sessions[id].status.Syncing? <==> linked))
    else frames == [] && !linked
  }

  lemma StepFollowsFrames(w: World, s: Step, id: int, frames: seq<Event>, linked: bool)
    requires Coherent(w) && Enabled(w, s) && FollowsFrames(w, id, frames, linked)
    ensures FollowsFrames(Next(w, s), id, frames + (if s.Frame? && s.id == id then [s.event] else []),
                          linked || LinksUp(s, id))
  {
    hide Delivery.Reconciled, FlippedCount;
    assert frames + [] == frames;
  }

  /** A session's events are exactly those of the frames received for it, in order, and while its run is at work a
      session that was not aborted is SYNCING exactly when one of them said that the link is up. */
  lemma {:induction false} SessionsFollowFrames(worlds: seq<World>, steps: seq<Step>, n: nat, id: int)
    requires Run(worlds, steps) && n <= |steps|
    ensures FollowsFrames(worlds[n], id, FramesOf(steps[..n], id), LinkedUp(steps[..n], id))
  {
    hide Coherent, Next, Enabled, FollowsFrames, LinksUp;
    if n == 0 {
      assert FollowsFrames(INITIAL, id, [], false) by { NoFrames(id); }
    } else {
      SessionsFollowFrames(worlds, steps, n - 1, id);
      RunIsCoherent(worlds, steps, n - 1);
      StepFollowsFrames(worlds[n - 1], steps[n - 1], id, FramesOf(steps[..n - 1], id), LinkedUp(steps[..n - 1], id));
      assert steps[..n][..n - 1] == steps[..n - 1];
      LinkedUpSnoc(steps, n, id);
    }
  }

  lemma NoFrames(id: int)
    ensures FollowsFrames(INITIAL, id, [], false)
  {
  }

  lemma LinkedUpSnoc(steps: seq<Step>, n: nat, id: int)
    requires 0 < n <= |steps|
    ensures LinkedUp(steps[..n], id) <==> LinkedUp(steps[..n - 1], id) || LinksUp(steps[n - 1], id)
  {
    hide LinksUp;
    assert steps[..n][n - 1] == steps[n - 1];
    if LinkedUp(steps[..n - 1], id) {
      var i :| 0 <= i < n - 1 && LinksUp(steps[..n - 1][i], id);
      assert LinksUp(steps[..n][i], id);
    }
    if LinkedUp(steps[..n], id) && !LinksUp(steps[n - 1], id) {
      var i :| 0 <= i < n && LinksUp(steps[..n][i], id);
      assert LinksUp(steps[..n - 1][i], id);
    }
  }

  // ---------------------------------------------------------------------------
  // Errors and counts

  /** An error is stored exactly on FAILED sessions, and only COMPLETED ones have counts. */
  predicate ResultsOk(s: Session)
  {
    (s.error.Some? <==> s.status.Failed?) && (s.sent > 0 || s.received > 0 ==> s.status.Completed?)
  }

  ghost predicate AllResultsOk(w: World) { forall id :: id in w.sessions ==> ResultsOk(w.sessions[id]) }

  lemma StepResults(w: World, s: Step)
    requires Coherent(w) && Enabled(w, s) && AllResultsOk(w)
    ensures AllResultsOk(Next(w, s))
  {
    hide Delivery.Reconciled, FlippedCount;
  }

  lemma NoResults()
    ensures AllResultsOk(INITIAL)
  {
  }

  /** Throughout every interleaving an error is stored exactly on FAILED sessions, and counts on COMPLETED ones
      only. */
  lemma {:induction false} ResultsFit(worlds: seq<World>, steps: seq<Step>, n: nat)
    requires Run(worlds, steps) && n <= |steps|
    ensures AllResultsOk(worlds[n])
  {
    hide Coherent, Next, Enabled, AllResultsOk;
    if n == 0 {
      NoResults();
    } else {
      ResultsFit(worlds, steps, n - 1);
      RunIsCoherent(worlds, steps, n - 1);
      StepResults(worlds[n - 1], steps[n - 1]);
    }
  }
}
