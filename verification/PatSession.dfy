/** The PAT connect engine: one background run at a time. Each stretch of code between two suspension
    points is a method, proved against the step it is. */
module PatSession {
  import opened PyText
  import opened PatSteps
  import Delivery

  class Engine {
    var sessions: map<int, Session>
    var phases: map<int, Phase>
    var active: Option<int>
    var activeSessionId: Option<int>
    var leaving: Option<int>
    var nextId: int
    const log: Delivery.Log

    ghost function State(): World
      reads this, log
    {
      World(sessions, phases, active, activeSessionId, leaving, log.rows, nextId)
    }

    ghost predicate Valid()
      reads this, log
    {
      Coherent(State())
    }

    constructor (log: Delivery.Log)
      ensures Valid() && this.log == log
      ensures State() == World(map[], map[], None, None, None, log.rows, 1)
    {
      this.log := log;
      sessions, phases, active, activeSessionId, leaving, nextId := map[], map[], None, None, None, 1;
    }

    /** None is SessionBusy. */
    method Start() returns (id: Option<int>)
      requires Valid()
      modifies this
      ensures Valid() && State() == Next(old(State()), Step.Start)
      ensures id == if Busy(old(State())) then None else Some(old(nextId))
    {
      StepCoherent(State(), Step.Start);
      if active.Some? && active.value in phases && !phases[active.value].Done? {
        return None;
      }
      sessions := sessions[nextId := NewSession()];
      activeSessionId := Some(nextId);
      phases := phases[nextId := NotStarted];
      active := Some(nextId);
      id := Some(nextId);
      nextId := nextId + 1;
    }

    method RunFirstSegment(id: int)
      requires Valid() && Enabled(State(), FirstSegment(id))
      modifies this
      ensures Valid() && State() == Next(old(State()), FirstSegment(id))
      ensures old(AllEndedOk(State())) ==> (AllEndedOk(State()) <==> !old(sessions)[id].status.Aborted?)
      ensures old(SingleFlight(State())) ==> SingleFlight(State())
    {
      if AllEndedOk(State()) {
        StepEndedExactly(State(), FirstSegment(id));
      }
      if SingleFlight(State()) {
        StepSingleFlightExactly(State(), FirstSegment(id));
      }
      StepCoherent(State(), FirstSegment(id));
      sessions := sessions[id := sessions[id].(status := Connected)];
      phases := phases[id := InConnect];
    }

    /** The CONNECTED write failed; only the clean-up is left to do. */
    method FailFirstSegment(id: int)
      requires Valid() && Enabled(State(), FirstSegmentFails(id))
      modifies this
      ensures Valid() && State() == Next(old(State()), FirstSegmentFails(id))
      ensures sessions == old(sessions) && (old(SingleFlight(State())) ==> SingleFlight(State()))
    {
      StepCoherent(State(), FirstSegmentFails(id));
      phases := phases[id := Stopping(Unwinding)];
    }

    /** connect() ended, in one of three ways; a timeout is followed by a disconnect. */
    method ConnectEnded(id: int, how: Ending)
      requires Valid() && id in phases && phases[id].InConnect? && !how.Unwinding?
      modifies this
      ensures Valid()
      ensures State() == Next(old(State()), match how
        case ConnectError(m) => ConnectFails(id, m)
        case TimedOut => ConnectTimesOut(id)
        case _ => ConnectReturns(id))
      ensures sessions == old(sessions) && (old(SingleFlight(State())) ==> SingleFlight(State()))
    {
      phases := phases[id := if how.TimedOut? then InDisconnect else Stopping(how)];
    }

    method DisconnectEnded(id: int)
      requires Valid() && Enabled(State(), Disconnected(id))
      modifies this
      ensures Valid() && State() == Next(old(State()), Disconnected(id))
      ensures sessions == old(sessions) && (old(SingleFlight(State())) ==> SingleFlight(State()))
    {
      StepCoherent(State(), Disconnected(id));
      phases := phases[id := Stopping(TimedOut)];
    }

    /** From the consumer's end to the end of the run, without a suspension. */
    method RunWindUp(id: int, now: int, stillOut: Option<set<string>>, received: nat)
      requires Valid() && Enabled(State(), WindUp(id, now, stillOut, received))
      modifies this, log
      ensures Valid() && State() == Next(old(State()), WindUp(id, now, stillOut, received))
    {
      StepCoherent(State(), WindUp(id, now, stillOut, received));
      hide Delivery.Reconciled, Delivery.LeftOutbox;
      var session := sessions[id];
      match phases[id].ending {
        case ConnectError(message) => session := FailedWith(session, message, now);
        case TimedOut => session := FailedWith(session, "session timed out", now);
        case Unwinding =>
        case Returned =>
          if Terminal(session.status) {
            var _ := log.ReconcileOutbound(stillOut, id, now);
          } else {
            session := session.(status := Syncing);
            var sent := log.ReconcileOutbound(stillOut, id, now);
            session := Completion(session, sent, received, now);
          }
      }
      sessions := sessions[id := session];
      activeSessionId := None;
      phases := phases[id := Done];
    }

    method Break(id: int)
      requires Valid() && Enabled(State(), Breaks(id))
      modifies this
      ensures Valid() && State() == Next(old(State()), Breaks(id))
      ensures sessions == old(sessions) && (old(SingleFlight(State())) ==> SingleFlight(State()))
    {
      StepCoherent(State(), Breaks(id));
      phases := phases[id := Stopping(Unwinding)];
    }

    /** The tail failed after SYNCING was written, before or after the outbound rows were reconciled. */
    method BreakSyncing(id: int, now: int, stillOut: Option<set<string>>, reconciled: bool)
      requires Valid() && Enabled(State(), BreaksSyncing(id, now, stillOut, reconciled))
      modifies this, log
      ensures Valid() && State() == Next(old(State()), BreaksSyncing(id, now, stillOut, reconciled))
    {
      StepCoherent(State(), BreaksSyncing(id, now, stillOut, reconciled));
      hide Delivery.Reconciled, Delivery.LeftOutbox;
      sessions := sessions[id := sessions[id].(status := Syncing)];
      if reconciled {
        var _ := log.ReconcileOutbound(stillOut, id, now);
      }
      phases := phases[id := Stopping(Unwinding)];
    }

    /** A task cancelled before it began runs nothing of its coroutine, not even the clean-up. */
    method CancelUnstarted(id: int)
      requires Valid() && Enabled(State(), CancelledUnstarted(id))
      modifies this
      ensures Valid() && State() == Next(old(State()), CancelledUnstarted(id))
      ensures sessions == old(sessions) && !Live(State(), id) && (old(SingleFlight(State())) ==> SingleFlight(State()))
    {
      StepCoherent(State(), CancelledUnstarted(id));
      phases := phases[id := Done];
    }

    method ConsumeFrame(id: int, e: Event, linkUp: bool)
      requires Valid() && Enabled(State(), Frame(id, e, linkUp))
      modifies this
      ensures Valid() && State() == Next(old(State()), Frame(id, e, linkUp))
    {
      StepCoherent(State(), Frame(id, e, linkUp));
      var s := sessions[id];
      s := s.(events := s.events + [e]);
      if linkUp && s.status.Connected? {
        s := s.(status := Syncing);
      }
      sessions := sessions[id := s];
    }

    method FinishAbort(id: int, now: int)
      requires Valid()
      modifies this
      ensures Valid() && State() == Next(old(State()), Abort(id, now))
    {
      StepCoherent(State(), Abort(id, now));
      if id in sessions && !sessions[id].status.Completed? && !sessions[id].status.Failed? {
        sessions := sessions[id := sessions[id].(status := Aborted, endedAt := Some(now))];
      } else if id in sessions {
        assert sessions == sessions[id := sessions[id]];
      }
    }

    /** True when there is a run to wait for. */
    method ShutdownBegins() returns (wait: bool)
      requires Valid() && leaving.None?
      modifies this
      ensures Valid() && State() == Next(old(State()), BeginShutdown) && wait == Busy(old(State()))
    {
      StepCoherent(State(), BeginShutdown);
      if active.Some? && active.value in phases && !phases[active.value].Done? {
        leaving := active;
        return true;
      }
      active, activeSessionId := None, None;
      wait := false;
    }

    method ShutdownEnds()
      requires Valid() && Enabled(State(), EndShutdown)
      modifies this
      ensures Valid() && State() == Next(old(State()), EndShutdown)
      ensures !Busy(State()) && (old(SingleFlight(State())) ==> (SingleFlight(State()) <==> !old(Busy(State()))))
    {
      if SingleFlight(State()) {
        StepSingleFlightExactly(State(), EndShutdown);
      }
      StepCoherent(State(), EndShutdown);
      active, activeSessionId, leaving := None, None, None;
    }
  }
}
