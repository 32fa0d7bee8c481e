/** The PAT connect engine as a state machine: one background run at a time, racing with websocket frames,
    aborts and a shutdown. Code between two suspension points is one step; what each step does, what it
    keeps, and exactly which steps could break it. */
module PatSteps {
  import opened PyText
  import Delivery

  datatype Status = Connecting | Connected | Syncing | Completed | Failed | Aborted

  predicate Terminal(s: Status) { s.Completed? || s.Failed? || s.Aborted? }

  datatype Event = Event(ts: int, kind: string, text: string)

  datatype Session = Session(
    status: Status, events: seq<Event>, endedAt: Option<int>, error: Option<string>, sent: nat, received: nat)

  /** Why a run is winding up once its websocket consumer has stopped. */
  datatype Ending = ConnectError(message: string) | TimedOut | Returned | Unwinding

  /** Where a run is suspended. */
  datatype Phase = NotStarted | InConnect | InDisconnect | Stopping(ending: Ending) | Done

  /** The stored sessions, the run of each, and the engine's own fields. `leaving` is the run a
      shutdown waits for. */
  datatype World = World(
    sessions: map<int, Session>, phases: map<int, Phase>, active: Option<int>, activeSessionId: Option<int>,
    leaving: Option<int>, rows: Delivery.Rows, nextId: int)

  datatype Step =
    | Start
    | FirstSegment(id: int)
    | FirstSegmentFails(id: int)                              // the CONNECTED write did not go through
    | ConnectFails(id: int, message: string)
    | ConnectTimesOut(id: int)
    | Disconnected(id: int)
    | ConnectReturns(id: int)
    | WindUp(id: int, now: int, stillOut: Option<set<string>>, received: nat)
    | Breaks(id: int)                                         // an unexpected exception, or cancellation
    | BreaksSyncing(id: int, now: int, stillOut: Option<set<string>>, reconciled: bool)
    | CancelledUnstarted(id: int)
    | Frame(id: int, event: Event, linkUp: bool)
    | Abort(id: int, now: int)
    | BeginShutdown
    | EndShutdown
    | OtherDelivery(rows: Delivery.Rows)

  predicate Live(w: World, id: int) { id in w.phases && !w.phases[id].Done? }

  predicate Busy(w: World) { w.active.Some? && Live(w, w.active.value) }

  predicate Enabled(w: World, s: Step)
  {
    match s
    case Start => true
    case FirstSegment(id) => id in w.phases && w.phases[id].NotStarted?
    case FirstSegmentFails(id) => id in w.phases && w.phases[id].NotStarted?
    case ConnectFails(id, _) => id in w.phases && w.phases[id].InConnect?
    case ConnectTimesOut(id) => id in w.phases && w.phases[id].InConnect?
    case Disconnected(id) => id in w.phases && w.phases[id].InDisconnect?
    case ConnectReturns(id) => id in w.phases && w.phases[id].InConnect?
    case WindUp(id, _, _, _) => id in w.phases && w.phases[id].Stopping?
    case Breaks(id) => id in w.phases && !w.phases[id].NotStarted? && !w.phases[id].Done?
    case BreaksSyncing(id, _, _, _) =>
      id in w.phases && w.phases[id] == Stopping(Returned) && id in w.sessions && !Terminal(w.sessions[id].status)
    case CancelledUnstarted(id) => id in w.phases && w.phases[id].NotStarted?
    case Frame(id, _, _) => id in w.phases && (w.phases[id].InConnect? || w.phases[id].InDisconnect?)
    case Abort(_, _) => true
    case BeginShutdown => w.leaving.None?
    case EndShutdown => w.leaving.Some? && !Live(w, w.leaving.value)
    case OtherDelivery(_) => true
  }

  function WithSession(w: World, id: int, s: Session): World { w.(sessions := w.sessions[id := s]) }

  function WithPhase(w: World, id: int, p: Phase): World { w.(phases := w.phases[id := p]) }

  function NewSession(): Session { Session(Connecting, [], None, None, 0, 0) }

  function FailedWith(s: Session, message: string, now: int): Session
  {
    s.(status := Failed, error := Some(message), endedAt := Some(now))
  }

  function Completion(s: Session, sent: nat, received: nat, now: int): Session
  {
    s.(status := Completed, sent := sent, received := received, endedAt := Some(now))
  }

  function AfterFrame(s: Session, e: Event, linkUp: bool): Session
  {
    s.(events := s.events + [e], status := if linkUp && s.status.Connected? then Syncing else s.status)
  }

  function AfterAbort(s: Session, now: int): Session
  {
    if s.status.Completed? || s.status.Failed? then s else s.(status := Aborted, endedAt := Some(now))
  }

  function FlippedCount(rows: Delivery.Rows, stillOut: Option<set<string>>): nat
  {
    if stillOut.None? then 0 else |set k | k in rows && Delivery.LeftOutbox(rows, k, stillOut.value)|
  }

  /** The session and the delivery rows once a run has wound up. */
  function WoundUp(s: Session, e: Ending, rows: Delivery.Rows, id: int, now: int, stillOut: Option<set<string>>,
                   received: nat): (Session, Delivery.Rows)
  {
    match e
    case ConnectError(message) => (FailedWith(s, message, now), rows)
    case TimedOut => (FailedWith(s, "session timed out", now), rows)
    case Unwinding => (s, rows)
    case Returned =>
      var reconciled := Delivery.Reconciled(rows, stillOut, id, now);
      if Terminal(s.status) then (s, reconciled)
      else (Completion(s, FlippedCount(rows, stillOut), received, now), reconciled)
  }

  function Next(w: World, s: Step): World
    requires Enabled(w, s) && w.phases.Keys == w.sessions.Keys
  {
    match s
    case Start =>
      if Busy(w) then w
      else w.(sessions := w.sessions[w.nextId := NewSession()], phases := w.phases[w.nextId := NotStarted],
              active := Some(w.nextId), activeSessionId := Some(w.nextId), nextId := w.nextId + 1)
    case FirstSegment(id) => WithPhase(WithSession(w, id, w.sessions[id].(status := Connected)), id, InConnect)
    case FirstSegmentFails(id) => WithPhase(w, id, Stopping(Unwinding))
    case ConnectFails(id, message) => WithPhase(w, id, Stopping(ConnectError(message)))
    case ConnectTimesOut(id) => WithPhase(w, id, InDisconnect)
    case Disconnected(id) => WithPhase(w, id, Stopping(TimedOut))
    case ConnectReturns(id) => WithPhase(w, id, Stopping(Returned))
    case WindUp(id, now, stillOut, received) =>
      var (session, rows) := WoundUp(w.sessions[id], w.phases[id].ending, w.rows, id, now, stillOut, received);
      WithPhase(WithSession(w, id, session), id, Done).(rows := rows, activeSessionId := None)
    case Breaks(id) => WithPhase(w, id, Stopping(Unwinding))
    case BreaksSyncing(id, now, stillOut, reconciled) =>
      WithPhase(WithSession(w, id, w.sessions[id].(status := Syncing)), id, Stopping(Unwinding))
      .(rows := if reconciled then Delivery.Reconciled(w.rows, stillOut, id, now) else w.rows)
    case CancelledUnstarted(id) => WithPhase(w, id, Done)
    case Frame(id, e, linkUp) => WithSession(w, id, AfterFrame(w.sessions[id], e, linkUp))
    case Abort(id, now) => if id in w.sessions then WithSession(w, id, AfterAbort(w.sessions[id], now)) else w
    case BeginShutdown => if Busy(w) then w.(leaving := w.active) else w.(active := None, activeSessionId := None)
    case EndShutdown => w.(active := None, activeSessionId := None, leaving := None)
    case OtherDelivery(rows) => w.(rows := rows)
  }

  // ---------------------------------------------------------------------------
  // What steps keep

  /** Each run belongs to a stored session, and its suspension point fits the stored status. */
  ghost predicate Coherent(w: World)
  {
    && w.phases.Keys == w.sessions.Keys
    && (forall id :: id in w.sessions ==> id < w.nextId && Fits(w.phases[id], w.sessions[id].status))
    && (w.active.Some? ==> w.active.value in w.sessions)
  }

  predicate Fits(p: Phase, s: Status)
  {
    match p
    case NotStarted => s.Connecting? || s.Aborted?
    case Done => true
    case Stopping(Unwinding) => !s.Completed? && !s.Failed?
    case _ => s.Connected? || s.Syncing? || s.Aborted?
  }

  /** `ended_at` is set exactly in the terminal states. */
  predicate EndedOk(s: Session) { s.endedAt.Some? <==> Terminal(s.status) }

  ghost predicate AllEndedOk(w: World)
  {
    forall id :: id in w.sessions ==> EndedOk(w.sessions[id])
  }

  /** The only live run, if there is one, is the engine's. */
  ghost predicate SingleFlight(w: World)
  {
    forall id :: Live(w, id) ==> w.active == Some(id) && w.activeSessionId == Some(id)
  }

  lemma StepCoherent(w: World, s: Step)
    requires Coherent(w) && Enabled(w, s)
    ensures Coherent(Next(w, s))
  {
    hide Delivery.Reconciled, FlippedCount;
  }

  /** COMPLETED and FAILED are final, and the event list only grows. */
  predicate KeepsFinal(before: Session, after: Session)
  {
    && before.events <= after.events
    && (before.status.Completed? || before.status.Failed? ==>
          after.status == before.status && after.endedAt == before.endedAt)
  }

  /** And ABORTED can only become FAILED. */
  predicate SessionMoves(before: Session, after: Session)
  {
    KeepsFinal(before, after) && (before.status.Aborted? ==> after.status.Aborted? || after.status.Failed?)
  }

  /** Every step keeps what is final and every event. */
  lemma StepKeepsFinal(w: World, s: Step, id: int)
    requires Coherent(w) && Enabled(w, s) && id in w.sessions
    ensures id in Next(w, s).sessions && KeepsFinal(w.sessions[id], Next(w, s).sessions[id])
  {
    hide Delivery.Reconciled, FlippedCount;
  }

  /** A step that puts a session whose abort came first back to CONNECTED. */
  predicate Revives(w: World, s: Step)
  {
    s.FirstSegment? && s.id in w.sessions && w.sessions[s.id].status.Aborted?
  }

  /** A shutdown that forgets a run started while it was waiting for another. */
  predicate Forgets(w: World, s: Step)
  {
    s.EndShutdown? && Busy(w)
  }

  /** COMPLETED and FAILED are final, ABORTED can only become FAILED, and the event list only grows:
      true of every step except a first segment that comes after an abort. */
  lemma StepMovesExactly(w: World, s: Step)
    requires Coherent(w) && Enabled(w, s)
    ensures (forall id :: id in w.sessions ==>
               id in Next(w, s).sessions && SessionMoves(w.sessions[id], Next(w, s).sessions[id]))
       <==> !Revives(w, s)
  {
    hide Delivery.Reconciled, FlippedCount;
    if Revives(w, s) {
      assert !SessionMoves(w.sessions[s.id], Next(w, s).sessions[s.id]);
    } else {
      forall id | id in w.sessions
        ensures id in Next(w, s).sessions && SessionMoves(w.sessions[id], Next(w, s).sessions[id])
      {
      }
    }
  }

  /** `ended_at` stays set exactly in the terminal states under every step but that one. */
  lemma StepEndedExactly(w: World, s: Step)
    requires Coherent(w) && Enabled(w, s) && AllEndedOk(w)
    ensures AllEndedOk(Next(w, s)) <==> !Revives(w, s)
  {
    hide Delivery.Reconciled, FlippedCount;
    if Revives(w, s) {
      assert !EndedOk(Next(w, s).sessions[s.id]);
    } else {
      forall id | id in Next(w, s).sessions
        ensures EndedOk(Next(w, s).sessions[id])
      {
      }
    }
  }

  /** Single flight survives every step except a shutdown's last one when a run was started meanwhile. */
  lemma StepSingleFlightExactly(w: World, s: Step)
    requires Coherent(w) && Enabled(w, s) && SingleFlight(w)
    ensures SingleFlight(Next(w, s)) <==> !Forgets(w, s)
  {
    hide Delivery.Reconciled, FlippedCount;
    if Forgets(w, s) {
      assert Live(Next(w, s), w.active.value);
    } else {
      forall id | Live(Next(w, s), id)
        ensures Next(w, s).active == Some(id) && Next(w, s).activeSessionId == Some(id)
      {
        assert s.Start? || Live(w, id);
        assert s.WindUp? ==> Live(w, s.id);
      }
    }
  }

  /** A run that completes counts exactly the queued Winlink messages that had left the outbox. */
  lemma CompletedCounts(w: World, id: int, now: int, stillOut: Option<set<string>>, received: nat)
    requires Coherent(w) && Enabled(w, WindUp(id, now, stillOut, received))
    ensures var s := Next(w, WindUp(id, now, stillOut, received)).sessions[id];
      s.status.Completed? <==> w.phases[id] == Stopping(Returned) && !Terminal(w.sessions[id].status)
    ensures var w' := Next(w, WindUp(id, now, stillOut, received)); var s := w'.sessions[id];
      s.status.Completed? ==>
        && s.received == received
        && s.sent == |set k | k in w.rows && w.rows[k].status.Queued? && k in w'.rows && w'.rows[k].status.Sent?|
  {
    var w' := Next(w, WindUp(id, now, stillOut, received));
    if w'.sessions[id].status.Completed? {
      FlippedRows(w.rows, stillOut, id, now);
    }
  }

  lemma FlippedRows(rows: Delivery.Rows, stillOut: Option<set<string>>, id: int, now: int)
    ensures var after := Delivery.Reconciled(rows, stillOut, id, now);
      FlippedCount(rows, stillOut)
      == |set k | k in rows && rows[k].status.Queued? && k in after && after[k].status.Sent?|
  {
    var after := Delivery.Reconciled(rows, stillOut, id, now);
    var moved := set k | k in rows && rows[k].status.Queued? && k in after && after[k].status.Sent?;
    if stillOut.None? {
      assert moved == {};
    } else {
      assert moved == set k | k in rows && Delivery.LeftOutbox(rows, k, stillOut.value);
    }
  }
}
