/** What the times in the event tables satisfy as long as the clock never steps back. */
module EventTimes {
  import opened PyText
  import opened Events
  import opened EventLaws

  /** In time order, with nothing later than `until`. */
  ghost predicate TimesOk(log: seq<LogEntry>, until: int)
  {
    && (forall i :: 0 <= i < |log| ==> log[i].createdAt <= until)
    && (forall i, j :: 0 <= i <= j < |log| ==> log[i].createdAt <= log[j].createdAt)
  }

  /** Of a log closed at `at` the last entry says so: it sets no status and is not dated before `at`, and no
      other entry is dated after it. */
  ghost predicate ClosedLog(log: seq<LogEntry>, at: int)
  {
    && log != [] && TimesOk(log[..|log| - 1], at)
    && log[|log| - 1].newStatus.None? && at <= log[|log| - 1].createdAt
  }

  ghost predicate EventTimed(ev: Event, clock: int)
  {
    TimesOk(ev.log, clock) && (ev.closedAt.Some? ==> ev.closedAt.value <= clock && ClosedLog(ev.log, ev.closedAt.value))
  }

  /** Logs are in time order up to the last operation, and those of closed events end with their closing. */
  ghost predicate Ordered(db: Db) { forall e :: e in db.events ==> EventTimed(db.events[e], db.clock) }

  /** What an operation other than closing may do to the times of an event: new entries carry its time, and an
      event that stays closed keeps its log. */
  ghost predicate TimedStep(ev: Event, ev': Event, now: int)
  {
    && |ev.log| <= |ev'.log|
    && (forall i :: 0 <= i < |ev.log| ==> ev'.log[i].createdAt == ev.log[i].createdAt)
    && (forall i :: |ev.log| <= i < |ev'.log| ==> ev'.log[i].createdAt == now)
    && (ev'.closedAt.None? || (ev'.closedAt == ev.closedAt && ev'.log == ev.log))
  }

  lemma StepKeepsTimes(ev: Event, ev': Event, clock: int, now: int)
    requires EventTimed(ev, clock) && clock <= now && TimedStep(ev, ev', now)
    ensures EventTimed(ev', now)
  {
  }

  /** The operation did nothing else to any event; an event it created has an empty log. */
  ghost predicate TimedSteps(db: Db, db': Db, now: int)
  {
    && (forall e :: e in db.events ==> e in db'.events && TimedStep(db.events[e], db'.events[e], now))
    && (forall e :: e in db'.events && e !in db.events ==> db'.events[e].log == [] && db'.events[e].closedAt.None?)
  }

  lemma SameEventsStep(db: Db, db': Db, now: int)
    requires db'.events == db.events
    ensures TimedSteps(db, db', now)
  {
  }

  lemma OneEventSteps(db: Db, db': Db, e: int, now: int)
    requires e in db.events && e in db'.events && db'.events == db.events[e := db'.events[e]]
    requires TimedStep(db.events[e], db'.events[e], now)
    ensures TimedSteps(db, db', now)
  {
  }

  lemma LoggedSteps(ev: Event, entryType: EntryType, callsign: Option<string>, newStatus: Option<ParticipantStatus>,
                    pinned: bool, now: int)
    requires ev.closedAt.None?
    ensures TimedStep(ev, Logged(ev, entryType, callsign, newStatus, pinned, now), now)
  {
  }

  lemma StepTrans(a: Event, b: Event, c: Event, now: int)
    requires TimedStep(a, b, now) && TimedStep(b, c, now) && a.closedAt.None? && b.closedAt.None?
    ensures TimedStep(a, c, now)
  {
  }

  lemma StepSelf(ev: Event, now: int)
    ensures TimedStep(ev, ev, now)
  {
  }

  lemma ActiveHasNoEnd(db: Db, e: int)
    requires Consistent(db) && e in db.events && !db.events[e].status.Closed?
    ensures db.events[e].closedAt.None?
  {
    OneEventOk(db, e);
  }

  // ---------------------------------------------------------------------------
  // The operations

  lemma LifecycleSteps(db: Db, e: int, now: int)
    requires Consistent(db)
    ensures TimedSteps(db, Activated(db, e, now).db, now)
    ensures TimedSteps(db, Reopened(db, e, now).db, now)
  {
    hide Consistent, TimedSteps;
    SameEventsStep(db, db, now);
    if HasStatus(db, e, Draft) {
      ActiveHasNoEnd(db, e);
      OneEventSteps(db, Activated(db, e, now).db, e, now);
    }
    if HasStatus(db, e, Closed) {
      OneEventSteps(db, Reopened(db, e, now).db, e, now);
    }
  }

  lemma CheckInSteps(db: Db, e: int, callsign: string, post: Option<int>, now: int)
    requires Consistent(db)
    ensures TimedSteps(db, CheckedInTo(db, e, callsign, post, now).db, now)
  {
    hide Consistent, TimedSteps, TimedStep;
    var o := CheckedInTo(db, e, callsign, post, now);
    if o.result.Ok? {
      ActiveHasNoEnd(db, e);
      LoggedSteps(db.events[e], System, Some(callsign), Some(CheckedIn), false, now);
      OneEventSteps(db, o.db, e, now);
    } else {
      SameEventsStep(db, o.db, now);
    }
  }

  /** After each part of a PATCH the event is still open and has taken only timed steps. */
  ghost predicate Patching(db: Db, db': Db, e: int, now: int)
  {
    && e in db.events && e in db'.events && db'.events == db.events[e := db'.events[e]]
    && db'.events[e].closedAt.None? && TimedStep(db.events[e], db'.events[e], now)
  }

  lemma PatchLogs(db: Db, db1: Db, e: int, callsign: string, newStatus: Option<ParticipantStatus>, now: int)
    requires Patching(db, db1, e, now) && db.events[e].closedAt.None?
    ensures var ev := SystemEntry(db1.events[e], Some(callsign), newStatus, now);
      Patching(db, db1.(events := db1.events[e := ev]), e, now)
  {
    hide TimedStep;
    var ev := SystemEntry(db1.events[e], Some(callsign), newStatus, now);
    LoggedSteps(db1.events[e], System, Some(callsign), newStatus, false, now);
    StepTrans(db.events[e], db1.events[e], ev, now);
  }

  lemma StatusPatching(db: Db, db1: Db, e: int, pid: int, change: StatusChange, now: int)
    requires Patching(db, db1, e, now) && db.events[e].closedAt.None?
    requires pid in db1.participants && db1.participants[pid].eventId == e
    ensures var db2 := StatusPatched(db1, pid, change, now);
      Patching(db, db2, e, now) && pid in db2.participants && db2.participants[pid].eventId == e
  {
    hide TimedStep, Logged;
    if change.SetStatus? && change.status != db1.participants[pid].status {
      PatchLogs(db, db1, e, db1.participants[pid].callsign, Some(change.status), now);
    }
  }

  lemma NotedPatching(db: Db, db1: Db, e: int, pid: int, p: Participant, now: int)
    requires Patching(db, db1, e, now) && db.events[e].closedAt.None? && p.eventId == e
    ensures var db2 := Noted(db1, pid, p, now);
      Patching(db, db2, e, now) && pid in db2.participants && db2.participants[pid].eventId == e
  {
    hide TimedStep, Logged;
    PatchLogs(db, db1, e, p.callsign, None, now);
  }

  lemma PatchSteps(db: Db, e: int, pid: int, status: StatusChange, post: PostChange, location: bool, now: int)
    requires Consistent(db)
    ensures TimedSteps(db, UpdatedParticipant(db, e, pid, status, post, location, now).db, now)
  {
    hide Consistent, TimedSteps, TimedStep, Noted, StatusPatched;
    var o := UpdatedParticipant(db, e, pid, status, post, location, now);
    if o.result.Ok? {
      ActiveHasNoEnd(db, e);
      StepSelf(db.events[e], now);
      StatusPatching(db, db, e, pid, status, now);
      var db1 := StatusPatched(db, pid, status, now);
      var p := db1.participants[pid];
      match post {
        case SamePost =>
        case Unassign => NotedPatching(db, db1, e, pid, p.(postId := None), now);
        case Assign(at) => NotedPatching(db, db1, e, pid, p.(postId := Some(at)), now);
      }
      var db2 := PostPatched(db1, pid, post, now);
      if location {
        NotedPatching(db, db2, e, pid, db2.participants[pid], now);
      }
      OneEventSteps(db, o.db, e, now);
    } else {
      SameEventsStep(db, o.db, now);
    }
  }

  lemma RecordSteps(db: Db, op: Op, now: int)
    requires Consistent(db) && (op.AddNote? || op.SetPinned? || op.SendMessage?)
    ensures TimedSteps(db, Apply(db, op, now).db, now)
  {
    hide Consistent, TimedSteps;
    var o := Apply(db, op, now);
    if o.result.Ok? {
      ActiveHasNoEnd(db, op.e);
      OneEventSteps(db, o.db, op.e, now);
    } else {
      SameEventsStep(db, o.db, now);
    }
  }

  lemma {:induction false} RoutedSteps(db: Db, e: int, accept: Option<string>, mail: seq<Mail>,
                                      rawIds: map<string, int>, now: int, n: nat)
    requires e in db.events && n <= |mail| && db.events[e].closedAt.None?
    ensures var ev := RoutedTo(db, e, accept, mail, rawIds, now, n);
      ev.closedAt.None? && TimedStep(db.events[e], ev, now)
    decreases n
  {
    hide TimedStep, Takes;
    if n == 0 {
      StepSelf(db.events[e], now);
    } else {
      RoutedSteps(db, e, accept, mail, rawIds, now, n - 1);
      var ev := RoutedTo(db, e, accept, mail, rawIds, now, n - 1);
      var m := mail[n - 1];
      if Takes(ev, accept, m, rawIds) {
        RoutedOne(ev, m, Find(db, e, m.fromBase), accept, rawIds, now);
        StepTrans(db.events[e], ev, RoutedTo(db, e, accept, mail, rawIds, now, n), now);
      }
    }
  }

  lemma RoutedOne(ev: Event, m: Mail, p: Option<int>, accept: Option<string>, rawIds: map<string, int>, now: int)
    requires ev.closedAt.None? && Takes(ev, accept, m, rawIds)
    ensures var after := Routed(ev, m, rawIds[m.messageId], p, now);
      after.closedAt.None? && TimedStep(ev, after, now)
  {
  }

  lemma MailSteps(db: Db, accepts: map<int, string>, mail: seq<Mail>, rawIds: map<string, int>, reached: map<int, nat>,
                  now: int)
    requires Consistent(db)
    ensures TimedSteps(db, MailRouted(db, accepts, mail, rawIds, reached, now), now)
  {
    hide Consistent, TimedStep, RoutedTo;
    forall e | e in db.events
      ensures TimedStep(db.events[e], MailRouted(db, accepts, mail, rawIds, reached, now).events[e], now)
    {
      if db.events[e].status.Active? {
        ActiveHasNoEnd(db, e);
        RoutedSteps(db, e, Accept(accepts, e), mail, rawIds, now, Reached(reached, e, mail));
      } else {
        StepSelf(db.events[e], now);
      }
    }
  }

  lemma CreateSteps(db: Db, now: int)
    requires Consistent(db)
    ensures TimedSteps(db, CreatedEvent(db, now).db, now)
  {
    hide EventOk;
    assert db.nextEvent !in db.events;
  }

  lemma ApplySteps(db: Db, op: Op, now: int)
    requires Consistent(db) && !op.Close?
    ensures TimedSteps(db, Apply(db, op, now).db, now)
    ensures Apply(db, op, now).db.clock == now || Apply(db, op, now).db == db
  {
    hide Consistent, TimedSteps, Find, StatusPatched, PostPatched, Noted;
    match op {
      case CreateEvent => CreateSteps(db, now);
      case Activate(e) => LifecycleSteps(db, e, now);
      case Reopen(e) => LifecycleSteps(db, e, now);
      case CreatePost(e, name) => SameEventsStep(db, Apply(db, op, now).db, now);
      case UpdatePost(e, post, name) => SameEventsStep(db, Apply(db, op, now).db, now);
      case DeletePost(e, post) => SameEventsStep(db, Apply(db, op, now).db, now);
      case CheckIn(e, callsign, at) => CheckInSteps(db, e, callsign, at, now);
      case UpdateParticipant(e, p, status, post, location) => PatchSteps(db, e, p, status, post, location, now);
      case AddNote(_, _, _) => RecordSteps(db, op, now);
      case SetPinned(_, _, _) => RecordSteps(db, op, now);
      case SendMessage(_, _) => RecordSteps(db, op, now);
      case RouteMail(accepts, mail, rawIds, reached) => MailSteps(db, accepts, mail, rawIds, reached, now);
    }
  }

  lemma StepsKeepOrder(db: Db, db': Db, now: int)
    requires Ordered(db) && db.clock <= now && db'.clock == now && TimedSteps(db, db', now)
    ensures Ordered(db')
  {
    hide EventTimed, TimedStep;
    forall e | e in db'.events
      ensures EventTimed(db'.events[e], now)
    {
      if e in db.events {
        StepKeepsTimes(db.events[e], db'.events[e], db.clock, now);
      } else {
        EmptyIsTimed(db'.events[e], now);
      }
    }
  }

  lemma CloseIsTimed(ev: Event, clock: int, at: int, now: int)
    requires EventTimed(ev, clock) && ev.closedAt.None? && clock <= at <= now
    ensures EventTimed(SystemEntry(ev, None, None, now).(status := Closed, closedAt := Some(at)), now)
  {
    var log := SystemEntry(ev, None, None, now).log;
    assert log[..|log| - 1] == ev.log;
  }

  lemma LaterIsTimed(ev: Event, clock: int, now: int)
    requires EventTimed(ev, clock) && clock <= now
    ensures EventTimed(ev, now)
  {
  }

  lemma CloseKeepsOrder(db: Db, e: int, at: int, now: int)
    requires Consistent(db) && Ordered(db) && db.clock <= at <= now
    ensures Ordered(ClosedEvent(db, e, at, now).db)
    ensures ClosedEvent(db, e, at, now).db.clock <= now
  {
    hide Consistent, EventTimed, SystemEntry;
    if HasStatus(db, e, Active) {
      var db' := ClosedEvent(db, e, at, now).db;
      forall x | x in db'.events
        ensures EventTimed(db'.events[x], now)
      {
        if x == e {
          ActiveHasNoEnd(db, e);
          CloseIsTimed(db.events[e], db.clock, at, now);
        } else {
          LaterIsTimed(db.events[x], db.clock, now);
        }
      }
    }
  }

  lemma EmptyIsTimed(ev: Event, now: int)
    requires ev.log == [] && ev.closedAt.None?
    ensures EventTimed(ev, now)
  {
  }

  /** If the clock's readings never go back, every log is in time order; that of a closed event ends with its
      closing entry, dated no earlier than the closing time, and every other entry is dated no later. */
  lemma {:induction false} ReachableIsOrdered(ops: seq<Timed>)
    requires InOrder(ops)
    ensures Ordered(After(ops))
    ensures After(ops).clock <= if ops == [] then 0 else ops[|ops| - 1].now
    decreases |ops|
  {
    hide Consistent, Apply, Ordered;
    if ops == [] {
      NothingToOrder();
    } else {
      var init, x := ops[..|ops| - 1], ops[|ops| - 1];
      ReachableIsConsistent(init);
      ReachableIsOrdered(init);
      assert After(init).clock <= FirstReading(x);
      if x.op.Close? {
        CloseKeepsOrder(After(init), x.op.e, x.op.time, x.now);
        assert Apply(After(init), x.op, x.now) == ClosedEvent(After(init), x.op.e, x.op.time, x.now) by {
          ApplyClose(After(init), x.op.e, x.op.time, x.now);
        }
        return;
      }
      ApplySteps(After(init), x.op, x.now);
      if Apply(After(init), x.op, x.now).db != After(init) {
        StepsKeepOrder(After(init), Apply(After(init), x.op, x.now).db, x.now);
      }
    }
  }

  lemma ApplyClose(db: Db, e: int, at: int, now: int)
    ensures Apply(db, Close(e, at), now) == ClosedEvent(db, e, at, now)
  {
  }

  lemma NothingToOrder()
    ensures Ordered(EMPTY)
  {
  }
}
