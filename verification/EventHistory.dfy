/** How an event's log evolves: append-only but for pins, frozen while closed, recoverable by polling,
    and untouched by routing the same mail again. */
module EventHistory {
  import opened PyText
  import opened Events
  import opened EventLaws

  /** The same entry, pins aside. */
  predicate SameEntry(a: LogEntry, b: LogEntry) { a.(pinned := b.pinned) == b }

  /** The first log is the beginning of the second, pins aside. */
  ghost predicate Extends(a: seq<LogEntry>, b: seq<LogEntry>)
  {
    |a| <= |b| && forall i :: 0 <= i < |a| ==> SameEntry(a[i], b[i])
  }

  lemma ExtendsTrans(a: seq<LogEntry>, b: seq<LogEntry>, c: seq<LogEntry>)
    requires Extends(a, b) && Extends(b, c)
    ensures Extends(a, c)
  {
    forall i | 0 <= i < |a|
      ensures SameEntry(a[i], c[i])
    {
      assert SameEntry(a[i], b[i]) && SameEntry(b[i], c[i]);
    }
  }

  lemma ExtendsSelf(a: seq<LogEntry>)
    ensures Extends(a, a)
  {
  }

  lemma ExtendsSnoc(a: seq<LogEntry>, x: LogEntry)
    ensures Extends(a, a + [x])
  {
  }

  // ---------------------------------------------------------------------------
  // Every operation extends every log

  ghost predicate LogsExtend(db: Db, db': Db)
  {
    forall e :: e in db.events ==> e in db'.events && Extends(db.events[e].log, db'.events[e].log)
  }

  lemma SameLogs(db: Db, db': Db)
    requires forall e :: e in db.events ==> e in db'.events && db'.events[e].log == db.events[e].log
    ensures LogsExtend(db, db')
  {
    forall e | e in db.events
      ensures Extends(db.events[e].log, db'.events[e].log)
    {
      ExtendsSelf(db.events[e].log);
    }
  }

  lemma OneLogExtends(db: Db, db': Db, e: int)
    requires e in db.events && e in db'.events && db'.events == db.events[e := db'.events[e]]
    requires Extends(db.events[e].log, db'.events[e].log)
    ensures LogsExtend(db, db')
  {
    forall x | x in db.events
      ensures Extends(db.events[x].log, db'.events[x].log)
    {
      ExtendsSelf(db.events[x].log);
    }
  }

  lemma LogsExtendTrans(a: Db, b: Db, c: Db)
    requires LogsExtend(a, b) && LogsExtend(b, c)
    ensures LogsExtend(a, c)
  {
    forall e | e in a.events
      ensures Extends(a.events[e].log, c.events[e].log)
    {
      ExtendsTrans(a.events[e].log, b.events[e].log, c.events[e].log);
    }
  }

  lemma LoggedExtends(ev: Event, entryType: EntryType, callsign: Option<string>, newStatus: Option<ParticipantStatus>,
                      pinned: bool, now: int)
    ensures Extends(ev.log, Logged(ev, entryType, callsign, newStatus, pinned, now).log)
  {
    ExtendsSnoc(ev.log, LogEntry(ev.logSeq + 1, entryType, callsign, newStatus, pinned, now));
  }

  lemma StatusLoggedExtends(db: Db, pid: int, p: Participant, now: int)
    requires p.eventId in db.events
    ensures LogsExtend(db, StatusLogged(db, pid, p, now))
  {
    hide Extends;
    LoggedExtends(db.events[p.eventId], System, Some(p.callsign), Some(p.status), false, now);
    OneLogExtends(db, StatusLogged(db, pid, p, now), p.eventId);
  }

  lemma NotedExtends(db: Db, pid: int, p: Participant, now: int)
    requires p.eventId in db.events
    ensures LogsExtend(db, Noted(db, pid, p, now))
  {
    hide Extends;
    LoggedExtends(db.events[p.eventId], System, Some(p.callsign), None, false, now);
    OneLogExtends(db, Noted(db, pid, p, now), p.eventId);
  }

  lemma PatchExtends(db: Db, e: int, pid: int, status: StatusChange, post: PostChange, location: bool, now: int)
    requires UpdatedParticipant(db, e, pid, status, post, location, now).result.Ok?
    ensures LogsExtend(db, UpdatedParticipant(db, e, pid, status, post, location, now).db)
  {
    hide LogsExtend;
    SameLogs(db, db);
    var db1 := StatusPatched(db, pid, status, now);
    if status.SetStatus? && status.status != db.participants[pid].status {
      StatusLoggedExtends(db, pid, WithStatus(db.participants[pid], status.status, now), now);
    }
    var db2 := PostPatched(db1, pid, post, now);
    match post {
      case SamePost => SameLogs(db1, db1);
      case Unassign => NotedExtends(db1, pid, db1.participants[pid].(postId := None), now);
      case Assign(post) => NotedExtends(db1, pid, db1.participants[pid].(postId := Some(post)), now);
    }
    LogsExtendTrans(db, db1, db2);
    var db3 := if location then Noted(db2, pid, db2.participants[pid], now) else db2;
    if location {
      NotedExtends(db2, pid, db2.participants[pid], now);
      LogsExtendTrans(db, db2, db3);
    }
    SameLogs(db3, db3.(clock := now));
    LogsExtendTrans(db, db3, db3.(clock := now));
  }

  lemma CheckInExtends(db: Db, e: int, callsign: string, post: Option<int>, now: int)
    ensures LogsExtend(db, CheckedInTo(db, e, callsign, post, now).db)
  {
    hide LogsExtend, Find;
    SameLogs(db, db);
    var o := CheckedInTo(db, e, callsign, post, now);
    if o.result.Ok? {
      match Find(db, e, callsign) {
        case Some(pid) => StatusLoggedExtends(db, pid, BackAgain(db.participants[pid], post, now), now);
        case None =>
          var p := Participant(e, callsign, post, CheckedIn, now, None);
          StatusLoggedExtends(db, db.nextParticipant, p, now);
          SameLogs(StatusLogged(db, db.nextParticipant, p, now), o.db);
          LogsExtendTrans(db, StatusLogged(db, db.nextParticipant, p, now), o.db);
      }
    }
  }

  lemma {:induction false} RoutedExtends(db: Db, e: int, accept: Option<string>, mail: seq<Mail>,
                                        rawIds: map<string, int>, now: int, n: nat)
    requires e in db.events && n <= |mail|
    ensures Extends(db.events[e].log, RoutedTo(db, e, accept, mail, rawIds, now, n).log)
    decreases n
  {
    hide Extends, Takes;
    if n == 0 {
      ExtendsSelf(db.events[e].log);
    } else {
      RoutedExtends(db, e, accept, mail, rawIds, now, n - 1);
      var ev := RoutedTo(db, e, accept, mail, rawIds, now, n - 1);
      var m := mail[n - 1];
      if Takes(ev, accept, m, rawIds) {
        assert m.messageId in rawIds by { TakesHasId(ev, accept, m, rawIds); }
        ExtendsSnoc(ev.log, LogEntry(ev.logSeq + 1, System, Some(m.fromBase), None, false, now));
        ExtendsTrans(db.events[e].log, ev.log,
                     Routed(ev, m, rawIds[m.messageId], Find(db, e, m.fromBase), now).log);
      }
    }
  }

  lemma TakesHasId(ev: Event, accept: Option<string>, m: Mail, rawIds: map<string, int>)
    requires Takes(ev, accept, m, rawIds)
    ensures m.messageId in rawIds
  {
  }

  lemma MailExtends(db: Db, accepts: map<int, string>, mail: seq<Mail>, rawIds: map<string, int>,
                    reached: map<int, nat>, now: int)
    ensures LogsExtend(db, MailRouted(db, accepts, mail, rawIds, reached, now))
  {
    hide Extends, RoutedTo;
    var db' := MailRouted(db, accepts, mail, rawIds, reached, now);
    forall e | e in db.events
      ensures Extends(db.events[e].log, db'.events[e].log)
    {
      ExtendsSelf(db.events[e].log);
      RoutedExtends(db, e, Accept(accepts, e), mail, rawIds, now, Reached(reached, e, mail));
    }
  }

  lemma LifecycleExtends(db: Db, e: int, at: int, now: int)
    ensures LogsExtend(db, Activated(db, e, now).db) && LogsExtend(db, ClosedEvent(db, e, at, now).db)
    ensures LogsExtend(db, Reopened(db, e, now).db)
  {
    hide LogsExtend, Extends;
    SameLogs(db, db);
    if e in db.events {
      var ev := db.events[e];
      ExtendsSnoc(ev.log, LogEntry(ev.logSeq + 1, System, None, None, false, now));
      if HasStatus(db, e, Draft) {
        OneLogExtends(db, Activated(db, e, now).db, e);
      }
      if HasStatus(db, e, Active) {
        OneLogExtends(db, ClosedEvent(db, e, at, now).db, e);
      }
      if HasStatus(db, e, Closed) {
        OneLogExtends(db, Reopened(db, e, now).db, e);
      }
    }
  }

  lemma PinExtends(db: Db, e: int, seqNo: nat, pinned: bool, now: int)
    ensures LogsExtend(db, PinSet(db, e, seqNo, pinned, now).db)
  {
    hide LogsExtend;
    SameLogs(db, db);
    var o := PinSet(db, e, seqNo, pinned, now);
    if o.result.Ok? {
      OneLogExtends(db, o.db, e);
    }
  }

  lemma NewEventExtends(db: Db, now: int)
    requires Consistent(db)
    ensures LogsExtend(db, CreatedEvent(db, now).db)
  {
    hide EventOk;
    SameLogs(db, CreatedEvent(db, now).db);
  }

  lemma ApplyExtends(db: Db, op: Op, now: int)
    requires Consistent(db)
    ensures LogsExtend(db, Apply(db, op, now).db)
  {
    hide LogsExtend, Consistent, Find;
    SameLogs(db, db);
    match op {
      case CreateEvent => NewEventExtends(db, now);
      case Activate(e) => LifecycleExtends(db, e, now, now);
      case Close(e, at) => LifecycleExtends(db, e, at, now);
      case Reopen(e) => LifecycleExtends(db, e, now, now);
      case CreatePost(e, name) => SameLogs(db, CreatedPost(db, e, name, now).db);
      case UpdatePost(e, post, name) => SameLogs(db, UpdatedPost(db, e, post, name, now).db);
      case DeletePost(e, post) => SameLogs(db, DeletedPost(db, e, post, now).db);
      case CheckIn(e, callsign, at) => CheckInExtends(db, e, callsign, at, now);
      case UpdateParticipant(e, p, status, post, location) =>
        if UpdatedParticipant(db, e, p, status, post, location, now).result.Ok? {
          PatchExtends(db, e, p, status, post, location, now);
        }
      case AddNote(e, about, pin) =>
        if HasStatus(db, e, Active) {
          var entryType := if about.Some? && about.value != "" then ParticipantNote else Note;
          LoggedExtends(db.events[e], entryType, about, None, pin, now);
          OneLogExtends(db, NoteAdded(db, e, about, pin, now).db, e);
        }
      case SetPinned(e, entry, pin) => PinExtends(db, e, entry, pin, now);
      case SendMessage(e, from) => SameLogs(db, MessageSent(db, e, from, now).db);
      case RouteMail(accepts, mail, rawIds, reached) => MailExtends(db, accepts, mail, rawIds, reached, now);
    }
  }

  // ---------------------------------------------------------------------------
  // Closed events are frozen

  /** The event, its posts and its participants are the same in both states. */
  ghost predicate SameEvent(db: Db, db': Db, e: int)
  {
    && e in db.events && e in db'.events && db'.events[e] == db.events[e]
    && (forall p :: PostIn(db, e, p) ==> PostIn(db', e, p) && db'.posts[p] == db.posts[p])
    && (forall p :: PostIn(db', e, p) ==> PostIn(db, e, p))
    && (forall p :: OwnParticipant(db, e, p) ==> OwnParticipant(db', e, p) && db'.participants[p] == db.participants[p])
    && (forall p :: OwnParticipant(db', e, p) ==> OwnParticipant(db, e, p))
  }

  predicate OwnParticipant(db: Db, e: int, p: int) { p in db.participants && db.participants[p].eventId == e }

  /** The operation worked on another event: only that event's record and rows may differ. */
  ghost predicate OnlyTouches(db: Db, db': Db, other: int)
  {
    && (forall e :: e in db.events && e != other ==> e in db'.events && db'.events[e] == db.events[e])
    && (forall p :: p in db.posts && db.posts[p].eventId != other ==> p in db'.posts && db'.posts[p] == db.posts[p])
    && (forall p :: p in db'.posts && db'.posts[p].eventId != other ==> p in db.posts && db'.posts[p] == db.posts[p])
    && (forall p :: p in db.participants && db.participants[p].eventId != other ==>
          p in db'.participants && db'.participants[p] == db.participants[p])
    && (forall p :: p in db'.participants && db'.participants[p].eventId != other ==>
          p in db.participants && db'.participants[p] == db.participants[p])
  }

  lemma TouchesOther(db: Db, db': Db, other: int, e: int)
    requires OnlyTouches(db, db', other) && e in db.events && e != other
    ensures SameEvent(db, db', e)
  {
  }

  function Target(op: Op, db: Db): int
    requires !op.RouteMail?
  {
    if op.CreateEvent? then db.nextEvent else op.e
  }

  /** Ids given out are new. */
  lemma FreshIds(db: Db)
    requires Consistent(db)
    ensures db.nextEvent !in db.events && db.nextPost !in db.posts && db.nextParticipant !in db.participants
  {
    hide EventOk;
    NextParticipant(db);
  }

  lemma RowTouches(db: Db, pid: int, p: Participant, now: int)
    requires p.eventId in db.events && (pid in db.participants ==> db.participants[pid].eventId == p.eventId)
    ensures OnlyTouches(db, StatusLogged(db, pid, p, now), p.eventId)
    ensures OnlyTouches(db, Noted(db, pid, p, now), p.eventId)
  {
    hide Logged;
  }

  lemma TouchesTrans(a: Db, b: Db, c: Db, e: int)
    requires OnlyTouches(a, b, e) && OnlyTouches(b, c, e)
    ensures OnlyTouches(a, c, e)
  {
  }

  lemma SameTablesTouch(db: Db, db': Db, e: int)
    requires db'.events == db.events && db'.posts == db.posts && db'.participants == db.participants
    ensures OnlyTouches(db, db', e)
  {
  }

  lemma PatchTouches(db: Db, e: int, pid: int, status: StatusChange, post: PostChange, location: bool, now: int)
    ensures OnlyTouches(db, UpdatedParticipant(db, e, pid, status, post, location, now).db, e)
  {
    hide OnlyTouches;
    SameTablesTouch(db, db, e);
    var o := UpdatedParticipant(db, e, pid, status, post, location, now);
    if o.result.Ok? {
      var db1 := StatusPatched(db, pid, status, now);
      if status.SetStatus? && status.status != db.participants[pid].status {
        RowTouches(db, pid, WithStatus(db.participants[pid], status.status, now), now);
      }
      var db2 := PostPatched(db1, pid, post, now);
      match post {
        case SamePost => SameTablesTouch(db1, db1, e);
        case Unassign => RowTouches(db1, pid, db1.participants[pid].(postId := None), now);
        case Assign(post) => RowTouches(db1, pid, db1.participants[pid].(postId := Some(post)), now);
      }
      TouchesTrans(db, db1, db2, e);
      var db3 := if location then Noted(db2, pid, db2.participants[pid], now) else db2;
      if location {
        RowTouches(db2, pid, db2.participants[pid], now);
        TouchesTrans(db, db2, db3, e);
      }
      SameTablesTouch(db3, o.db, e);
      TouchesTrans(db, db3, o.db, e);
    }
  }

  lemma CheckInTouches(db: Db, e: int, callsign: string, post: Option<int>, now: int)
    requires db.nextParticipant !in db.participants
    ensures OnlyTouches(db, CheckedInTo(db, e, callsign, post, now).db, e)
  {
    hide OnlyTouches, Find;
    SameTablesTouch(db, db, e);
    var o := CheckedInTo(db, e, callsign, post, now);
    if o.result.Ok? {
      match Find(db, e, callsign) {
        case Some(pid) => RowTouches(db, pid, BackAgain(db.participants[pid], post, now), now);
        case None =>
          var p := Participant(e, callsign, post, CheckedIn, now, None);
          RowTouches(db, db.nextParticipant, p, now);
          SameTablesTouch(StatusLogged(db, db.nextParticipant, p, now), o.db, e);
          TouchesTrans(db, StatusLogged(db, db.nextParticipant, p, now), o.db, e);
      }
    }
  }

  lemma PostOpsTouch(db: Db, op: Op, now: int)
    requires db.nextPost !in db.posts && (op.CreatePost? || op.UpdatePost? || op.DeletePost?)
    ensures OnlyTouches(db, Apply(db, op, now).db, op.e)
  {
    hide NameTaken, Assigned;
  }

  lemma RecordOpsTouch(db: Db, op: Op, now: int)
    requires !op.RouteMail? && !op.CheckIn? && !op.UpdateParticipant?
    requires !op.CreatePost? && !op.UpdatePost? && !op.DeletePost?
    ensures OnlyTouches(db, Apply(db, op, now).db, Target(op, db))
  {
    hide Logged, Pinned, Sent;
  }

  lemma TargetOnly(db: Db, op: Op, now: int)
    requires Consistent(db) && !op.RouteMail?
    ensures OnlyTouches(db, Apply(db, op, now).db, Target(op, db))
  {
    hide Consistent, Find, OnlyTouches, UpdatedParticipant, CheckedInTo;
    FreshIds(db);
    match op {
      case CreatePost(_, _) => PostOpsTouch(db, op, now);
      case UpdatePost(_, _, _) => PostOpsTouch(db, op, now);
      case DeletePost(_, _) => PostOpsTouch(db, op, now);
      case CheckIn(e, callsign, at) => CheckInTouches(db, e, callsign, at, now);
      case UpdateParticipant(e, p, status, post, location) => PatchTouches(db, e, p, status, post, location, now);
      case _ => RecordOpsTouch(db, op, now);
    }
  }

  lemma NotActiveRefused(db: Db, op: Op, now: int)
    requires !op.RouteMail? && !op.Reopen? && !op.CreateEvent? && HasStatus(db, op.e, Closed)
    ensures !Apply(db, op, now).result.Ok? && Apply(db, op, now).db == db
  {
    hide Find, StatusLogged, Noted, StatusPatched, PostPatched;
  }

  lemma MailSkipsClosed(db: Db, accepts: map<int, string>, mail: seq<Mail>, rawIds: map<string, int>,
                        reached: map<int, nat>, now: int, e: int)
    requires HasStatus(db, e, Closed)
    ensures SameEvent(db, MailRouted(db, accepts, mail, rawIds, reached, now), e)
  {
    hide RoutedTo;
  }

  /** Nothing but reopening it changes the posts, participants, messages or log of a closed event. */
  lemma ClosedIsFrozen(db: Db, op: Op, now: int, e: int)
    requires Consistent(db) && HasStatus(db, e, Closed) && op != Reopen(e)
    ensures SameEvent(db, Apply(db, op, now).db, e)
  {
    hide Consistent, OnlyTouches, SameEvent, Apply, Find;
    if op.RouteMail? {
      MailSkipsClosed(db, op.accepts, op.mail, op.rawIds, op.reached, now, e);
      ApplyMail(db, op, now);
    } else if Target(op, db) != e {
      TargetOnly(db, op, now);
      TouchesOther(db, Apply(db, op, now).db, Target(op, db), e);
    } else if op.CreateEvent? {
      FreshIds(db);
      assert false;
    } else {
      NotActiveRefused(db, op, now);
      SameAsItself(db, e);
    }
  }

  lemma ApplyMail(db: Db, op: Op, now: int)
    requires op.RouteMail?
    ensures Apply(db, op, now).db == MailRouted(db, op.accepts, op.mail, op.rawIds, op.reached, now)
  {
  }

  lemma SameAsItself(db: Db, e: int)
    requires e in db.events
    ensures SameEvent(db, db, e)
  {
  }

  // ---------------------------------------------------------------------------
  // Polling

  /** The entries after the cursor, as the updates route selects them. */
  function Poll(log: seq<LogEntry>, since: nat): seq<LogEntry>
  {
    if log == [] then []
    else Poll(log[..|log| - 1], since)
         + if log[|log| - 1].seqNo > since then [log[|log| - 1]] else []
  }

  /** The numbers of the pinned entries, sent with every update. */
  function PinnedSeqs(log: seq<LogEntry>): (r: set<nat>)
  {
    set i | 0 <= i < |log| && log[i].pinned :: log[i].seqNo
  }

  /** The client's entries with the pins of the latest update. */
  function WithPins(log: seq<LogEntry>, pins: set<nat>): (r: seq<LogEntry>)
    ensures |r| == |log| && forall i :: 0 <= i < |log| ==> r[i] == log[i].(pinned := log[i].seqNo in pins)
  {
    seq(|log|, i requires 0 <= i < |log| => log[i].(pinned := log[i].seqNo in pins))
  }

  predicate Dense(log: seq<LogEntry>)
  {
    forall i :: 0 <= i < |log| ==> log[i].seqNo == i + 1
  }

  lemma {:induction false} PollIsTail(log: seq<LogEntry>, since: nat)
    requires Dense(log)
    ensures Poll(log, since) == if since <= |log| then log[since..] else []
    decreases |log|
  {
    if log != [] {
      var init := log[..|log| - 1];
      PollIsTail(init, since);
      if since <= |init| {
        assert log[since..] == init[since..] + [log[|log| - 1]];
      }
    }
  }

  lemma PinnedIff(log: seq<LogEntry>, i: nat)
    requires Dense(log) && i < |log|
    ensures log[i].seqNo in PinnedSeqs(log) <==> log[i].pinned
  {
    if log[i].seqNo in PinnedSeqs(log) {
      var j :| 0 <= j < |log| && log[j].pinned && log[j].seqNo == log[i].seqNo;
    }
  }

  /** The same entries with the right pins are the log. */
  lemma PinsComplete(t: seq<LogEntry>, log: seq<LogEntry>)
    requires Dense(log) && |t| == |log| && forall i :: 0 <= i < |t| ==> SameEntry(t[i], log[i])
    ensures WithPins(t, PinnedSeqs(log)) == log
  {
    hide PinnedSeqs, WithPins, Dense;
    forall i | 0 <= i < |t|
      ensures WithPins(t, PinnedSeqs(log))[i] == log[i]
    {
      assert SameEntry(t[i], log[i]);
      PinnedIff(log, i);
    }
  }

  /** A client that had the server's log at its last poll has it again after this one. */
  lemma PollCatchesUp(client: seq<LogEntry>, before: seq<LogEntry>, now: seq<LogEntry>)
    requires Dense(now) && Extends(before, now)
    requires |client| == |before| && forall i :: 0 <= i < |client| ==> SameEntry(client[i], before[i])
    ensures WithPins(client + Poll(now, |before|), PinnedSeqs(now)) == now
  {
    hide PinnedSeqs, WithPins, Dense, Poll;
    PollIsTail(now, |before|);
    var t := client + Poll(now, |before|);
    forall i | 0 <= i < |t|
      ensures SameEntry(t[i], now[i])
    {
      assert i < |before| ==> SameEntry(client[i], before[i]) && SameEntry(before[i], now[i]);
    }
    PinsComplete(t, now);
  }

  /** The event's log after the first n operations, empty before the event exists. */
  ghost function LogAt(ops: seq<Timed>, n: nat, e: int): seq<LogEntry>
    requires n <= |ops|
  {
    var db := After(ops[..n]);
    if e in db.events then db.events[e].log else []
  }

  lemma {:induction false} LogAtExtends(ops: seq<Timed>, m: nat, n: nat, e: int)
    requires m <= n <= |ops|
    ensures Extends(LogAt(ops, m, e), LogAt(ops, n, e))
    decreases n
  {
    hide Consistent, Apply, Extends, After;
    if m == n {
      ExtendsSelf(LogAt(ops, m, e));
    } else {
      LogAtExtends(ops, m, n - 1, e);
      OneMoreOp(ops, n - 1, e);
      ExtendsTrans(LogAt(ops, m, e), LogAt(ops, n - 1, e), LogAt(ops, n, e));
    }
  }

  lemma OneMoreOp(ops: seq<Timed>, n: nat, e: int)
    requires n < |ops|
    ensures Extends(LogAt(ops, n, e), LogAt(ops, n + 1, e))
  {
    hide Consistent, Apply, Extends;
    assert ops[..n + 1][..n] == ops[..n];
    ReachableIsConsistent(ops[..n]);
    ApplyExtends(After(ops[..n]), ops[n].op, ops[n].now);
    if e !in After(ops[..n]).events {
      NothingExtends(LogAt(ops, n + 1, e));
    }
  }

  lemma NothingExtends(b: seq<LogEntry>)
    ensures Extends([], b)
  {
  }

  lemma LogAtDense(ops: seq<Timed>, n: nat, e: int)
    requires n <= |ops|
    ensures Dense(LogAt(ops, n, e))
  {
    hide LegalEntry, After;
    ReachableIsConsistent(ops[..n]);
  }

  predicate Nondecreasing(cuts: seq<nat>)
  {
    forall i, j :: 0 <= i <= j < |cuts| ==> cuts[i] <= cuts[j]
  }

  /** What a client holds that polls after each of the given numbers of operations, every time with
      the last sequence number it has. */
  ghost function ClientLog(ops: seq<Timed>, cuts: seq<nat>, e: int): seq<LogEntry>
    requires forall i :: 0 <= i < |cuts| ==> cuts[i] <= |ops|
  {
    if cuts == [] then []
    else
      var had := ClientLog(ops, cuts[..|cuts| - 1], e);
      var log := LogAt(ops, cuts[|cuts| - 1], e);
      WithPins(had + Poll(log, |had|), PinnedSeqs(log))
  }

  /** Polling with the last sequence number, a client has after each poll exactly the server's log. */
  lemma {:induction false} PollingReconstructs(ops: seq<Timed>, cuts: seq<nat>, e: int)
    requires Nondecreasing(cuts) && forall i :: 0 <= i < |cuts| ==> cuts[i] <= |ops|
    ensures cuts != [] ==> ClientLog(ops, cuts, e) == LogAt(ops, cuts[|cuts| - 1], e)
    decreases |cuts|
  {
    hide LogAt, Poll, WithPins, PinnedSeqs, Dense;
    if cuts != [] {
      var init, at := cuts[..|cuts| - 1], cuts[|cuts| - 1];
      PollingReconstructs(ops, init, e);
      LogAtDense(ops, at, e);
      if init == [] {
        NothingExtends(LogAt(ops, at, e));
        PollCatchesUp([], [], LogAt(ops, at, e));
      } else {
        var before := LogAt(ops, init[|init| - 1], e);
        LogAtExtends(ops, init[|init| - 1], at, e);
        PollCatchesUp(before, before, LogAt(ops, at, e));
      }
    }
  }

  // ---------------------------------------------------------------------------
  // Routing the same mail again

  lemma RoutedNow(ev: Event, m: Mail, rawId: int, p: Option<int>, now: int)
    ensures AlreadyRouted(Routed(ev, m, rawId, p, now), rawId)
    ensures forall r :: AlreadyRouted(ev, r) ==> AlreadyRouted(Routed(ev, m, rawId, p, now), r)
  {
    var after := Routed(ev, m, rawId, p, now);
    assert after.messages[|ev.messages|].rawId == Some(rawId);
    forall r | AlreadyRouted(ev, r)
      ensures AlreadyRouted(after, r)
    {
      var i :| 0 <= i < |ev.messages| && ev.messages[i].rawId == Some(r);
      assert after.messages[i].rawId == Some(r);
    }
  }

  /** Whether the event would take the message if it did not have it yet. */
  predicate Meant(accept: Option<string>, m: Mail, rawIds: map<string, int>)
  {
    (accept.None? || accept.value == m.toBase) && m.messageId in rawIds
  }

  lemma {:induction false} AllTaken(db: Db, e: int, accept: Option<string>, mail: seq<Mail>, rawIds: map<string, int>,
                                   now: int, n: nat, i: nat)
    requires e in db.events && i < n <= |mail| && Meant(accept, mail[i], rawIds)
    ensures AlreadyRouted(RoutedTo(db, e, accept, mail, rawIds, now, n), rawIds[mail[i].messageId])
    decreases n
  {
    hide AlreadyRouted, Routed;
    var ev := RoutedTo(db, e, accept, mail, rawIds, now, n - 1);
    var m := mail[n - 1];
    if Takes(ev, accept, m, rawIds) {
      RoutedNow(ev, m, rawIds[m.messageId], Find(db, e, m.fromBase), now);
    }
    if i < n - 1 {
      AllTaken(db, e, accept, mail, rawIds, now, n - 1, i);
    }
  }

  lemma {:induction false} NothingMoreToTake(db: Db, e: int, accept: Option<string>, mail: seq<Mail>,
                                            rawIds: map<string, int>, now: int, n: nat)
    requires e in db.events && n <= |mail|
    requires forall i :: 0 <= i < |mail| && Meant(accept, mail[i], rawIds) ==>
      AlreadyRouted(db.events[e], rawIds[mail[i].messageId])
    ensures RoutedTo(db, e, accept, mail, rawIds, now, n) == db.events[e]
    decreases n
  {
    hide AlreadyRouted, Routed;
    if n > 0 {
      NothingMoreToTake(db, e, accept, mail, rawIds, now, n - 1);
      assert Meant(accept, mail[n - 1], rawIds) ==> AlreadyRouted(db.events[e], rawIds[mail[n - 1].messageId]);
    }
  }

  /** Routing the same mail again after a whole pass creates nothing in any event. */
  lemma ReroutingCreatesNothing(db: Db, accepts: map<int, string>, mail: seq<Mail>, rawIds: map<string, int>, now: int,
                                reached: map<int, nat>, later: int)
    ensures var once := MailRouted(db, accepts, mail, rawIds, map[], now);
      MailRouted(once, accepts, mail, rawIds, reached, later).events == once.events
  {
    hide RoutedTo, AlreadyRouted;
    var once := MailRouted(db, accepts, mail, rawIds, map[], now);
    var twice := MailRouted(once, accepts, mail, rawIds, reached, later);
    forall e | e in once.events
      ensures twice.events[e] == once.events[e]
    {
      if once.events[e].status.Active? {
        assert db.events[e].status.Active?;
        forall i | 0 <= i < |mail| && Meant(Accept(accepts, e), mail[i], rawIds)
          ensures AlreadyRouted(once.events[e], rawIds[mail[i].messageId])
        {
          AllTaken(db, e, Accept(accepts, e), mail, rawIds, now, |mail|, i);
        }
        NothingMoreToTake(once, e, Accept(accepts, e), mail, rawIds, later, Reached(reached, e, mail));
      }
    }
  }

  // ---------------------------------------------------------------------------
  // Making up for a broken pass

  /** The messages of the event that a pass looks at beyond those it has looked at change nothing that the
      earlier ones brought. */
  lemma {:induction false} FirstTaken(db: Db, e: int, accept: Option<string>, mail: seq<Mail>, rawIds: map<string, int>,
                                     now: int, n: nat, again: Db, later: int, k: nat)
    requires e in db.events && n <= |mail| && k <= n
    requires e in again.events && again.events[e] == RoutedTo(db, e, accept, mail, rawIds, now, n)
    ensures RoutedTo(again, e, accept, mail, rawIds, later, k) == again.events[e]
    decreases k
  {
    hide AlreadyRouted, Routed;
    if k > 0 {
      FirstTaken(db, e, accept, mail, rawIds, now, n, again, later, k - 1);
      if Meant(accept, mail[k - 1], rawIds) {
        AllTaken(db, e, accept, mail, rawIds, now, n, k - 1);
      }
    }
  }

  lemma SameParticipant(db: Db, again: Db, e: int, callsign: string)
    requires Consistent(db) && again.participants == db.participants
    ensures Find(again, e, callsign) == Find(db, e, callsign)
  {
    hide EventOk;
    forall p
      ensures IsParticipant(again, e, callsign, p) == IsParticipant(db, e, callsign, p)
    {
    }
    if Find(db, e, callsign).Some? {
      OnlyOne(db, Find(db, e, callsign).value);
    }
  }

  lemma {:induction false} RestTaken(db: Db, e: int, accept: Option<string>, mail: seq<Mail>, rawIds: map<string, int>,
                                    now: int, n: nat, again: Db, later: int, k: nat)
    requires Consistent(db) && again.participants == db.participants
    requires e in db.events && n <= k <= |mail|
    requires e in again.events && again.events[e] == RoutedTo(db, e, accept, mail, rawIds, now, n)
    ensures
      var a, b := RoutedTo(again, e, accept, mail, rawIds, later, k), RoutedTo(db, e, accept, mail, rawIds, now, k);
      a.messages == b.messages && a.msgSeq == b.msgSeq
    decreases k
  {
    hide Consistent, Find;
    if k == n {
      FirstTaken(db, e, accept, mail, rawIds, now, n, again, later, k);
    } else {
      RestTaken(db, e, accept, mail, rawIds, now, n, again, later, k - 1);
      SameParticipant(db, again, e, mail[k - 1].fromBase);
    }
  }

  /** However a pass over the mail broke, a whole pass over the same mail afterwards leaves every event with
      exactly the messages one whole pass would have given it. */
  lemma BrokenPassIsMadeUp(db: Db, accepts: map<int, string>, mail: seq<Mail>, rawIds: map<string, int>,
                           reached: map<int, nat>, now: int, later: int, e: int)
    requires Consistent(db) && e in db.events
    ensures var broken := MailRouted(db, accepts, mail, rawIds, reached, now);
      MailRouted(broken, accepts, mail, rawIds, map[], later).events[e].messages
      == MailRouted(db, accepts, mail, rawIds, map[], now).events[e].messages
  {
    hide RoutedTo, Consistent;
    var broken := MailRouted(db, accepts, mail, rawIds, reached, now);
    if db.events[e].status.Active? {
      RestTaken(db, e, Accept(accepts, e), mail, rawIds, now, Reached(reached, e, mail), broken, later, |mail|);
    }
  }
}
