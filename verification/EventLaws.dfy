/** What every reachable state of the event tables satisfies. */
module EventLaws {
  import opened PyText
  import opened Events

  // ---------------------------------------------------------------------------
  // Replaying a log

  /** The last status logged for a callsign. */
  function LastStatus(log: seq<LogEntry>, callsign: string): Option<ParticipantStatus>
  {
    if log == [] then None
    else
      var last := log[|log| - 1];
      if last.callsign == Some(callsign) && last.newStatus.Some? then last.newStatus
      else LastStatus(log[..|log| - 1], callsign)
  }

  /** A status a callsign may be given next: it must check in first, and again after checking out. */
  predicate MayFollow(before: Option<ParticipantStatus>, next: ParticipantStatus)
  {
    (before.None? ==> next.CheckedIn?) && (before.Some? ==> next != before.value && Transition(before.value, next))
  }

  predicate LegalEntry(log: seq<LogEntry>, i: nat)
    requires i < |log|
  {
    log[i].newStatus.Some? ==>
      log[i].callsign.Some? && MayFollow(LastStatus(log[..i], log[i].callsign.value), log[i].newStatus.value)
  }

  /** Numbered 1, 2, 3, ..., and every status change is a legal one. */
  ghost predicate LogOk(log: seq<LogEntry>)
  {
    && (forall i :: 0 <= i < |log| ==> log[i].seqNo == i + 1)
    && (forall i :: 0 <= i < |log| ==> LegalEntry(log, i))
  }

  ghost predicate MessagesOk(ev: Event)
  {
    && ev.msgSeq == |ev.messages|
    && (forall i :: 0 <= i < |ev.messages| ==> ev.messages[i].msgSeq == i + 1)
    && (forall i, j :: 0 <= i < j < |ev.messages| && ev.messages[i].rawId.Some? ==>
          ev.messages[i].rawId != ev.messages[j].rawId)
  }

  ghost predicate EventOk(ev: Event)
  {
    (ev.closedAt.Some? <==> ev.status.Closed?) && ev.logSeq == |ev.log| && LogOk(ev.log) && MessagesOk(ev)
  }

  // ---------------------------------------------------------------------------
  // The tables

  ghost predicate ParticipantOk(db: Db, p: int)
    requires p in db.participants
  {
    var row := db.participants[p];
    && row.eventId in db.events && p < db.nextParticipant
    && (row.checkedOutAt.Some? <==> row.status.CheckedOut?)
    && (row.postId.Some? ==> PostIn(db, row.eventId, row.postId.value))
    && LastStatus(db.events[row.eventId].log, row.callsign) == Some(row.status)
  }

  ghost predicate Unique(db: Db)
  {
    && (forall p, q | p in db.participants && q in db.participants ::
          && db.participants[p].eventId == db.participants[q].eventId
          && db.participants[p].callsign == db.participants[q].callsign
          ==> p == q)
    && (forall p, q :: p in db.posts && q in db.posts && db.posts[p] == db.posts[q] ==> p == q)
  }

  /** Only participants have statuses in a log. */
  ghost predicate NoStrangers(db: Db)
  {
    forall e, c :: e in db.events && LastStatus(db.events[e].log, c).Some? ==> exists p :: IsParticipant(db, e, c, p)
  }

  ghost predicate Consistent(db: Db)
  {
    && (forall e :: e in db.events ==> e < db.nextEvent && EventOk(db.events[e]))
    && (forall p :: p in db.posts ==> db.posts[p].eventId in db.events && p < db.nextPost)
    && (forall p :: p in db.participants ==> ParticipantOk(db, p))
    && Unique(db) && NoStrangers(db)
  }

  // ---------------------------------------------------------------------------
  // One more entry

  lemma LastStatusSnoc(log: seq<LogEntry>, x: LogEntry, c: string)
    ensures LastStatus(log + [x], c)
         == if x.callsign == Some(c) && x.newStatus.Some? then x.newStatus else LastStatus(log, c)
  {
    assert (log + [x])[..|log|] == log;
  }

  lemma LogSnoc(log: seq<LogEntry>, x: LogEntry)
    requires LogOk(log) && x.seqNo == |log| + 1
    requires x.newStatus.Some? ==> x.callsign.Some? && MayFollow(LastStatus(log, x.callsign.value), x.newStatus.value)
    ensures LogOk(log + [x])
  {
    hide MayFollow;
    var t := log + [x];
    forall i | 0 <= i < |t|
      ensures LegalEntry(t, i)
    {
      if i < |log| {
        assert LegalEntry(log, i);
        assert t[..i] == log[..i];
      } else {
        assert t[..i] == log;
      }
    }
  }

  /** Logging on an event that is not closed keeps it sound. */
  lemma LoggedOk(ev: Event, entryType: EntryType, callsign: Option<string>,
                 newStatus: Option<ParticipantStatus>, pinned: bool, now: int)
    requires EventOk(ev) && ev.closedAt.None?
    requires newStatus.Some? ==> callsign.Some? && MayFollow(LastStatus(ev.log, callsign.value), newStatus.value)
    ensures EventOk(Logged(ev, entryType, callsign, newStatus, pinned, now))
  {
    hide LogOk, MayFollow;
    LogSnoc(ev.log, LogEntry(ev.logSeq + 1, entryType, callsign, newStatus, pinned, now));
  }

  // ---------------------------------------------------------------------------
  // Storing one event

  /** The statuses the new log shows are those the old one showed. */
  ghost predicate SameStatuses(a: seq<LogEntry>, b: seq<LogEntry>)
  {
    forall c :: LastStatus(a, c) == LastStatus(b, c)
  }

  lemma PlainEntryKeepsStatuses(log: seq<LogEntry>, x: LogEntry)
    requires x.newStatus.None?
    ensures SameStatuses(log, log + [x])
  {
    forall c
      ensures LastStatus(log, c) == LastStatus(log + [x], c)
    {
      LastStatusSnoc(log, x, c);
    }
  }

  /** Replacing an event by a sound one with the same statuses keeps the tables consistent. */
  lemma StoreKeeps(db: Db, e: int, ev: Event, now: int)
    requires Consistent(db) && EventOk(ev)
    requires e in db.events && SameStatuses(db.events[e].log, ev.log)
    ensures Consistent(Stored(db, e, ev, now))
  {
    hide EventOk;
    var db' := Stored(db, e, ev, now);
    forall x | x in db'.events
      ensures EventOk(db'.events[x])
    {
    }
    forall p | p in db'.participants
      ensures ParticipantOk(db', p)
    {
      assert ParticipantOk(db, p);
    }
    forall x, c | x in db'.events && LastStatus(db'.events[x].log, c).Some?
      ensures exists p :: IsParticipant(db', x, c, p)
    {
      var p :| IsParticipant(db, x, c, p);
      assert IsParticipant(db', x, c, p);
    }
  }

  lemma NewEventKeeps(db: Db, now: int)
    requires Consistent(db)
    ensures Consistent(CreatedEvent(db, now).db)
    ensures var db' := CreatedEvent(db, now).db;
      && db.nextEvent !in db.events && db'.events.Keys == db.events.Keys + {db.nextEvent}
      && db'.events[db.nextEvent].status.Draft? && db'.events[db.nextEvent].log == []
      && forall x :: x in db.events ==> db'.events[x] == db.events[x]
  {
    hide EventOk;
    var db' := CreatedEvent(db, now).db;
    NewEventOk(now);
    forall x | x in db'.events
      ensures EventOk(db'.events[x])
    {
    }
    forall p | p in db'.participants
      ensures ParticipantOk(db', p)
    {
      assert ParticipantOk(db, p);
    }
    forall x, c | x in db'.events && LastStatus(db'.events[x].log, c).Some?
      ensures exists p :: IsParticipant(db', x, c, p)
    {
      assert x != db.nextEvent;
      var p :| IsParticipant(db, x, c, p);
      assert IsParticipant(db', x, c, p);
    }
  }

  lemma NewEventOk(now: int)
    ensures EventOk(NEW_EVENT)
  {
  }

  lemma LifecycleKeeps(db: Db, e: int, at: int, now: int)
    requires Consistent(db)
    ensures Consistent(Activated(db, e, now).db)
    ensures Consistent(ClosedEvent(db, e, at, now).db)
    ensures Consistent(Reopened(db, e, now).db)
  {
    hide Consistent, EventOk, LogOk, Stored, SystemEntry, SameStatuses;
    if HasStatus(db, e, Draft) {
      ActivateOk(db.events[e], now) by { OneEventOk(db, e); }
      StoreKeeps(db, e, SystemEntry(db.events[e].(status := Active), None, None, now), now);
    }
    if HasStatus(db, e, Active) {
      CloseOk(db.events[e], at, now) by { OneEventOk(db, e); }
      StoreKeeps(db, e, SystemEntry(db.events[e], None, None, now).(status := Closed, closedAt := Some(at)), now);
    }
    if HasStatus(db, e, Closed) {
      ReopenOk(db.events[e], now) by { OneEventOk(db, e); }
      StoreKeeps(db, e, SystemEntry(db.events[e].(status := Active, closedAt := None), None, None, now), now);
    }
  }

  lemma OneEventOk(db: Db, e: int)
    requires Consistent(db) && e in db.events
    ensures EventOk(db.events[e])
  {
  }

  lemma ActivateOk(ev: Event, now: int)
    requires EventOk(ev) && ev.status.Draft?
    ensures var ev' := SystemEntry(ev.(status := Active), None, None, now);
      EventOk(ev') && SameStatuses(ev.log, ev'.log)
  {
    hide LogOk, SameStatuses, MayFollow;
    LoggedOk(ev.(status := Active), System, None, None, false, now);
    PlainEntryKeepsStatuses(ev.log, LogEntry(ev.logSeq + 1, System, None, None, false, now));
  }

  lemma CloseOk(ev: Event, at: int, now: int)
    requires EventOk(ev) && ev.status.Active?
    ensures var ev' := SystemEntry(ev, None, None, now).(status := Closed, closedAt := Some(at));
      EventOk(ev') && SameStatuses(ev.log, ev'.log)
  {
    hide LogOk, SameStatuses, MayFollow;
    LoggedOk(ev, System, None, None, false, now);
    PlainEntryKeepsStatuses(ev.log, LogEntry(ev.logSeq + 1, System, None, None, false, now));
  }

  lemma ReopenOk(ev: Event, now: int)
    requires EventOk(ev) && ev.status.Closed?
    ensures var ev' := SystemEntry(ev.(status := Active, closedAt := None), None, None, now);
      EventOk(ev') && SameStatuses(ev.log, ev'.log)
  {
    hide LogOk, SameStatuses, MayFollow;
    LoggedOk(ev.(status := Active, closedAt := None), System, None, None, false, now);
    PlainEntryKeepsStatuses(ev.log, LogEntry(ev.logSeq + 1, System, None, None, false, now));
  }

  // ---------------------------------------------------------------------------
  // Posts

  /** The tables with other posts, when every post a participant holds is still there. */
  lemma PostsKeep(db: Db, db': Db)
    requires Consistent(db)
    requires db' == db.(posts := db'.posts, nextPost := db'.nextPost, clock := db'.clock)
    requires forall p :: p in db'.posts ==> db'.posts[p].eventId in db.events && p < db'.nextPost
    requires forall p, q :: p in db'.posts && q in db'.posts && db'.posts[p] == db'.posts[q] ==> p == q
    requires forall p :: p in db.participants && db.participants[p].postId.Some? ==>
      PostIn(db', db.participants[p].eventId, db.participants[p].postId.value)
    ensures Consistent(db')
  {
    hide EventOk;
    forall x | x in db'.events
      ensures EventOk(db'.events[x])
    {
    }
    forall p | p in db'.participants
      ensures ParticipantOk(db', p)
    {
      assert ParticipantOk(db, p);
    }
    forall x, c | x in db'.events && LastStatus(db'.events[x].log, c).Some?
      ensures exists p :: IsParticipant(db', x, c, p)
    {
      var p :| IsParticipant(db, x, c, p);
      assert IsParticipant(db', x, c, p);
    }
  }

  lemma HeldPosts(db: Db, p: int)
    requires Consistent(db) && p in db.participants && db.participants[p].postId.Some?
    ensures PostIn(db, db.participants[p].eventId, db.participants[p].postId.value)
  {
    assert ParticipantOk(db, p);
  }

  lemma PostTable(db: Db)
    requires Consistent(db)
    ensures forall p :: p in db.posts ==> db.posts[p].eventId in db.events && p < db.nextPost
    ensures forall p, q :: p in db.posts && q in db.posts && db.posts[p] == db.posts[q] ==> p == q
    ensures forall p :: p in db.participants && db.participants[p].postId.Some? ==>
      PostIn(db, db.participants[p].eventId, db.participants[p].postId.value)
  {
    forall p | p in db.participants && db.participants[p].postId.Some?
      ensures PostIn(db, db.participants[p].eventId, db.participants[p].postId.value)
    {
      HeldPosts(db, p);
    }
  }

  lemma CreatedPostKeeps(db: Db, e: int, name: string, now: int)
    requires Consistent(db)
    ensures Consistent(CreatedPost(db, e, name, now).db)
  {
    hide Consistent;
    PostTable(db);
    var o := CreatedPost(db, e, name, now);
    if o.result.Ok? {
      PostsKeep(db, o.db);
    }
  }

  lemma UpdatedPostKeeps(db: Db, e: int, post: int, name: Option<string>, now: int)
    requires Consistent(db)
    ensures Consistent(UpdatedPost(db, e, post, name, now).db)
  {
    hide Consistent;
    PostTable(db);
    var o := UpdatedPost(db, e, post, name, now);
    if o.result.Ok? {
      PostsKeep(db, o.db);
    }
  }

  lemma DeletedPostKeeps(db: Db, e: int, post: int, now: int)
    requires Consistent(db)
    ensures Consistent(DeletedPost(db, e, post, now).db)
  {
    hide Consistent;
    PostTable(db);
    var o := DeletedPost(db, e, post, now);
    if o.result.Ok? {
      PostsKeep(db, o.db);
    }
  }

  // ---------------------------------------------------------------------------
  // Participants

  /** A participant row that may be written: right dates, a post of its event, and its own callsign. */
  ghost predicate GoodRow(db: Db, pid: int, p: Participant)
  {
    && p.eventId in db.events && (p.checkedOutAt.Some? <==> p.status.CheckedOut?)
    && (p.postId.Some? ==> PostIn(db, p.eventId, p.postId.value))
    && (forall q :: IsParticipant(db, p.eventId, p.callsign, q) ==> q == pid)
    && (pid in db.participants ==>
          db.participants[pid].eventId == p.eventId && db.participants[pid].callsign == p.callsign)
  }

  /** Writing a row and logging its new status. */
  lemma StatusLoggedKeeps(db: Db, pid: int, p: Participant, now: int, next: int)
    requires Consistent(db) && GoodRow(db, pid, p) && db.events[p.eventId].status.Active?
    requires pid < next && db.nextParticipant <= next
    requires MayFollow(LastStatus(db.events[p.eventId].log, p.callsign), p.status)
    ensures Consistent(StatusLogged(db, pid, p, now).(nextParticipant := next))
  {
    hide EventOk, MayFollow;
    var e := p.eventId;
    var x := LogEntry(db.events[e].logSeq + 1, System, Some(p.callsign), Some(p.status), false, now);
    var db' := StatusLogged(db, pid, p, now).(nextParticipant := next);
    assert db'.events[e].log == db.events[e].log + [x];
    forall y | y in db'.events
      ensures EventOk(db'.events[y])
    {
      if y == e {
        ActiveIsOpen(db.events[e]);
        LoggedOk(db.events[e], System, Some(p.callsign), Some(p.status), false, now);
      }
    }
    forall q | q in db'.participants
      ensures ParticipantOk(db', q)
    {
      LastStatusSnoc(db.events[e].log, x, db'.participants[q].callsign);
      if q != pid {
        assert ParticipantOk(db, q);
        assert IsParticipant(db, db.participants[q].eventId, db.participants[q].callsign, q);
      }
    }
    forall y, c | y in db'.events && LastStatus(db'.events[y].log, c).Some?
      ensures exists q :: IsParticipant(db', y, c, q)
    {
      LastStatusSnoc(db.events[e].log, x, c);
      if y == e && c == p.callsign {
        assert IsParticipant(db', y, c, pid);
      } else {
        var q :| IsParticipant(db, y, c, q);
        assert IsParticipant(db', y, c, q);
      }
    }
    RowKeepsUnique(db, pid, p);
  }

  lemma ActiveIsOpen(ev: Event)
    requires EventOk(ev) && !ev.status.Closed?
    ensures ev.closedAt.None?
  {
  }

  lemma RowKeepsUnique(db: Db, pid: int, p: Participant)
    requires Unique(db) && GoodRow(db, pid, p)
    ensures Unique(db.(participants := db.participants[pid := p]))
  {
    var rows := db.participants[pid := p];
    forall a, b | a in rows && b in rows && rows[a].eventId == rows[b].eventId && rows[a].callsign == rows[b].callsign
      ensures a == b
    {
      if a == pid && b != pid {
        assert IsParticipant(db, p.eventId, p.callsign, b);
      }
      if b == pid && a != pid {
        assert IsParticipant(db, p.eventId, p.callsign, a);
      }
    }
  }

  lemma OnlyOne(db: Db, pid: int)
    requires Consistent(db) && pid in db.participants
    ensures ParticipantOk(db, pid)
    ensures forall q :: IsParticipant(db, db.participants[pid].eventId, db.participants[pid].callsign, q) ==> q == pid
  {
  }

  lemma StrangerHasNoStatus(db: Db, e: int, callsign: string)
    requires Consistent(db) && e in db.events && Find(db, e, callsign).None?
    ensures LastStatus(db.events[e].log, callsign).None?
  {
  }

  lemma NextParticipant(db: Db)
    requires Consistent(db)
    ensures db.nextParticipant !in db.participants
    ensures forall p :: p in db.participants ==> p < db.nextParticipant
  {
    forall p | p in db.participants
      ensures p < db.nextParticipant
    {
      assert ParticipantOk(db, p);
    }
  }

  lemma CheckInKeeps(db: Db, e: int, callsign: string, post: Option<int>, now: int)
    requires Consistent(db)
    ensures Consistent(CheckedInTo(db, e, callsign, post, now).db)
  {
    hide Consistent, LastStatus;
    var o := CheckedInTo(db, e, callsign, post, now);
    if o.result.Ok? {
      NextParticipant(db);
      match Find(db, e, callsign) {
        case Some(pid) =>
          OnlyOne(db, pid);
          StatusLoggedKeeps(db, pid, BackAgain(db.participants[pid], post, now), now, db.nextParticipant);
        case None =>
          StrangerHasNoStatus(db, e, callsign);
          StatusLoggedKeeps(db, db.nextParticipant, Participant(e, callsign, post, CheckedIn, now, None), now,
                            db.nextParticipant + 1);
      }
    }
  }

  /** Writing a row that keeps its status, with a plain entry. */
  lemma NotedKeeps(db: Db, pid: int, p: Participant, now: int)
    requires Consistent(db) && pid in db.participants && GoodRow(db, pid, p)
    requires p.status == db.participants[pid].status && db.events[p.eventId].status.Active?
    ensures Consistent(Noted(db, pid, p, now))
  {
    hide EventOk;
    var e := p.eventId;
    var x := LogEntry(db.events[e].logSeq + 1, System, Some(p.callsign), None, false, now);
    PlainEntryKeepsStatuses(db.events[e].log, x);
    ActiveIsOpen(db.events[e]);
    LoggedOk(db.events[e], System, Some(p.callsign), None, false, now);
    RowKeeps(db, pid, p);
    StoreKeeps(db.(participants := db.participants[pid := p]), e,
               SystemEntry(db.events[e], Some(p.callsign), None, now), now);
  }

  lemma RowKeeps(db: Db, pid: int, p: Participant)
    requires Consistent(db) && pid in db.participants && GoodRow(db, pid, p) && p.status == db.participants[pid].status
    ensures Consistent(db.(participants := db.participants[pid := p]))
  {
    hide EventOk;
    var db' := db.(participants := db.participants[pid := p]);
    assert ParticipantOk(db, pid);
    forall q | q in db'.participants
      ensures ParticipantOk(db', q)
    {
      assert ParticipantOk(db, q);
    }
    forall y, c | y in db'.events && LastStatus(db'.events[y].log, c).Some?
      ensures exists q :: IsParticipant(db', y, c, q)
    {
      var q :| IsParticipant(db, y, c, q);
      assert IsParticipant(db', y, c, q);
    }
    RowKeepsUnique(db, pid, p);
  }

  /** The participant a PATCH works on. */
  ghost predicate Patchable(db: Db, e: int, pid: int, now: int)
  {
    && Consistent(db) && HasStatus(db, e, Active)
    && pid in db.participants && db.participants[pid].eventId == e
  }

  lemma StatusPatchedKeeps(db: Db, e: int, pid: int, change: StatusChange, now: int)
    requires Patchable(db, e, pid, now)
    requires change.SetStatus? ==>
      change.status == db.participants[pid].status || Transition(db.participants[pid].status, change.status)
    ensures Patchable(StatusPatched(db, pid, change, now), e, pid, now)
    ensures StatusPatched(db, pid, change, now).posts == db.posts
  {
    hide Consistent, LastStatus;
    OnlyOne(db, pid);
    NextParticipant(db);
    if change.SetStatus? && change.status != db.participants[pid].status {
      StatusLoggedKeeps(db, pid, WithStatus(db.participants[pid], change.status, now), now, db.nextParticipant);
    }
  }

  lemma PostPatchedKeeps(db: Db, e: int, pid: int, change: PostChange, now: int)
    requires Patchable(db, e, pid, now) && (change.Assign? ==> PostIn(db, e, change.post))
    ensures Patchable(PostPatched(db, pid, change, now), e, pid, now)
  {
    hide Consistent, LastStatus;
    OnlyOne(db, pid);
    match change {
      case SamePost =>
      case Unassign => NotedKeeps(db, pid, db.participants[pid].(postId := None), now);
      case Assign(post) => NotedKeeps(db, pid, db.participants[pid].(postId := Some(post)), now);
    }
  }

  lemma LocationKeeps(db: Db, e: int, pid: int, now: int)
    requires Patchable(db, e, pid, now)
    ensures Patchable(Noted(db, pid, db.participants[pid], now), e, pid, now)
  {
    hide Consistent, LastStatus;
    OnlyOne(db, pid);
    NotedKeeps(db, pid, db.participants[pid], now);
  }

  lemma ClockKeeps(db: Db, now: int)
    requires Consistent(db)
    ensures Consistent(db.(clock := now))
  {
    hide Consistent;
    PostTable(db);
    PostsKeep(db, db.(clock := now));
  }

  lemma UpdatedParticipantKeeps(db: Db, e: int, pid: int, status: StatusChange, post: PostChange, location: bool,
                                now: int)
    requires Consistent(db)
    ensures Consistent(UpdatedParticipant(db, e, pid, status, post, location, now).db)
  {
    hide Consistent, StatusPatched, PostPatched, Noted;
    var o := UpdatedParticipant(db, e, pid, status, post, location, now);
    if o.result.Ok? {
      StatusPatchedKeeps(db, e, pid, status, now);
      var db1 := StatusPatched(db, pid, status, now);
      PostPatchedKeeps(db1, e, pid, post, now);
      var db2 := PostPatched(db1, pid, post, now);
      if location {
        LocationKeeps(db2, e, pid, now);
        ClockKeeps(Noted(db2, pid, db2.participants[pid], now), now);
      } else {
        ClockKeeps(db2, now);
      }
    }
  }

  // ---------------------------------------------------------------------------
  // Notes, pins and messages

  lemma NoteKeeps(db: Db, e: int, callsign: Option<string>, pinned: bool, now: int)
    requires Consistent(db)
    ensures Consistent(NoteAdded(db, e, callsign, pinned, now).db)
  {
    hide EventOk, Consistent, SameStatuses;
    if HasStatus(db, e, Active) {
      var ev := db.events[e];
      OneEventOk(db, e);
      ActiveIsOpen(ev);
      var entryType := if callsign.Some? && callsign.value != "" then ParticipantNote else Note;
      LoggedOk(ev, entryType, callsign, None, pinned, now);
      PlainEntryKeepsStatuses(ev.log, LogEntry(ev.logSeq + 1, entryType, callsign, None, pinned, now));
      StoreKeeps(db, e, Logged(ev, entryType, callsign, None, pinned, now), now);
    }
  }

  lemma {:induction false} PinKeepsStatus(log: seq<LogEntry>, k: nat, pinned: bool, c: string)
    requires k < |log|
    ensures LastStatus(log[k := log[k].(pinned := pinned)], c) == LastStatus(log, c)
    decreases |log|
  {
    var t := log[k := log[k].(pinned := pinned)];
    if k < |log| - 1 {
      PinKeepsStatus(log[..|log| - 1], k, pinned, c);
      assert t[..|log| - 1] == log[..|log| - 1][k := log[k].(pinned := pinned)];
    } else {
      assert t[..|log| - 1] == log[..|log| - 1];
    }
  }

  lemma PinnedOk(ev: Event, seqNo: nat, pinned: bool)
    requires EventOk(ev) && 1 <= seqNo <= |ev.log|
    ensures EventOk(Pinned(ev, seqNo, pinned))
    ensures SameStatuses(ev.log, Pinned(ev, seqNo, pinned).log)
  {
    hide MayFollow, LastStatus;
    var k := seqNo - 1;
    var t := Pinned(ev, seqNo, pinned).log;
    forall c
      ensures LastStatus(ev.log, c) == LastStatus(t, c)
    {
      PinKeepsStatus(ev.log, k, pinned, c);
    }
    forall i | 0 <= i < |t|
      ensures LegalEntry(t, i)
    {
      assert LegalEntry(ev.log, i);
      if k < i && t[i].callsign.Some? {
        PinKeepsStatus(ev.log[..i], k, pinned, t[i].callsign.value);
        assert t[..i] == ev.log[..i][k := ev.log[k].(pinned := pinned)];
      } else {
        assert t[..i] == if k < i then t[..i] else ev.log[..i];
      }
    }
  }

  lemma PinKeeps(db: Db, e: int, seqNo: nat, pinned: bool, now: int)
    requires Consistent(db)
    ensures Consistent(PinSet(db, e, seqNo, pinned, now).db)
  {
    hide EventOk, Consistent, SameStatuses, Pinned;
    if PinSet(db, e, seqNo, pinned, now).result.Ok? {
      OneEventOk(db, e);
      PinnedOk(db.events[e], seqNo, pinned);
      StoreKeeps(db, e, Pinned(db.events[e], seqNo, pinned), now);
    }
  }

  lemma MessageKeeps(db: Db, e: int, from: string, now: int)
    requires Consistent(db)
    ensures Consistent(MessageSent(db, e, from, now).db)
  {
    hide Consistent, LogOk;
    if HasStatus(db, e, Active) {
      OneEventOk(db, e);
      StoreKeeps(db, e, Sent(db.events[e], from), now);
    }
  }

  lemma RoutedOk(ev: Event, accept: Option<string>, m: Mail, rawIds: map<string, int>, p: Option<int>,
                 now: int)
    requires EventOk(ev) && !ev.status.Closed? && Takes(ev, accept, m, rawIds)
    ensures EventOk(Routed(ev, m, rawIds[m.messageId], p, now))
    ensures SameStatuses(ev.log, Routed(ev, m, rawIds[m.messageId], p, now).log)
  {
    hide LogOk, SameStatuses, MayFollow;
    var mid := ev.(msgSeq := ev.msgSeq + 1,
                   messages := ev.messages + [Message(ev.msgSeq + 1, Some(rawIds[m.messageId]), p, m.fromBase)]);
    LoggedOk(mid, System, Some(m.fromBase), None, false, now);
    PlainEntryKeepsStatuses(ev.log, LogEntry(ev.logSeq + 1, System, Some(m.fromBase), None, false, now));
  }

  lemma {:induction false} RoutedToOk(db: Db, e: int, accept: Option<string>, mail: seq<Mail>, rawIds: map<string, int>,
                                      now: int, n: nat)
    requires e in db.events && n <= |mail| && db.events[e].status.Active?
    requires EventOk(db.events[e])
    ensures EventOk(RoutedTo(db, e, accept, mail, rawIds, now, n))
    ensures SameStatuses(db.events[e].log, RoutedTo(db, e, accept, mail, rawIds, now, n).log)
    decreases n
  {
    hide EventOk, Routed;
    if n == 0 {
    } else {
      RoutedToOk(db, e, accept, mail, rawIds, now, n - 1);
      var ev := RoutedTo(db, e, accept, mail, rawIds, now, n - 1);
      if Takes(ev, accept, mail[n - 1], rawIds) {
        RoutedOk(ev, accept, mail[n - 1], rawIds, Find(db, e, mail[n - 1].fromBase), now);
      }
    }
  }

  lemma MailKeeps(db: Db, accepts: map<int, string>, mail: seq<Mail>, rawIds: map<string, int>,
                  reached: map<int, nat>, now: int)
    requires Consistent(db)
    ensures Consistent(MailRouted(db, accepts, mail, rawIds, reached, now))
  {
    hide EventOk, RoutedTo;
    var db' := MailRouted(db, accepts, mail, rawIds, reached, now);
    forall x | x in db'.events
      ensures EventOk(db'.events[x]) && SameStatuses(db.events[x].log, db'.events[x].log)
    {
      if db.events[x].status.Active? {
        RoutedToOk(db, x, Accept(accepts, x), mail, rawIds, now, Reached(reached, x, mail));
      }
    }
    forall p | p in db'.participants
      ensures ParticipantOk(db', p)
    {
      assert ParticipantOk(db, p);
      assert SameStatuses(db.events[db.participants[p].eventId].log, db'.events[db.participants[p].eventId].log);
    }
    forall y, c | y in db'.events && LastStatus(db'.events[y].log, c).Some?
      ensures exists q :: IsParticipant(db', y, c, q)
    {
      assert SameStatuses(db.events[y].log, db'.events[y].log);
      var q :| IsParticipant(db, y, c, q);
      assert IsParticipant(db', y, c, q);
    }
  }

  // ---------------------------------------------------------------------------
  // All operations

  lemma ApplyKeeps(db: Db, op: Op, now: int)
    requires Consistent(db)
    ensures Consistent(Apply(db, op, now).db)
    ensures !Apply(db, op, now).result.Ok? ==> Apply(db, op, now).db == db
  {
    hide Consistent, Find;
    match op {
      case CreateEvent => NewEventKeeps(db, now);
      case Activate(e) => LifecycleKeeps(db, e, now, now);
      case Close(e, at) => LifecycleKeeps(db, e, at, now);
      case Reopen(e) => LifecycleKeeps(db, e, now, now);
      case CreatePost(e, name) => CreatedPostKeeps(db, e, name, now);
      case UpdatePost(e, post, name) => UpdatedPostKeeps(db, e, post, name, now);
      case DeletePost(e, post) => DeletedPostKeeps(db, e, post, now);
      case CheckIn(e, callsign, at) => CheckInKeeps(db, e, callsign, at, now);
      case UpdateParticipant(e, p, status, post, location) =>
        UpdatedParticipantKeeps(db, e, p, status, post, location, now);
      case AddNote(e, about, pin) => NoteKeeps(db, e, about, pin, now);
      case SetPinned(e, entry, pin) => PinKeeps(db, e, entry, pin, now);
      case SendMessage(e, from) => MessageKeeps(db, e, from, now);
      case RouteMail(accepts, mail, rawIds, reached) => MailKeeps(db, accepts, mail, rawIds, reached, now);
    }
  }

  /** In every reachable state: `closed_at` is set exactly on closed events and `checked_out_at` exactly
      on checked-out participants; assigned posts exist in the same event; post names and callsigns are
      unique per event; log and message numbers are exactly 1, 2, 3, ...; and each participant's status
      is the last one logged for its callsign. */
  lemma {:induction false} ReachableIsConsistent(ops: seq<Timed>)
    ensures Consistent(After(ops))
    decreases |ops|
  {
    hide Consistent, Apply;
    if ops == [] {
      EmptyIsConsistent();
    } else {
      var init := ops[..|ops| - 1];
      ReachableIsConsistent(init);
      ApplyKeeps(After(init), ops[|ops| - 1].op, ops[|ops| - 1].now);
    }
  }

  lemma EmptyIsConsistent()
    ensures Consistent(EMPTY)
  {
  }
}
