/** What each accepted operation on an event leaves, field by field, and what was refused and why. */
module EventEffects {
  import opened PyText
  import opened Events
  import opened EventLaws

  /** One participant row was written and entries logged on its event; everything else is as it was. */
  ghost predicate Wrote(db: Db, db': Db, e: int, pid: int, row: Participant, entries: seq<LogEntry>)
  {
    && e in db.events && db'.posts == db.posts && db'.participants == db.participants[pid := row]
    && var ev := db.events[e];
       db'.events == db.events[e := ev.(log := ev.log + entries, logSeq := ev.logSeq + |entries|)]
  }

  // ---------------------------------------------------------------------------
  // Checking in

  /** No participant with the callsign, or one that has checked out. */
  ghost predicate MayCheckIn(db: Db, e: int, callsign: string)
  {
    forall p :: IsParticipant(db, e, callsign, p) ==> db.participants[p].status.CheckedOut?
  }

  /** What is refused, and how: the first of the reasons that applies. */
  lemma CheckInAnswers(db: Db, e: int, callsign: string, post: Option<int>, now: int)
    requires Consistent(db)
    ensures var r := Apply(db, CheckIn(e, callsign, post), now).result;
      var badPost := post.Some? && !PostIn(db, e, post.value);
      && (r == Ok <==> callsign != "" && HasStatus(db, e, Active) && !badPost && MayCheckIn(db, e, callsign))
      && (r == Refused(NotActive) <==> callsign != "" && !HasStatus(db, e, Active))
      && (r == Refused(InvalidPost) <==> callsign != "" && HasStatus(db, e, Active) && badPost)
      && (r == Ok || r == Refused(NotActive) || r == Refused(InvalidPost) || r == Refused(DuplicateParticipant))
  {
    hide Consistent, LastStatus, Logged;
    var found := Find(db, e, callsign);
    if found.Some? {
      OnlyOne(db, found.value);
    }
  }

  lemma RowWritten(db: Db, pid: int, p: Participant, now: int, next: int)
    requires p.eventId in db.events && db.events[p.eventId].logSeq == |db.events[p.eventId].log|
    requires forall q :: IsParticipant(db, p.eventId, p.callsign, q) ==> q == pid
    ensures var db' := StatusLogged(db, pid, p, now).(nextParticipant := next);
      && Wrote(db, db', p.eventId, pid, p,
               [LogEntry(|db.events[p.eventId].log| + 1, System, Some(p.callsign), Some(p.status), false, now)])
      && forall q :: IsParticipant(db', p.eventId, p.callsign, q) <==> q == pid
  {
    var db' := StatusLogged(db, pid, p, now).(nextParticipant := next);
    forall q | IsParticipant(db', p.eventId, p.callsign, q)
      ensures q == pid
    {
      if q != pid {
        assert IsParticipant(db, p.eventId, p.callsign, q);
      }
    }
  }

  /** After a check-in exactly one participant of the event has the callsign: checked in now, not checked out,
      at the post given, else at the one it had, else at none. Its entry is the last in the event's log; nothing
      else changes. */
  lemma CheckInLeaves(db: Db, e: int, callsign: string, post: Option<int>, now: int) returns (pid: int)
    requires Consistent(db) && Apply(db, CheckIn(e, callsign, post), now).result.Ok?
    ensures var db' := Apply(db, CheckIn(e, callsign, post), now).db;
      && pid in db'.participants && (forall p :: IsParticipant(db', e, callsign, p) <==> p == pid)
      && var row := db'.participants[pid];
      && row.status == CheckedIn && row.checkedInAt == now && row.checkedOutAt == None
      && row.postId == (if post.Some? then post
                        else if pid in db.participants then db.participants[pid].postId else None)
      && (pid in db.participants <==> exists p :: IsParticipant(db, e, callsign, p))
      && (pid in db.participants ==> IsParticipant(db, e, callsign, pid) && db.participants[pid].status.CheckedOut?)
      && Wrote(db, db', e, pid, row,
               [LogEntry(|db.events[e].log| + 1, System, Some(callsign), Some(CheckedIn), false, now)])
  {
    hide Consistent, LastStatus;
    OneEventOk(db, e);
    NextParticipant(db);
    match Find(db, e, callsign) {
      case Some(p) =>
        OnlyOne(db, p);
        pid := p;
        RowWritten(db, pid, BackAgain(db.participants[p], post, now), now, db.nextParticipant);
      case None =>
        pid := db.nextParticipant;
        RowWritten(db, pid, Participant(e, callsign, post, CheckedIn, now, None), now, pid + 1);
    }
  }

  // ---------------------------------------------------------------------------
  // Changing a participant

  predicate MayPatch(db: Db, e: int, pid: int, status: StatusChange, post: PostChange)
    requires pid in db.participants
  {
    var now := db.participants[pid].status;
    && !status.NullStatus? && (post.Assign? ==> PostIn(db, e, post.post))
    && (status.SetStatus? && now.CheckedOut? ==> status.status.CheckedOut? || status.status.CheckedIn?)
  }

  lemma PatchAnswers(db: Db, e: int, pid: int, status: StatusChange, post: PostChange, location: bool, now: int)
    ensures var r := Apply(db, UpdateParticipant(e, pid, status, post, location), now).result;
      && (r == Ok <==>
            && HasStatus(db, e, Active) && pid in db.participants && db.participants[pid].eventId == e
            && MayPatch(db, e, pid, status, post))
      && (r == Refused(NotActive) <==> e in db.events && !HasStatus(db, e, Active))
      && (r == Missing <==>
            e !in db.events
            || (HasStatus(db, e, Active) && !(pid in db.participants && db.participants[pid].eventId == e)))
      && (r == Refused(InvalidPost) ==> post.Assign? && !PostIn(db, e, post.post))
      && (r == Refused(InvalidTransition) ==> !MayPatch(db, e, pid, status, SamePost))
  {
    hide StatusPatched, PostPatched, Noted;
  }

  function StatusEntry(row: Participant, status: StatusChange, from: nat, now: int): seq<LogEntry>
  {
    if status.SetStatus? && status.status != row.status
    then [LogEntry(from + 1, System, Some(row.callsign), Some(status.status), false, now)] else []
  }

  function PlainEntry(row: Participant, given: bool, from: nat, now: int): seq<LogEntry>
  {
    if given then [LogEntry(from + 1, System, Some(row.callsign), None, false, now)] else []
  }

  /** What a PATCH of one participant writes to the log. */
  function PatchEntries(row: Participant, status: StatusChange, post: PostChange, location: bool, from: nat, now: int)
    : seq<LogEntry>
  {
    var one := StatusEntry(row, status, from, now);
    var two := one + PlainEntry(row, !post.SamePost?, from + |one|, now);
    two + PlainEntry(row, location, from + |two|, now)
  }

  lemma WroteMore(db: Db, db1: Db, db2: Db, e: int, pid: int, a: Participant, b: Participant, first: seq<LogEntry>,
                  next: seq<LogEntry>)
    requires Wrote(db, db1, e, pid, a, first) && Wrote(db1, db2, e, pid, b, next)
    ensures Wrote(db, db2, e, pid, b, first + next)
  {
    assert db.events[e].log + first + next == db.events[e].log + (first + next);
  }

  lemma WroteNothing(db: Db, e: int, pid: int)
    requires e in db.events && pid in db.participants
    ensures Wrote(db, db, e, pid, db.participants[pid], [])
  {
    var ev := db.events[e];
    assert ev.log + [] == ev.log;
  }

  lemma WroteRow(db: Db, db': Db, e: int, pid: int, row: Participant, entries: seq<LogEntry>)
    requires Wrote(db, db', e, pid, row, entries)
    ensures pid in db'.participants && db'.participants[pid] == row && e in db'.events
    ensures db'.events[e].logSeq == db.events[e].logSeq + |entries|
  {
  }

  /** The status after a PATCH of it, with its dates. */
  predicate Dated(was: Participant, row: Participant, status: StatusChange, now: int)
  {
    && row.status == (if status.SetStatus? then status.status else was.status)
    && row.checkedInAt == (if was.status.CheckedOut? && !row.status.CheckedOut? then now else was.checkedInAt)
    && row.checkedOutAt == (if !row.status.CheckedOut? then None
                            else if was.status.CheckedOut? then was.checkedOutAt else Some(now))
  }

  lemma StatusLeaves(db: Db, pid: int, status: StatusChange, now: int)
    requires pid in db.participants && db.participants[pid].eventId in db.events
    requires db.participants[pid].checkedOutAt.Some? <==> db.participants[pid].status.CheckedOut?
    requires status.SetStatus? && db.participants[pid].status.CheckedOut? ==>
      status.status.CheckedOut? || status.status.CheckedIn?
    ensures var db', was := StatusPatched(db, pid, status, now), db.participants[pid];
      && pid in db'.participants && var row := db'.participants[pid];
      && Dated(was, row, status, now) && row.eventId == was.eventId && row.callsign == was.callsign
      && row.postId == was.postId
      && Wrote(db, db', was.eventId, pid, row, StatusEntry(was, status, db.events[was.eventId].logSeq, now))
  {
    if !(status.SetStatus? && status.status != db.participants[pid].status) {
      WroteNothing(db, db.participants[pid].eventId, pid);
    }
  }

  lemma NotedLeaves(db: Db, pid: int, p: Participant, now: int)
    requires pid in db.participants && p.eventId in db.events
    ensures Wrote(db, Noted(db, pid, p, now), p.eventId, pid, p, PlainEntry(p, true, db.events[p.eventId].logSeq, now))
  {
  }

  lemma PostLeaves(db: Db, pid: int, post: PostChange, now: int)
    requires pid in db.participants && db.participants[pid].eventId in db.events
    ensures var db', was := PostPatched(db, pid, post, now), db.participants[pid];
      && pid in db'.participants && var row := db'.participants[pid];
      && row == was.(postId := match post case SamePost => was.postId case Unassign => None case Assign(p) => Some(p))
      && Wrote(db, db', was.eventId, pid, row,
               PlainEntry(was, !post.SamePost?, db.events[was.eventId].logSeq, now))
  {
    hide Wrote, Noted;
    var was := db.participants[pid];
    var row := was.(postId := match post case SamePost => was.postId case Unassign => None case Assign(p) => Some(p));
    if post.SamePost? {
      WroteNothing(db, was.eventId, pid);
    } else {
      NotedLeaves(db, pid, row, now);
      WroteRow(db, Noted(db, pid, row, now), was.eventId, pid, row,
               PlainEntry(row, true, db.events[was.eventId].logSeq, now));
    }
  }

  /** After a PATCH the participant has the status and the post asked for, or those it had; it has a new date of
      leaving exactly when it was not gone before and a new date of arrival exactly when it was; every part that
      was given is logged, nothing else changes. */
  lemma PatchLeaves(db: Db, e: int, pid: int, status: StatusChange, post: PostChange, location: bool, now: int)
    requires Consistent(db) && Apply(db, UpdateParticipant(e, pid, status, post, location), now).result.Ok?
    ensures var db' := Apply(db, UpdateParticipant(e, pid, status, post, location), now).db;
      && pid in db.participants && pid in db'.participants
      && var was, row := db.participants[pid], db'.participants[pid];
      && row.eventId == was.eventId == e && row.callsign == was.callsign && Dated(was, row, status, now)
      && row.postId == (match post case SamePost => was.postId case Unassign => None case Assign(p) => Some(p))
      && Wrote(db, db', e, pid, row, PatchEntries(was, status, post, location, |db.events[e].log|, now))
  {
    hide Consistent, LastStatus, Wrote, StatusPatched, PostPatched, Noted, Dated, StatusEntry, PlainEntry;
    OneEventOk(db, e);
    OnlyOne(db, pid);
    var was := db.participants[pid];
    StatusLeaves(db, pid, status, now);
    var db1 := StatusPatched(db, pid, status, now);
    var one := StatusEntry(was, status, db.events[e].logSeq, now);
    WroteRow(db, db1, e, pid, db1.participants[pid], one);
    PostLeaves(db1, pid, post, now);
    var db2 := PostPatched(db1, pid, post, now);
    var two := PlainEntry(db1.participants[pid], !post.SamePost?, db1.events[e].logSeq, now);
    WroteRow(db1, db2, e, pid, db2.participants[pid], two);
    WroteMore(db, db1, db2, e, pid, db1.participants[pid], db2.participants[pid], one, two);
    assert Dated(was, db2.participants[pid], status, now) by { SameDates(was, db1, db2, pid, status, now); }
    SameCallsign(was, db1.participants[pid], db2.participants[pid]);
    assert db1.events[e].logSeq == |db.events[e].log| + |one|;
    if location {
      var db3 := Noted(db2, pid, db2.participants[pid], now);
      var three := PlainEntry(db2.participants[pid], true, db2.events[e].logSeq, now);
      NotedLeaves(db2, pid, db2.participants[pid], now);
      WroteMore(db, db2, db3, e, pid, db2.participants[pid], db2.participants[pid], one + two, three);
      ClockWrote(db, db3, e, pid, db2.participants[pid], one + two + three, now);
      WroteRow(db2, db3, e, pid, db2.participants[pid], three);
    } else {
      assert PatchEntries(was, status, post, location, |db.events[e].log|, now) == one + two + [] by {
        NoEntry(was, |db.events[e].log| + |one + two|, now);
      }
      assert one + two == one + two + [];
      ClockWrote(db, db2, e, pid, db2.participants[pid], one + two, now);
    }
  }

  lemma SameDates(was: Participant, db1: Db, db2: Db, pid: int, status: StatusChange, now: int)
    requires pid in db1.participants && pid in db2.participants && Dated(was, db1.participants[pid], status, now)
    requires db2.participants[pid] == db1.participants[pid].(postId := db2.participants[pid].postId)
    ensures Dated(was, db2.participants[pid], status, now)
  {
  }

  lemma NoEntry(row: Participant, from: nat, now: int)
    ensures PlainEntry(row, false, from, now) == []
  {
  }

  lemma ClockWrote(db: Db, db': Db, e: int, pid: int, row: Participant, entries: seq<LogEntry>, now: int)
    requires Wrote(db, db', e, pid, row, entries)
    ensures Wrote(db, db'.(clock := now), e, pid, row, entries)
  {
  }

  lemma SameCallsign(a: Participant, b: Participant, c: Participant)
    requires a.callsign == b.callsign == c.callsign
    ensures forall g: bool, from: nat, now: int ::
      PlainEntry(a, g, from, now) == PlainEntry(b, g, from, now) == PlainEntry(c, g, from, now)
  {
  }
}
