/** The event service as it runs: each method is one transaction that updates the tables row by row and
    undoes what it did when it has to refuse. */
module EventStore {
  import opened PyText
  import opened Events
  import opened EventLaws

  class Store {
    var events: map<int, Event>
    var posts: map<int, Post>
    var participants: map<int, Participant>
    var nextEvent: int
    var nextPost: int
    var nextParticipant: int
    var clock: int

    ghost function State(): Db
      reads this
    {
      Db(events, posts, participants, nextEvent, nextPost, nextParticipant, clock)
    }

    constructor ()
      ensures State() == EMPTY
    {
      events, posts, participants := map[], map[], map[];
      nextEvent, nextPost, nextParticipant, clock := 1, 1, 1, 0;
    }

    /** Appends an entry with the next number. */
    method AddLogEntry(e: int, entryType: EntryType, callsign: Option<string>, newStatus: Option<ParticipantStatus>,
                       pinned: bool, now: int)
      requires e in events
      modifies this`events
      ensures events == old(events)[e := Logged(old(events)[e], entryType, callsign, newStatus, pinned, now)]
    {
      var ev := events[e];
      ev := ev.(logSeq := ev.logSeq + 1);
      ev := ev.(log := ev.log + [LogEntry(ev.logSeq, entryType, callsign, newStatus, pinned, now)]);
      events := events[e := ev];
    }

    method CreateEvent(now: int) returns (r: Result)
      modifies this
      ensures Outcome(State(), r) == CreatedEvent(old(State()), now)
    {
      events, nextEvent, clock := events[nextEvent := NEW_EVENT], nextEvent + 1, now;
      r := Ok;
    }

    method ActivateEvent(e: int, now: int) returns (r: Result)
      modifies this
      ensures Outcome(State(), r) == Activated(old(State()), e, now)
    {
      if e !in events || events[e].status != Draft {
        return Refused(InvalidLifecycle);
      }
      ghost var was := events;
      events := events[e := events[e].(status := Active)];
      AddLogEntry(e, System, None, None, false, now);
      clock := now;
      assert events == was[e := events[e]];
      r := Ok;
    }

    method CloseEvent(e: int, at: int, now: int) returns (r: Result)
      modifies this
      ensures Outcome(State(), r) == ClosedEvent(old(State()), e, at, now)
    {
      if e !in events || events[e].status != Active {
        return Refused(InvalidLifecycle);
      }
      ghost var was := events;
      AddLogEntry(e, System, None, None, false, now);
      events := events[e := events[e].(status := Closed, closedAt := Some(at))];
      clock := now;
      assert events == was[e := events[e]];
      r := Ok;
    }

    method ReopenEvent(e: int, now: int) returns (r: Result)
      modifies this
      ensures Outcome(State(), r) == Reopened(old(State()), e, now)
    {
      if e !in events || events[e].status != Closed {
        return Refused(InvalidLifecycle);
      }
      ghost var was := events;
      events := events[e := events[e].(status := Active, closedAt := None)];
      AddLogEntry(e, System, None, None, false, now);
      clock := now;
      assert events == was[e := events[e]];
      r := Ok;
    }

    method PostNameTaken(e: int, name: string, except: Option<int>) returns (taken: bool)
      ensures taken <==> NameTaken(State(), e, name, except)
    {
      taken := false;
      var left := posts.Keys;
      while left != {}
        invariant left <= posts.Keys
        invariant taken <==> exists p :: p in posts && p !in left && posts[p] == Post(e, name) && except != Some(p)
        decreases |left|
      {
        NotEmpty(left);
        var p :| p in left;
        if posts[p].eventId == e && posts[p].name == name && except != Some(p) {
          taken := true;
        }
        left := left - {p};
      }
    }

    method CreatePost(e: int, name: string, now: int) returns (r: Result)
      modifies this
      ensures Outcome(State(), r) == CreatedPost(old(State()), e, name, now)
    {
      hide NameTaken;
      if e !in events || events[e].status == Closed {
        return Refused(NotActive);
      }
      var taken := PostNameTaken(e, name, None);
      if taken {
        return Refused(DuplicatePost);
      }
      posts, nextPost, clock := posts[nextPost := Post(e, name)], nextPost + 1, now;
      r := Ok;
    }

    method UpdatePost(e: int, post: int, name: Option<string>, now: int) returns (r: Result)
      modifies this
      ensures Outcome(State(), r) == UpdatedPost(old(State()), e, post, name, now)
    {
      hide NameTaken;
      if e !in events || events[e].status == Closed {
        return Refused(NotActive);
      }
      if post !in posts || posts[post].eventId != e {
        return Missing;
      }
      if name.Some? {
        var taken := PostNameTaken(e, name.value, Some(post));
        if taken {
          return Refused(DuplicatePost);
        }
        posts := posts[post := posts[post].(name := name.value)];
      }
      clock := now;
      r := Ok;
    }

    method DeletePost(e: int, post: int, now: int) returns (r: Result)
      modifies this
      ensures Outcome(State(), r) == DeletedPost(old(State()), e, post, now)
    {
      if e !in events || events[e].status == Closed {
        return Refused(NotActive);
      }
      if post !in posts || posts[post].eventId != e {
        return Missing;
      }
      if exists p :: p in participants && participants[p].postId == Some(post) {
        return Refused(PostAssigned);
      }
      posts, clock := posts - {post}, now;
      r := Ok;
    }

    /** The participant as of `db`, whose rows are the current ones. */
    method FindParticipant(ghost db: Db, e: int, callsign: string) returns (p: Option<int>)
      requires Consistent(db) && db.participants == participants
      ensures p == Find(db, e, callsign)
    {
      p := None;
      var left := participants.Keys;
      while left != {}
        invariant left <= participants.Keys
        invariant p.Some? ==> IsParticipant(db, e, callsign, p.value)
        invariant p.None? ==> forall q :: q in participants && q !in left ==> !IsParticipant(db, e, callsign, q)
        decreases |left|
      {
        NotEmpty(left);
        var q :| q in left;
        if participants[q].eventId == e && participants[q].callsign == callsign {
          p := Some(q);
        }
        left := left - {q};
      }
    }

    /** `callsign` is trimmed and in upper case. */
    method CheckIn(e: int, callsign: string, post: Option<int>, now: int) returns (r: Result)
      requires Consistent(State())
      modifies this
      ensures Outcome(State(), r) == CheckedInTo(old(State()), e, callsign, post, now)
    {
      hide Consistent, Find, Logged;
      if callsign == "" {
        return Refused(DuplicateParticipant);
      }
      if e !in events || events[e].status != Active {
        return Refused(NotActive);
      }
      if post.Some? && (post.value !in posts || posts[post.value].eventId != e) {
        return Refused(InvalidPost);
      }
      var existing := FindParticipant(State(), e, callsign);
      if existing.Some? {
        var row := participants[existing.value];
        if row.status != CheckedOut {
          return Refused(DuplicateParticipant);
        }
        row := row.(status := CheckedIn, checkedInAt := now, checkedOutAt := None);
        if post.Some? {
          row := row.(postId := post);
        }
        participants := participants[existing.value := row];
      } else {
        participants := participants[nextParticipant := Participant(e, callsign, post, CheckedIn, now, None)];
        nextParticipant := nextParticipant + 1;
      }
      AddLogEntry(e, System, Some(callsign), Some(CheckedIn), false, now);
      clock := now;
      r := Ok;
    }

    /** The status part of a PATCH: False when the transition is not allowed. */
    method PatchStatus(pid: int, s: ParticipantStatus, now: int) returns (allowed: bool)
      requires pid in participants && participants[pid].eventId in events
      modifies this`participants, this`events, this`clock
      ensures allowed <==> s == old(participants)[pid].status || Transition(old(participants)[pid].status, s)
      ensures State() == if allowed then StatusPatched(old(State()), pid, SetStatus(s), now) else old(State())
    {
      hide Logged;
      var row := participants[pid];
      if s == row.status {
        return true;
      }
      if row.status == CheckedOut && s != CheckedIn {
        return false;
      }
      row := row.(status := s);
      if s == CheckedOut {
        row := row.(checkedOutAt := Some(now));
      } else if s == CheckedIn && row.checkedOutAt.Some? {
        row := row.(checkedInAt := now, checkedOutAt := None);
      }
      participants := participants[pid := row];
      AddLogEntry(row.eventId, System, Some(row.callsign), Some(s), false, now);
      clock := now;
      allowed := true;
    }

    /** The post part of a PATCH: False when the post is not the event's. */
    method PatchPost(pid: int, change: PostChange, now: int) returns (valid: bool)
      requires pid in participants && participants[pid].eventId in events
      modifies this`participants, this`events, this`clock
      ensures valid <==> (change.Assign? ==> PostIn(old(State()), old(participants)[pid].eventId, change.post))
      ensures State() == if valid then PostPatched(old(State()), pid, change, now) else old(State())
    {
      hide Logged;
      var row := participants[pid];
      match change {
        case SamePost => return true;
        case Unassign => row := row.(postId := None);
        case Assign(post) =>
          if post !in posts || posts[post].eventId != row.eventId {
            return false;
          }
          row := row.(postId := Some(post));
      }
      participants := participants[pid := row];
      AddLogEntry(row.eventId, System, Some(row.callsign), None, false, now);
      clock := now;
      valid := true;
    }

    method UpdateParticipant(e: int, pid: int, status: StatusChange, post: PostChange, location: bool, now: int)
        returns (r: Result)
      modifies this
      ensures Outcome(State(), r) == UpdatedParticipant(old(State()), e, pid, status, post, location, now)
    {
      hide StatusPatched, PostPatched, Logged;
      if e !in events {
        return Missing;
      }
      if events[e].status != Active {
        return Refused(NotActive);
      }
      if pid !in participants || participants[pid].eventId != e {
        return Missing;
      }
      if status.NullStatus? {
        return Refused(InvalidTransition);
      }
      var oldEvents, oldParticipants, oldClock := events, participants, clock;
      if status.SetStatus? {
        var allowed := PatchStatus(pid, status.status, now);
        if !allowed {
          return Refused(InvalidTransition);
        }
      } else {
        NoStatusPatch(State(), pid, status, now);
      }
      StatusPatchSame(old(State()), pid, status, now);
      var valid := PatchPost(pid, post, now);
      if !valid {
        // the session rolls back what the status part wrote
        events, participants, clock := oldEvents, oldParticipants, oldClock;
        return Refused(InvalidPost);
      }
      ghost var db2 := State();
      PostPatchSame(StatusPatched(old(State()), pid, status, now), pid, post, now);
      if location {
        AddLogEntry(e, System, Some(participants[pid].callsign), None, false, now);
        assert participants == participants[pid := participants[pid]];
      }
      clock := now;
      r := Ok;
    }

    method AddNote(e: int, callsign: Option<string>, pinned: bool, now: int) returns (r: Result)
      modifies this
      ensures Outcome(State(), r) == NoteAdded(old(State()), e, callsign, pinned, now)
    {
      hide Logged;
      if e !in events || events[e].status != Active {
        return Refused(NotActive);
      }
      var entryType := if callsign.Some? && callsign.value != "" then ParticipantNote else Note;
      AddLogEntry(e, entryType, callsign, None, pinned, now);
      clock := now;
      r := Ok;
    }

    method SetLogPinned(e: int, seqNo: nat, pinned: bool, now: int) returns (r: Result)
      modifies this
      ensures Outcome(State(), r) == PinSet(old(State()), e, seqNo, pinned, now)
    {
      if e !in events || events[e].status == Closed {
        return Refused(NotActive);
      }
      var ev := events[e];
      if seqNo < 1 || seqNo > |ev.log| {
        return Missing;
      }
      events := events[e := ev.(log := ev.log[seqNo - 1 := ev.log[seqNo - 1].(pinned := pinned)])];
      clock := now;
      r := Ok;
    }

    method SendMessage(e: int, from: string, now: int) returns (r: Result)
      modifies this
      ensures Outcome(State(), r) == MessageSent(old(State()), e, from, now)
    {
      if e !in events || events[e].status != Active {
        return Refused(NotActive);
      }
      var ev := events[e];
      ev := ev.(msgSeq := ev.msgSeq + 1);
      ev := ev.(messages := ev.messages + [Message(ev.msgSeq, None, None, from)]);
      events := events[e := ev];
      clock := now;
      r := Ok;
    }

    /** Routes the first `upto` messages to one active event, one after the other; `db` is the state when
        routing began. */
    method RouteTo(ghost db: Db, e: int, accept: Option<string>, mail: seq<Mail>, rawIds: map<string, int>, now: int,
                   upto: nat) returns (created: nat)
      requires upto <= |mail|
      requires Consistent(db) && e in db.events && db.participants == participants
      requires e in events && events[e] == db.events[e]
      modifies this`events
      ensures events == old(events)[e := RoutedTo(db, e, accept, mail, rawIds, now, upto)]
      ensures created == |events[e].messages| - |db.events[e].messages|
    {
      hide Logged, AlreadyRouted, Consistent, Find;
      created := 0;
      ghost var was := events;
      assert events == events[e := events[e]];
      for i := 0 to upto
        invariant events == was[e := RoutedTo(db, e, accept, mail, rawIds, now, i)]
        invariant created == |events[e].messages| - |db.events[e].messages|
      {
        var m := mail[i];
        if accept.Some? && m.toBase != accept.value {
          continue;
        }
        if m.messageId !in rawIds {
          continue;
        }
        var rawId := rawIds[m.messageId];
        var known := HasRaw(events[e], rawId);
        if known {
          continue;
        }
        var participant := FindParticipant(db, e, m.fromBase);
        var ev := events[e];
        ev := ev.(msgSeq := ev.msgSeq + 1);
        ev := ev.(messages := ev.messages + [Message(ev.msgSeq, Some(rawId), participant, m.fromBase)]);
        events := events[e := ev];
        LoggedMessages(ev, m.fromBase, now);
        AddLogEntry(e, System, Some(m.fromBase), None, false, now);
        created := created + 1;
      }
    }

    /** The active events, each once. */
    method ActiveEvents() returns (ids: seq<int>)
      ensures Enumerates(ids, State())
    {
      ids := [];
      var left := events.Keys;
      while left != {}
        invariant left <= events.Keys
        invariant forall e :: e in ids <==> e in events && e !in left && events[e].status == Active
        invariant forall i, j :: 0 <= i < j < |ids| ==> ids[i] != ids[j]
        decreases |left|
      {
        NotEmpty(left);
        var e :| e in left;
        if events[e].status == Active {
          ids := ids + [e];
        }
        left := left - {e};
      }
    }

    /** A pass over the mail, committed message by message. `breaksAt` is where it breaks, if it does: after
        so many events and so many messages of the next. Also the number of messages created, over the events
        in the order they were served. */
    method RouteEventMessages(accepts: map<int, string>, mail: seq<Mail>, rawIds: map<string, int>, now: int,
                              breaksAt: Option<(nat, nat)>)
        returns (created: nat, ghost served: seq<int>)
      requires Consistent(State())
      modifies this
      ensures State() == MailRouted(old(State()), accepts, mail, rawIds, Served(served, breaksAt, mail), now)
      ensures Enumerates(served, old(State())) && created == NewMessages(old(events), events, served)
    {
      hide RoutedTo, Consistent, NewMessages, Served, Reached;
      created := 0;
      ghost var db := State();
      var ids := ActiveEvents();
      served := ids;
      ghost var reached := Served(ids, breaksAt, mail);
      NothingNew(db.events, ids);
      forall j | 0 <= j < |ids|
        ensures ids[j] in db.events && db.events[ids[j]].status.Active?
      {
        assert ids[j] in ids;
      }
      for i := 0 to |ids|
        invariant State() == db.(events := events) && events.Keys == db.events.Keys
        invariant forall j :: 0 <= j < |ids| ==> ids[j] in db.events && db.events[ids[j]].status.Active?
        invariant forall j :: i <= j < |ids| ==> events[ids[j]] == db.events[ids[j]]
        invariant forall e :: e in events && e !in ids ==> events[e] == db.events[e]
        invariant forall j :: 0 <= j < i ==>
          events[ids[j]]
          == RoutedTo(db, ids[j], Accept(accepts, ids[j]), mail, rawIds, now, Reached(reached, ids[j], mail))
        invariant created == NewMessages(db.events, events, ids[..i])
      {
        var e := ids[i];
        ghost var was := events;
        ServedUpto(ids, breaksAt, mail, i);
        var n := RouteTo(db, e, Accept(accepts, e), mail, rawIds, now, Upto(breaksAt, mail, i));
        NewMessagesOfOthers(db.events, was, events, ids, i);
        created := created + n;
      }
      clock := now;
      assert ids[..|ids|] == ids;
      MailRoutedTo(db, events, accepts, mail, rawIds, reached, now);
    }
  }

  /** How many messages the i-th event gets before the pass breaks. */
  function Upto(breaksAt: Option<(nat, nat)>, mail: seq<Mail>, i: nat): (n: nat)
    ensures n <= |mail|
  {
    if breaksAt.None? || i < breaksAt.value.0 then |mail|
    else if i == breaksAt.value.0 && breaksAt.value.1 <= |mail| then breaksAt.value.1
    else 0
  }

  /** How far the pass got for each event; a pass that does not break reaches everything. */
  function Served(ids: seq<int>, breaksAt: Option<(nat, nat)>, mail: seq<Mail>): (r: map<int, nat>)
    ensures breaksAt.None? ==> r == map[]
  {
    if breaksAt.None? || ids == [] then map[]
    else Served(ids[..|ids| - 1], breaksAt, mail)[ids[|ids| - 1] := Upto(breaksAt, mail, |ids| - 1)]
  }

  lemma {:induction false} ServedUpto(ids: seq<int>, breaksAt: Option<(nat, nat)>, mail: seq<Mail>, i: nat)
    requires i < |ids| && forall j, k :: 0 <= j < k < |ids| ==> ids[j] != ids[k]
    ensures Reached(Served(ids, breaksAt, mail), ids[i], mail) == Upto(breaksAt, mail, i)
  {
    if breaksAt.Some? && i < |ids| - 1 {
      ServedUpto(ids[..|ids| - 1], breaksAt, mail, i);
    }
  }

  ghost predicate Enumerates(ids: seq<int>, db: Db)
  {
    && (forall e :: e in ids <==> e in db.events && db.events[e].status.Active?)
    && forall i, j :: 0 <= i < j < |ids| ==> ids[i] != ids[j]
  }

  function MessagesOf(events: map<int, Event>, e: int): int { if e in events then |events[e].messages| else 0 }

  /** How many messages the events have gained. */
  function NewMessages(was: map<int, Event>, events: map<int, Event>, ids: seq<int>): int
  {
    if ids == [] then 0
    else
      NewMessages(was, events, ids[..|ids| - 1])
      + MessagesOf(events, ids[|ids| - 1]) - MessagesOf(was, ids[|ids| - 1])
  }

  lemma NothingNew(events: map<int, Event>, ids: seq<int>)
    ensures NewMessages(events, events, ids[..0]) == 0
  {
  }

  lemma {:induction false} SameNewMessages(was: map<int, Event>, a: map<int, Event>, b: map<int, Event>, ids: seq<int>)
    requires forall e :: e in ids ==> MessagesOf(a, e) == MessagesOf(b, e)
    ensures NewMessages(was, a, ids) == NewMessages(was, b, ids)
  {
    hide MessagesOf;
    if ids != [] {
      assert ids == ids[..|ids| - 1] + [ids[|ids| - 1]];
      SameNewMessages(was, a, b, ids[..|ids| - 1]);
    }
  }

  /** Serving one event adds its messages and no others. */
  lemma NewMessagesOfOthers(db: map<int, Event>, was: map<int, Event>, events: map<int, Event>, ids: seq<int>, i: nat)
    requires i < |ids| && forall j, k :: 0 <= j < k < |ids| ==> ids[j] != ids[k]
    requires forall e :: e != ids[i] ==> MessagesOf(events, e) == MessagesOf(was, e)
    ensures NewMessages(db, events, ids[..i + 1])
         == NewMessages(db, was, ids[..i]) + MessagesOf(events, ids[i]) - MessagesOf(db, ids[i])
  {
    hide MessagesOf;
    assert ids[..i + 1][..i] == ids[..i];
    SameNewMessages(db, was, events, ids[..i]);
  }

  lemma Member<T>(s: set<T>) returns (x: T)
    requires s != {}
    ensures x in s
  {
    x :| x in s;
  }

  lemma NotEmpty(s: set<int>)
    requires s != {}
    ensures exists x :: x in s
  {
    var x := Member(s);
    assert x in s;
  }

  lemma MailRoutedTo(db: Db, events: map<int, Event>, accepts: map<int, string>, mail: seq<Mail>,
                     rawIds: map<string, int>, reached: map<int, nat>, now: int)
    requires Consistent(db) && events.Keys == db.events.Keys
    requires forall e :: e in events ==>
      events[e] == if db.events[e].status.Active?
                   then RoutedTo(db, e, Accept(accepts, e), mail, rawIds, now, Reached(reached, e, mail))
                   else db.events[e]
    ensures db.(events := events, clock := now) == MailRouted(db, accepts, mail, rawIds, reached, now)
  {
    hide RoutedTo, Consistent, Reached;
    var routed := MailRouted(db, accepts, mail, rawIds, reached, now).events;
    assert routed.Keys == db.events.Keys;
    forall e | e in events
      ensures events[e] == routed[e]
    {
    }
    assert events == routed;
  }

  lemma LoggedMessages(ev: Event, from: string, now: int)
    ensures Logged(ev, System, Some(from), None, false, now).messages == ev.messages
  {
  }

  method HasRaw(ev: Event, rawId: int) returns (found: bool)
    ensures found <==> AlreadyRouted(ev, rawId)
  {
    for i := 0 to |ev.messages|
      invariant forall j :: 0 <= j < i ==> ev.messages[j].rawId != Some(rawId)
    {
      if ev.messages[i].rawId == Some(rawId) {
        return true;
      }
    }
    found := false;
  }

  lemma NoStatusPatch(db: Db, pid: int, change: StatusChange, now: int)
    requires pid in db.participants && db.participants[pid].eventId in db.events && !change.SetStatus?
    ensures StatusPatched(db, pid, change, now) == db
  {
  }

  /** The status part leaves the posts, the participant's event and the set of events as they are. */
  lemma StatusPatchSame(db: Db, pid: int, change: StatusChange, now: int)
    requires pid in db.participants && db.participants[pid].eventId in db.events
    ensures var d := StatusPatched(db, pid, change, now);
      && d.posts == db.posts && d.events.Keys == db.events.Keys && d.participants.Keys == db.participants.Keys
      && d.participants[pid].eventId == db.participants[pid].eventId
  {
    hide Logged;
  }

  lemma PostPatchSame(db: Db, pid: int, change: PostChange, now: int)
    requires pid in db.participants && db.participants[pid].eventId in db.events
    ensures var d := PostPatched(db, pid, change, now);
      && d.events.Keys == db.events.Keys && d.participants.Keys == db.participants.Keys
      && d.participants[pid].eventId == db.participants[pid].eventId
  {
    hide Logged;
  }
}
