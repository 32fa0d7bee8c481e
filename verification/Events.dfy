/** Live event operations: tables of events, posts and participants, and the transactions that change
    them. A refused transaction changes nothing. Free text (descriptions, locations, names of people,
    the wording of log entries) is not kept. */
module Events {
  import opened PyText

  datatype EventStatus = Draft | Active | Closed

  datatype ParticipantStatus = CheckedIn | AtPost | EnRoute | OutOfService | CheckedOut

  datatype EntryType = System | Note | ParticipantNote

  datatype LogEntry = LogEntry(
    seqNo: nat, entryType: EntryType, callsign: Option<string>, newStatus: Option<ParticipantStatus>, pinned: bool,
    createdAt: int)

  datatype Message = Message(msgSeq: nat, rawId: Option<int>, participantId: Option<int>, fromCallsign: string)

  datatype Event = Event(
    status: EventStatus, closedAt: Option<int>, logSeq: nat, msgSeq: nat, log: seq<LogEntry>, messages: seq<Message>)

  datatype Post = Post(eventId: int, name: string)

  datatype Participant = Participant(
    eventId: int, callsign: string, postId: Option<int>, status: ParticipantStatus, checkedInAt: int,
    checkedOutAt: Option<int>)

  datatype Db = Db(
    events: map<int, Event>, posts: map<int, Post>, participants: map<int, Participant>,
    nextEvent: int, nextPost: int, nextParticipant: int, clock: int)

  datatype Error =
    | InvalidLifecycle | NotActive | DuplicatePost | PostAssigned | InvalidPost | DuplicateParticipant
    | InvalidTransition

  /** `Missing` is the service's None or False. */
  datatype Result = Ok | Missing | Refused(error: Error)

  datatype Outcome = Outcome(db: Db, result: Result)

  function Refuse(db: Db, e: Error): Outcome { Outcome(db, Refused(e)) }

  const NEW_EVENT := Event(Draft, None, 0, 0, [], [])

  predicate HasStatus(db: Db, e: int, s: EventStatus) { e in db.events && db.events[e].status == s }

  predicate Open(db: Db, e: int) { e in db.events && !db.events[e].status.Closed? }

  /** The event with one more log entry, numbered next. */
  function Logged(ev: Event, entryType: EntryType, callsign: Option<string>, newStatus: Option<ParticipantStatus>,
                  pinned: bool, now: int): Event
  {
    ev.(logSeq := ev.logSeq + 1,
        log := ev.log + [LogEntry(ev.logSeq + 1, entryType, callsign, newStatus, pinned, now)])
  }

  function SystemEntry(ev: Event, callsign: Option<string>, newStatus: Option<ParticipantStatus>, now: int): Event
  {
    Logged(ev, System, callsign, newStatus, false, now)
  }

  function Stored(db: Db, e: int, ev: Event, now: int): Db { db.(events := db.events[e := ev], clock := now) }

  // ---------------------------------------------------------------------------
  // Lifecycle

  function CreatedEvent(db: Db, now: int): Outcome
  {
    Outcome(Stored(db, db.nextEvent, NEW_EVENT, now).(nextEvent := db.nextEvent + 1), Ok)
  }

  function Activated(db: Db, e: int, now: int): Outcome
  {
    if !HasStatus(db, e, Draft) then Refuse(db, InvalidLifecycle)
    else Outcome(Stored(db, e, SystemEntry(db.events[e].(status := Active), None, None, now), now), Ok)
  }

  /** The closing time is read first; the entry gets its own when it is written. */
  function ClosedEvent(db: Db, e: int, at: int, now: int): Outcome
  {
    if !HasStatus(db, e, Active) then Refuse(db, InvalidLifecycle)
    else
      var ev := SystemEntry(db.events[e], None, None, now);
      Outcome(Stored(db, e, ev.(status := Closed, closedAt := Some(at)), now), Ok)
  }

  function Reopened(db: Db, e: int, now: int): Outcome
  {
    if !HasStatus(db, e, Closed) then Refuse(db, InvalidLifecycle)
    else
      Outcome(Stored(db, e, SystemEntry(db.events[e].(status := Active, closedAt := None), None, None, now), now), Ok)
  }

  // ---------------------------------------------------------------------------
  // Posts

  predicate PostIn(db: Db, e: int, post: int) { post in db.posts && db.posts[post].eventId == e }

  predicate NameTaken(db: Db, e: int, name: string, except: Option<int>)
  {
    exists p :: p in db.posts && db.posts[p] == Post(e, name) && except != Some(p)
  }

  function CreatedPost(db: Db, e: int, name: string, now: int): Outcome
  {
    if !Open(db, e) then Refuse(db, NotActive)
    else if NameTaken(db, e, name, None) then Refuse(db, DuplicatePost)
    else Outcome(db.(posts := db.posts[db.nextPost := Post(e, name)], nextPost := db.nextPost + 1, clock := now), Ok)
  }

  function UpdatedPost(db: Db, e: int, post: int, name: Option<string>, now: int): Outcome
  {
    if !Open(db, e) then Refuse(db, NotActive)
    else if !PostIn(db, e, post) then Outcome(db, Missing)
    else if name.Some? && NameTaken(db, e, name.value, Some(post)) then Refuse(db, DuplicatePost)
    else
      Outcome(db.(posts := if name.Some? then db.posts[post := Post(e, name.value)] else db.posts, clock := now), Ok)
  }

  predicate Assigned(db: Db, post: int)
  {
    exists p :: p in db.participants && db.participants[p].postId == Some(post)
  }

  function DeletedPost(db: Db, e: int, post: int, now: int): Outcome
  {
    if !Open(db, e) then Refuse(db, NotActive)
    else if !PostIn(db, e, post) then Outcome(db, Missing)
    else if Assigned(db, post) then Refuse(db, PostAssigned)
    else Outcome(db.(posts := db.posts - {post}, clock := now), Ok)
  }

  // ---------------------------------------------------------------------------
  // Participants

  predicate IsParticipant(db: Db, e: int, callsign: string, p: int)
  {
    p in db.participants && db.participants[p].eventId == e && db.participants[p].callsign == callsign
  }

  ghost function Find(db: Db, e: int, callsign: string): (r: Option<int>)
    ensures r.Some? ==> IsParticipant(db, e, callsign, r.value)
    ensures r.None? <==> forall p :: !IsParticipant(db, e, callsign, p)
  {
    if exists p :: IsParticipant(db, e, callsign, p) then
      var p :| IsParticipant(db, e, callsign, p);
      Some(p)
    else None
  }

  function BackAgain(p: Participant, post: Option<int>, now: int): Participant
  {
    p.(status := CheckedIn, checkedInAt := now, checkedOutAt := None, postId := if post.Some? then post else p.postId)
  }

  /** Writes a participant row and logs its new status. */
  function StatusLogged(db: Db, pid: int, p: Participant, now: int): Db
    requires p.eventId in db.events
  {
    Stored(db.(participants := db.participants[pid := p]), p.eventId,
           SystemEntry(db.events[p.eventId], Some(p.callsign), Some(p.status), now), now)
  }

  /** `callsign` is trimmed and in upper case. */
  ghost function CheckedInTo(db: Db, e: int, callsign: string, post: Option<int>, now: int): Outcome
  {
    if callsign == "" then Refuse(db, DuplicateParticipant)
    else if !HasStatus(db, e, Active) then Refuse(db, NotActive)
    else if post.Some? && !PostIn(db, e, post.value) then Refuse(db, InvalidPost)
    else match Find(db, e, callsign)
      case Some(pid) =>
        if !db.participants[pid].status.CheckedOut? then Refuse(db, DuplicateParticipant)
        else Outcome(StatusLogged(db, pid, BackAgain(db.participants[pid], post, now), now), Ok)
      case None =>
        var p := Participant(e, callsign, post, CheckedIn, now, None);
        Outcome(StatusLogged(db, db.nextParticipant, p, now).(nextParticipant := db.nextParticipant + 1), Ok)
  }

  /** A PATCH: each part may be left as it is. */
  datatype StatusChange = SameStatus | NullStatus | SetStatus(status: ParticipantStatus)
  datatype PostChange = SamePost | Unassign | Assign(post: int)

  function WithStatus(p: Participant, s: ParticipantStatus, now: int): Participant
  {
    if s.CheckedOut? then p.(status := s, checkedOutAt := Some(now))
    else if s.CheckedIn? && p.checkedOutAt.Some? then p.(status := s, checkedInAt := now, checkedOutAt := None)
    else p.(status := s)
  }

  predicate Transition(from: ParticipantStatus, to: ParticipantStatus)
  {
    from.CheckedOut? ==> to.CheckedIn?
  }

  /** The status part of a PATCH. */
  function StatusPatched(db: Db, pid: int, change: StatusChange, now: int): Db
    requires pid in db.participants && db.participants[pid].eventId in db.events
  {
    if change.SetStatus? && change.status != db.participants[pid].status then
      StatusLogged(db, pid, WithStatus(db.participants[pid], change.status, now), now)
    else db
  }

  /** The post and location parts: one plain entry each. */
  function Noted(db: Db, pid: int, p: Participant, now: int): Db
    requires p.eventId in db.events
  {
    Stored(db.(participants := db.participants[pid := p]), p.eventId,
           SystemEntry(db.events[p.eventId], Some(p.callsign), None, now), now)
  }

  function PostPatched(db: Db, pid: int, change: PostChange, now: int): Db
    requires pid in db.participants && db.participants[pid].eventId in db.events
  {
    match change
    case SamePost => db
    case Unassign => Noted(db, pid, db.participants[pid].(postId := None), now)
    case Assign(post) => Noted(db, pid, db.participants[pid].(postId := Some(post)), now)
  }

  function UpdatedParticipant(db: Db, e: int, pid: int, status: StatusChange, post: PostChange, location: bool,
                              now: int): Outcome
  {
    if e !in db.events then Outcome(db, Missing)
    else if !db.events[e].status.Active? then Refuse(db, NotActive)
    else if pid !in db.participants || db.participants[pid].eventId != e then Outcome(db, Missing)
    else if status.NullStatus? then Refuse(db, InvalidTransition)
    else if status.SetStatus? && status.status != db.participants[pid].status
         && !Transition(db.participants[pid].status, status.status) then Refuse(db, InvalidTransition)
    else if post.Assign? && !PostIn(db, e, post.post) then Refuse(db, InvalidPost)
    else
      var db1 := StatusPatched(db, pid, status, now);
      var db2 := PostPatched(db1, pid, post, now);
      var db3 := if location then Noted(db2, pid, db2.participants[pid], now) else db2;
      Outcome(db3.(clock := now), Ok)
  }

  // ---------------------------------------------------------------------------
  // Notes and messages

  function NoteAdded(db: Db, e: int, callsign: Option<string>, pinned: bool, now: int): Outcome
  {
    if !HasStatus(db, e, Active) then Refuse(db, NotActive)
    else
      var entryType := if callsign.Some? && callsign.value != "" then ParticipantNote else Note;
      Outcome(Stored(db, e, Logged(db.events[e], entryType, callsign, None, pinned, now), now), Ok)
  }

  function Pinned(ev: Event, seqNo: nat, pinned: bool): Event
    requires 1 <= seqNo <= |ev.log|
  {
    ev.(log := ev.log[seqNo - 1 := ev.log[seqNo - 1].(pinned := pinned)])
  }

  /** The entry is named by its sequence number. */
  function PinSet(db: Db, e: int, seqNo: nat, pinned: bool, now: int): Outcome
  {
    if !Open(db, e) then Refuse(db, NotActive)
    else if !(1 <= seqNo <= |db.events[e].log|) then Outcome(db, Missing)
    else Outcome(Stored(db, e, Pinned(db.events[e], seqNo, pinned), now), Ok)
  }

  function Sent(ev: Event, from: string): Event
  {
    ev.(msgSeq := ev.msgSeq + 1, messages := ev.messages + [Message(ev.msgSeq + 1, None, None, from)])
  }

  function MessageSent(db: Db, e: int, from: string, now: int): Outcome
  {
    if !HasStatus(db, e, Active) then Refuse(db, NotActive)
    else Outcome(Stored(db, e, Sent(db.events[e], from), now), Ok)
  }

  /** An inbound message: its id, the base callsign it is addressed to and the one it comes from. */
  datatype Mail = Mail(messageId: string, toBase: string, fromBase: string)

  predicate AlreadyRouted(ev: Event, rawId: int)
  {
    exists i :: 0 <= i < |ev.messages| && ev.messages[i].rawId == Some(rawId)
  }

  /** Whether the event takes the message: addressed to it (or it takes all), stored, and new to it. */
  predicate Takes(ev: Event, accept: Option<string>, m: Mail, rawIds: map<string, int>)
  {
    && (accept.None? || accept.value == m.toBase)
    && m.messageId in rawIds && !AlreadyRouted(ev, rawIds[m.messageId])
  }

  function Routed(ev: Event, m: Mail, rawId: int, participant: Option<int>, now: int): Event
  {
    SystemEntry(
      ev.(msgSeq := ev.msgSeq + 1,
          messages := ev.messages + [Message(ev.msgSeq + 1, Some(rawId), participant, m.fromBase)]),
      Some(m.fromBase), None, now)
  }

  /** The event after the first n messages. */
  ghost function RoutedTo(db: Db, e: int, accept: Option<string>, mail: seq<Mail>, rawIds: map<string, int>, now: int,
                          n: nat): (r: Event)
    requires e in db.events && n <= |mail|
    ensures r.status == db.events[e].status
  {
    if n == 0 then db.events[e]
    else
      var ev := RoutedTo(db, e, accept, mail, rawIds, now, n - 1);
      var m := mail[n - 1];
      if Takes(ev, accept, m, rawIds) then Routed(ev, m, rawIds[m.messageId], Find(db, e, m.fromBase), now) else ev
  }

  /** How many messages of a batch a pass got through for an event: all, unless it broke before. */
  function Reached(reached: map<int, nat>, e: int, mail: seq<Mail>): (n: nat)
    ensures n <= |mail|
  {
    if e in reached && reached[e] <= |mail| then reached[e] else |mail|
  }

  /** Every active event gets the messages it takes; `accepts` holds each event's configured address. Each
      message is committed by itself, so a pass that breaks leaves those it reached. */
  ghost function MailRouted(db: Db, accepts: map<int, string>, mail: seq<Mail>, rawIds: map<string, int>,
                            reached: map<int, nat>, now: int): Db
  {
    db.(events := map e | e in db.events ::
          if db.events[e].status.Active? then
            RoutedTo(db, e, Accept(accepts, e), mail, rawIds, now, Reached(reached, e, mail))
          else db.events[e],
        clock := now)
  }

  function Accept(accepts: map<int, string>, e: int): Option<string>
  {
    if e in accepts then Some(accepts[e]) else None
  }

  // ---------------------------------------------------------------------------
  // Operations and runs

  datatype Op =
    | CreateEvent
    | Activate(e: int)
    | Close(e: int, time: int)
    | Reopen(e: int)
    | CreatePost(e: int, name: string)
    | UpdatePost(e: int, post: int, newName: Option<string>)
    | DeletePost(e: int, post: int)
    | CheckIn(e: int, callsign: string, at: Option<int>)
    | UpdateParticipant(e: int, participant: int, status: StatusChange, postChange: PostChange, location: bool)
    | AddNote(e: int, about: Option<string>, pin: bool)
    | SetPinned(e: int, entry: nat, pin: bool)
    | SendMessage(e: int, from: string)
    | RouteMail(accepts: map<int, string>, mail: seq<Mail>, rawIds: map<string, int>, reached: map<int, nat>)

  ghost function Apply(db: Db, op: Op, now: int): Outcome
  {
    match op
    case CreateEvent => CreatedEvent(db, now)
    case Activate(e) => Activated(db, e, now)
    case Close(e, at) => ClosedEvent(db, e, at, now)
    case Reopen(e) => Reopened(db, e, now)
    case CreatePost(e, name) => CreatedPost(db, e, name, now)
    case UpdatePost(e, post, name) => UpdatedPost(db, e, post, name, now)
    case DeletePost(e, post) => DeletedPost(db, e, post, now)
    case CheckIn(e, callsign, post) => CheckedInTo(db, e, callsign, post, now)
    case UpdateParticipant(e, p, status, post, location) => UpdatedParticipant(db, e, p, status, post, location, now)
    case AddNote(e, about, pin) => NoteAdded(db, e, about, pin, now)
    case SetPinned(e, entry, pin) => PinSet(db, e, entry, pin, now)
    case SendMessage(e, from) => MessageSent(db, e, from, now)
    case RouteMail(accepts, mail, rawIds, reached) =>
      Outcome(MailRouted(db, accepts, mail, rawIds, reached, now), Ok)
  }

  const EMPTY := Db(map[], map[], map[], 1, 1, 1, 0)

  /** An operation and the clock's reading when it writes. */
  datatype Timed = Timed(op: Op, now: int)

  /** The first reading of the clock the operation makes. */
  function FirstReading(x: Timed): int { if x.op.Close? then x.op.time else x.now }

  ghost function After(ops: seq<Timed>): Db
  {
    if ops == [] then EMPTY else Apply(After(ops[..|ops| - 1]), ops[|ops| - 1].op, ops[|ops| - 1].now).db
  }

  /** The clock never steps back. */
  predicate InOrder(ops: seq<Timed>)
  {
    && (forall i :: 0 <= i < |ops| ==> 0 <= FirstReading(ops[i]) <= ops[i].now)
    && (forall i, j :: 0 <= i < j < |ops| ==> ops[i].now <= FirstReading(ops[j]))
  }
}
