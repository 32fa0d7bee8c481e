/** Closing a session: its check-ins are added to the member records once, however often and by whichever
    route the session and its roster are approved. Member names and the texts of rosters are not kept. */
module Finalisation {
  import opened PyText

  datatype SessionStatus = Scheduled | Completed | Cancelled

  /** A session may belong to no net. */
  datatype Session = Session(net: Option<int>, status: SessionStatus, finalizedAt: Option<int>)

  datatype CheckIn = CheckIn(session: int, callsign: string)

  datatype Member = Member(total: nat, firstCheckIn: int, lastCheckIn: int)

  datatype RosterStatus = Draft | Approved | Sent | Skipped

  datatype Roster = Roster(
    session: int, status: RosterStatus, approvedBy: Option<string>, approvedAt: Option<int>, sentAt: Option<int>)

  /** Members are keyed by net and callsign. */
  datatype Db = Db(
    sessions: map<int, Session>, checkIns: map<nat, CheckIn>, members: map<(int, string), Member>,
    rosters: map<int, Roster>, nextSession: int, nextCheckIn: nat, nextRoster: int)

  /** `Refused` is the service's None or False. */
  datatype Result = Done | Refused

  datatype Outcome = Outcome(db: Db, result: Result)

  /** One more check-in for a member, whose record is created when there is none. */
  function Credit(members: map<(int, string), Member>, net: int, callsign: string, now: int): map<(int, string), Member>
  {
    var key := (net, callsign);
    members[key := if key in members then Member(members[key].total + 1, members[key].firstCheckIn, now)
                   else Member(1, now, now)]
  }

  predicate Counts(db: Db, s: int, id: nat)
  {
    id in db.checkIns && db.checkIns[id].session == s && db.checkIns[id].callsign != ""
  }

  /** The member records after the session's check-ins with ids below n have been credited. */
  function Credited(db: Db, s: int, n: nat, now: int): map<(int, string), Member>
    requires s in db.sessions
  {
    if n == 0 then db.members
    else
      var before := Credited(db, s, n - 1, now);
      if Counts(db, s, n - 1) && db.sessions[s].net.Some? then
        Credit(before, db.sessions[s].net.value, db.checkIns[n - 1].callsign, now)
      else before
  }

  function ApprovedSession(db: Db, s: int, now: int): Db
  {
    if s !in db.sessions then db
    else if db.sessions[s].finalizedAt.Some? then
      db.(sessions := db.sessions[s := db.sessions[s].(status := Completed)])
    else
      db.(members := Credited(db, s, db.nextCheckIn, now),
          sessions := db.sessions[s := db.sessions[s].(status := Completed, finalizedAt := Some(now))])
  }

  // ---------------------------------------------------------------------------
  // Sessions and check-ins

  function CreatedSession(db: Db, net: Option<int>): Outcome
  {
    Outcome(
      db.(sessions := db.sessions[db.nextSession := Session(net, Scheduled, None)], nextSession := db.nextSession + 1),
      Done)
  }

  function SessionStatusSet(db: Db, s: int, status: SessionStatus): Outcome
  {
    if s !in db.sessions then Outcome(db, Refused)
    else Outcome(db.(sessions := db.sessions[s := db.sessions[s].(status := status)]), Done)
  }

  /** By hand or by import; the session has to exist. */
  function AddedCheckIn(db: Db, s: int, callsign: string): Outcome
  {
    if s !in db.sessions then Outcome(db, Refused)
    else
      Outcome(
        db.(checkIns := db.checkIns[db.nextCheckIn := CheckIn(s, callsign)], nextCheckIn := db.nextCheckIn + 1), Done)
  }

  function EditedCheckIn(db: Db, id: nat, callsign: string): Outcome
  {
    if id !in db.checkIns then Outcome(db, Refused)
    else Outcome(db.(checkIns := db.checkIns[id := db.checkIns[id].(callsign := callsign)]), Done)
  }

  function RemovedCheckIn(db: Db, id: nat): Outcome
  {
    if id !in db.checkIns then Outcome(db, Refused) else Outcome(db.(checkIns := db.checkIns - {id}), Done)
  }

  // ---------------------------------------------------------------------------
  // Rosters

  predicate RosterOf(db: Db, s: int, r: int) { r in db.rosters && db.rosters[r].session == s }

  ghost function FindRoster(db: Db, s: int): (r: Option<int>)
    ensures r.Some? ==> RosterOf(db, s, r.value)
    ensures r.None? ==> forall id :: !RosterOf(db, s, id)
  {
    if exists id :: RosterOf(db, s, id) then
      var id :| RosterOf(db, s, id);
      Some(id)
    else None
  }

  function FreshRoster(s: int): Roster { Roster(s, Draft, None, None, None) }

  /** A session has one roster; a skipped one is drafted anew in place. */
  ghost function GeneratedDraft(db: Db, s: int, haveTemplate: bool): Outcome
  {
    match FindRoster(db, s)
    case Some(r) =>
      if db.rosters[r].status != Skipped then Outcome(db, Done)
      else if s !in db.sessions || !haveTemplate then Outcome(db, Refused)
      else Outcome(db.(rosters := db.rosters[r := FreshRoster(s)]), Done)
    case None =>
      if s !in db.sessions || !haveTemplate then Outcome(db, Refused)
      else Outcome(db.(rosters := db.rosters[db.nextRoster := FreshRoster(s)], nextRoster := db.nextRoster + 1), Done)
  }

  predicate Is(db: Db, r: int, status: RosterStatus) { r in db.rosters && db.rosters[r].status == status }

  /** Editing a draft or rendering it again changes only its texts. */
  function DraftEdited(db: Db, r: int): Outcome { Outcome(db, if Is(db, r, Draft) then Done else Refused) }

  function ApprovedRoster(db: Db, r: int, approver: string, now: int): Outcome
  {
    if !Is(db, r, Draft) then Outcome(db, Refused)
    else
      var roster := db.rosters[r].(status := Approved, approvedBy := Some(approver), approvedAt := Some(now));
      Outcome(ApprovedSession(db, db.rosters[r].session, now).(rosters := db.rosters[r := roster]), Done)
  }

  /** `delivered`: whether some delivery backend took the roster. */
  function MarkedSent(db: Db, r: int, delivered: bool, now: int): Outcome
  {
    if !Is(db, r, Approved) || db.rosters[r].session !in db.sessions || !delivered then Outcome(db, Refused)
    else Outcome(db.(rosters := db.rosters[r := db.rosters[r].(status := Sent, sentAt := Some(now))]), Done)
  }

  function Submitted(db: Db, r: int, approver: string, delivered: bool, now: int): Outcome
  {
    if Is(db, r, Draft) then MarkedSent(ApprovedRoster(db, r, approver, now).db, r, delivered, now)
    else MarkedSent(db, r, delivered, now)
  }

  function Resent(db: Db, r: int, delivered: bool, now: int): Outcome
  {
    if !Is(db, r, Sent) || db.rosters[r].session !in db.sessions || !delivered then Outcome(db, Refused)
    else Outcome(db.(rosters := db.rosters[r := db.rosters[r].(sentAt := Some(now))]), Done)
  }

  function SkippedRoster(db: Db, r: int): Outcome
  {
    if !Is(db, r, Draft) && !Is(db, r, Approved) then Outcome(db, Refused)
    else Outcome(db.(rosters := db.rosters[r := db.rosters[r].(status := Skipped)]), Done)
  }

  function DeletedRoster(db: Db, r: int): Outcome
  {
    if r !in db.rosters then Outcome(db, Refused) else Outcome(db.(rosters := db.rosters - {r}), Done)
  }

  // ---------------------------------------------------------------------------
  // Operations and runs

  datatype Op =
    | CreateSession(net: Option<int>)
    | SetSessionStatus(s: int, status: SessionStatus)
    | AddCheckIn(s: int, callsign: string)
    | EditCheckIn(id: nat, newCallsign: string)
    | RemoveCheckIn(id: nat)
    | ApproveSession(s: int)
    | GenerateDraft(s: int, haveTemplate: bool)
    | EditDraft(r: int)
    | ApproveRoster(r: int, approver: string)
    | MarkSent(r: int, delivered: bool)
    | Submit(r: int, approver: string, delivered: bool)
    | Resend(r: int, delivered: bool)
    | Skip(r: int)
    | DeleteRoster(r: int)

  ghost function Apply(db: Db, op: Op, now: int): Outcome
  {
    match op
    case CreateSession(net) => CreatedSession(db, net)
    case SetSessionStatus(s, status) => SessionStatusSet(db, s, status)
    case AddCheckIn(s, callsign) => AddedCheckIn(db, s, callsign)
    case EditCheckIn(id, callsign) => EditedCheckIn(db, id, callsign)
    case RemoveCheckIn(id) => RemovedCheckIn(db, id)
    case ApproveSession(s) => Outcome(ApprovedSession(db, s, now), Done)
    case GenerateDraft(s, haveTemplate) => GeneratedDraft(db, s, haveTemplate)
    case EditDraft(r) => DraftEdited(db, r)
    case ApproveRoster(r, approver) => ApprovedRoster(db, r, approver, now)
    case MarkSent(r, delivered) => MarkedSent(db, r, delivered, now)
    case Submit(r, approver, delivered) => Submitted(db, r, approver, delivered, now)
    case Resend(r, delivered) => Resent(db, r, delivered, now)
    case Skip(r) => SkippedRoster(db, r)
    case DeleteRoster(r) => DeletedRoster(db, r)
  }

  const EMPTY := Db(map[], map[], map[], map[], 1, 1, 1)

  /** An operation and the clock's reading when it runs. */
  datatype Timed = Timed(op: Op, now: int)

  ghost function After(ops: seq<Timed>): Db
  {
    if ops == [] then EMPTY else Apply(After(ops[..|ops| - 1]), ops[|ops| - 1].op, ops[|ops| - 1].now).db
  }

  // ---------------------------------------------------------------------------

  /** The service as it runs. */
  class Book {
    var sessions: map<int, Session>
    var checkIns: map<nat, CheckIn>
    var members: map<(int, string), Member>
    var rosters: map<int, Roster>
    var nextSession: int
    var nextCheckIn: nat
    var nextRoster: int

    function State(): Db
      reads this
    {
      Db(sessions, checkIns, members, rosters, nextSession, nextCheckIn, nextRoster)
    }

    constructor ()
      ensures State() == EMPTY
    {
      sessions, checkIns, members, rosters := map[], map[], map[], map[];
      nextSession, nextCheckIn, nextRoster := 1, 1, 1;
    }

    method ApproveSessionCheckIns(s: int, now: int)
      modifies this`sessions, this`members
      ensures State() == ApprovedSession(old(State()), s, now)
    {
      hide Credit, Counts;
      if s !in sessions {
        return;
      }
      if sessions[s].finalizedAt.Some? {
        if sessions[s].status != Completed {
          sessions := sessions[s := sessions[s].(status := Completed)];
        }
        SameSession(sessions, s);
        return;
      }
      ghost var db := State();
      for id := 0 to nextCheckIn
        invariant members == Credited(db, s, id, now) && sessions == db.sessions
      {
        var counts := Counts(State(), s, id);
        CountsBelow(db, State(), s, id);
        if counts && sessions[s].net.Some? {
          InTable(db, s, id);
          members := Credit(members, sessions[s].net.value, checkIns[id].callsign, now);
        }
      }
      sessions := sessions[s := sessions[s].(status := Completed, finalizedAt := Some(now))];
    }

    method GenerateDraft(s: int, haveTemplate: bool) returns (result: Result)
      requires OneRosterEach(State())
      modifies this`rosters, this`nextRoster
      ensures Outcome(State(), result) == GeneratedDraft(old(State()), s, haveTemplate)
    {
      hide FindRoster;
      var existing := FirstRoster(s);
      if existing.Some? && rosters[existing.value].status != Skipped {
        return Done;
      }
      if s !in sessions || !haveTemplate {
        return Refused;
      }
      if existing.Some? {
        var row := rosters[existing.value];
        row := row.(status := Draft, approvedAt := None, sentAt := None, approvedBy := None);
        rosters := rosters[existing.value := row];
      } else {
        rosters, nextRoster := rosters[nextRoster := FreshRoster(s)], nextRoster + 1;
      }
      result := Done;
    }

    method FirstRoster(s: int) returns (r: Option<int>)
      requires OneRosterEach(State())
      ensures r == FindRoster(State(), s)
    {
      r := None;
      var left := rosters.Keys;
      while left != {}
        invariant left <= rosters.Keys
        invariant r.Some? ==> RosterOf(State(), s, r.value)
        invariant r.None? ==> forall id :: id in rosters && id !in left ==> !RosterOf(State(), s, id)
        decreases |left|
      {
        NotEmpty(left);
        var id :| id in left;
        if rosters[id].session == s {
          r := Some(id);
        }
        left := left - {id};
      }
    }

    method ApproveRoster(r: int, approver: string, now: int) returns (result: Result)
      modifies this
      ensures Outcome(State(), result) == ApprovedRoster(old(State()), r, approver, now)
    {
      hide Credited;
      if r !in rosters || rosters[r].status != Draft {
        return Refused;
      }
      ApproveSessionCheckIns(rosters[r].session, now);
      rosters := rosters[r := rosters[r].(status := Approved, approvedBy := Some(approver), approvedAt := Some(now))];
      result := Done;
    }

    method MarkSent(r: int, delivered: bool, now: int) returns (result: Result)
      modifies this
      ensures Outcome(State(), result) == MarkedSent(old(State()), r, delivered, now)
    {
      if r !in rosters || rosters[r].status != Approved {
        return Refused;
      }
      if rosters[r].session !in sessions {
        return Refused;
      }
      if !delivered {
        return Refused;
      }
      rosters := rosters[r := rosters[r].(status := Sent, sentAt := Some(now))];
      result := Done;
    }

    method SubmitRoster(r: int, approver: string, delivered: bool, now: int) returns (result: Result)
      modifies this
      ensures Outcome(State(), result) == Submitted(old(State()), r, approver, delivered, now)
    {
      hide ApprovedSession;
      if r !in rosters || (rosters[r].status != Draft && rosters[r].status != Approved) {
        return Refused;
      }
      if rosters[r].status == Draft {
        var approved := ApproveRoster(r, approver, now);
        if approved == Refused {
          return Refused;
        }
      }
      result := MarkSent(r, delivered, now);
    }

    method ResendRoster(r: int, delivered: bool, now: int) returns (result: Result)
      modifies this
      ensures Outcome(State(), result) == Resent(old(State()), r, delivered, now)
    {
      if r !in rosters || rosters[r].status != Sent {
        return Refused;
      }
      if rosters[r].session !in sessions || !delivered {
        return Refused;
      }
      rosters := rosters[r := rosters[r].(sentAt := Some(now))];
      result := Done;
    }

    method SkipRoster(r: int) returns (result: Result)
      modifies this
      ensures Outcome(State(), result) == SkippedRoster(old(State()), r)
    {
      if r !in rosters || (rosters[r].status != Draft && rosters[r].status != Approved) {
        return Refused;
      }
      rosters := rosters[r := rosters[r].(status := Skipped)];
      result := Done;
    }
  }

  /** The unique constraint on the roster's session. */
  ghost predicate OneRosterEach(db: Db)
  {
    forall a, b :: a in db.rosters && b in db.rosters && db.rosters[a].session == db.rosters[b].session ==> a == b
  }

  lemma SomeElement<T>(s: set<T>) returns (x: T)
    requires s != {}
    ensures x in s
  {
    x :| x in s;
  }

  lemma NotEmpty(s: set<int>)
    requires s != {}
    ensures exists x :: x in s
  {
    var x := SomeElement(s);
    assert x in s;
  }

  lemma SameSession(sessions: map<int, Session>, s: int)
    requires s in sessions
    ensures sessions[s := sessions[s]] == sessions
  {
  }

  lemma CountsBelow(a: Db, b: Db, s: int, id: nat)
    requires a.checkIns == b.checkIns
    ensures Counts(a, s, id) == Counts(b, s, id)
  {
  }

  lemma InTable(db: Db, s: int, id: nat)
    requires Counts(db, s, id)
    ensures id in db.checkIns
  {
  }
}
