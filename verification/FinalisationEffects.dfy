/** What each step of a roster's and a session's life leaves, row by row, and over runs: which check-ins there are,
    who approved a roster, and that what was sent was delivered. */
module FinalisationEffects {
  import opened PyText
  import opened Finalisation
  import opened FinalisationLaws

  /** Only that roster's row changed. */
  ghost predicate OnlyRoster(db: Db, db': Db, r: int, roster: Roster)
  {
    db' == db.(rosters := db.rosters[r := roster])
  }

  /** The session was finalised, now or before, and is completed; no other session changed. */
  ghost predicate FinalisedNow(db: Db, db': Db, s: int, now: int)
  {
    s in db.sessions &&
    var was := db.sessions[s];
    db'.sessions == db.sessions[s := Session(was.net, Completed,
                                             if was.finalizedAt.Some? then was.finalizedAt else Some(now))]
  }

  /** Approving a session finalises it, once, and completes it; rosters and check-ins stay. */
  lemma SessionApproved(db: Db, s: int, now: int)
    ensures var db' := Apply(db, ApproveSession(s), now).db;
      && db'.rosters == db.rosters && db'.checkIns == db.checkIns
      && (if s in db.sessions then FinalisedNow(db, db', s, now) else db' == db)
      && (s in db.sessions && db.sessions[s].finalizedAt.Some? ==> db'.members == db.members)
  {
    hide Credited;
  }

  /** Only drafts are approved: by that operator, now, with their session finalised. */
  lemma RosterApproved(db: Db, r: int, who: string, now: int)
    requires Consistent(db)
    ensures var o := Apply(db, ApproveRoster(r, who), now);
      && (o.result.Done? <==> Is(db, r, Draft)) && (o.result.Refused? ==> o.db == db)
      && (o.result.Done? ==>
            && var s := db.rosters[r].session;
            && o.db.rosters == db.rosters[r := Roster(s, Approved, Some(who), Some(now), None)]
            && FinalisedNow(db, o.db, s, now) && o.db.checkIns == db.checkIns)
  {
    hide Credited;
  }

  /** Only approved rosters are sent, when some backend takes them; otherwise they stay as they are. */
  lemma RosterSent(db: Db, r: int, delivered: bool, now: int)
    requires Consistent(db)
    ensures var o := Apply(db, MarkSent(r, delivered), now);
      && (o.result.Done? <==> Is(db, r, Approved) && delivered) && (o.result.Refused? ==> o.db == db)
      && (o.result.Done? ==>
            var was := db.rosters[r];
            OnlyRoster(db, o.db, r, Roster(was.session, Sent, was.approvedBy, was.approvedAt, Some(now))))
  {
  }

  /** Sending again needs a sent roster and a delivery, and renews the time it was sent. */
  lemma RosterResent(db: Db, r: int, delivered: bool, now: int)
    requires Consistent(db)
    ensures var o := Apply(db, Resend(r, delivered), now);
      && (o.result.Done? <==> Is(db, r, Sent) && delivered) && (o.result.Refused? ==> o.db == db)
      && (o.result.Done? ==>
            var was := db.rosters[r];
            OnlyRoster(db, o.db, r, Roster(was.session, Sent, was.approvedBy, was.approvedAt, Some(now))))
  {
  }

  /** Submitting approves a draft and sends it, or sends an approved roster; without a delivery a draft stays
      approved. */
  lemma RosterSubmitted(db: Db, r: int, who: string, delivered: bool, now: int)
    requires Consistent(db)
    ensures var o := Apply(db, Submit(r, who, delivered), now);
      && (o.result.Done? <==> (Is(db, r, Draft) || Is(db, r, Approved)) && delivered)
      && (Is(db, r, Draft) ==>
            && var s := db.rosters[r].session;
            && o.db.rosters == db.rosters[r := Roster(s, if delivered then Sent else Approved, Some(who), Some(now),
                                                      if delivered then Some(now) else None)]
            && FinalisedNow(db, o.db, s, now) && o.db.checkIns == db.checkIns)
      && (!Is(db, r, Draft) ==> o == Apply(db, MarkSent(r, delivered), now))
  {
    hide Credited;
    if Is(db, r, Draft) {
      RosterApproved(db, r, who, now);
      ApproveRosterKeeps(db, r, who, now);
      var mid := Apply(db, ApproveRoster(r, who), now).db;
      RosterSent(mid, r, delivered, now);
      var s := db.rosters[r].session;
      assert db.rosters[r := Roster(s, Approved, Some(who), Some(now), None)]
               [r := Roster(s, Sent, Some(who), Some(now), Some(now))]
          == db.rosters[r := Roster(s, Sent, Some(who), Some(now), Some(now))];
    }
  }

  /** Drafts and approved rosters can be skipped; they keep who approved them. */
  lemma RosterSkipped(db: Db, r: int, now: int)
    requires Consistent(db)
    ensures var o := Apply(db, Skip(r), now);
      && (o.result.Done? <==> Is(db, r, Draft) || Is(db, r, Approved)) && (o.result.Refused? ==> o.db == db)
      && (o.result.Done? ==>
            var was := db.rosters[r];
            OnlyRoster(db, o.db, r, Roster(was.session, Skipped, was.approvedBy, was.approvedAt, None)))
  {
  }

  /** Drafting leaves the session with one roster: the one it had when that was not skipped, otherwise a draft that
      nobody has approved or sent, in the place of the skipped one if there was one. */
  lemma RosterDrafted(db: Db, s: int, haveTemplate: bool, now: int)
    requires Consistent(db)
    ensures var o := Apply(db, GenerateDraft(s, haveTemplate), now);
      && (o.result.Done? <==>
            || (exists r :: RosterOf(db, s, r) && !Is(db, r, Skipped))
            || (s in db.sessions && haveTemplate))
      && ((exists r :: RosterOf(db, s, r) && !Is(db, r, Skipped)) || o.result.Refused? ==> o.db == db)
      && (o.result.Done? ==> exists r :: RosterOf(o.db, s, r) && !Is(o.db, r, Skipped))
      && (forall r :: RosterOf(db, s, r) && Is(db, r, Skipped) && o.result.Done? ==>
            OnlyRoster(db, o.db, r, Roster(s, Draft, None, None, None)))
      && ((forall r :: !RosterOf(db, s, r)) && o.result.Done? ==>
            o.db == db.(rosters := db.rosters[db.nextRoster := Roster(s, Draft, None, None, None)],
                        nextRoster := db.nextRoster + 1))
  {
    hide TablesOk, RosterOk;
    var found := FindRoster(db, s);
    var o := Apply(db, GenerateDraft(s, haveTemplate), now);
    if found.Some? {
      assert RosterOf(o.db, s, found.value);
    } else if o.result.Done? {
      assert RosterOf(o.db, s, db.nextRoster);
    }
  }

  /** Any roster can be deleted. */
  lemma RosterDeleted(db: Db, r: int, now: int)
    ensures var o := Apply(db, DeleteRoster(r), now);
      (o.result.Done? <==> r in db.rosters) && o.db == db.(rosters := o.db.rosters)
      && forall q :: (q in o.db.rosters <==> q in db.rosters && q != r)
           && (q in o.db.rosters ==> o.db.rosters[q] == db.rosters[q])
  {
  }

  // ---------------------------------------------------------------------------
  // Over runs: who approved a roster, and when it was sent

  /** The operation approves the roster. */
  ghost predicate Approves(db: Db, op: Op, r: int, who: string)
  {
    Is(db, r, Draft) && (op == ApproveRoster(r, who) || (op.Submit? && op.r == r && op.approver == who))
  }

  /** Some backend takes the roster. */
  ghost predicate Delivers(op: Op, r: int)
  {
    (op.MarkSent? || op.Submit? || op.Resend?) && op.r == r && op.delivered
  }

  ghost predicate ApprovedThen(ops: seq<Timed>, i: nat, r: int, who: string, at: int)
  {
    i < |ops| && ops[i].now == at && Approves(After(ops[..i]), ops[i].op, r, who)
  }

  ghost predicate DeliveredThen(ops: seq<Timed>, i: nat, r: int, at: int)
  {
    i < |ops| && ops[i].now == at && Delivers(ops[i].op, r)
  }

  /** The approval and the sending that a roster row tells of took place. */
  ghost predicate Witnessed(ops: seq<Timed>, r: int, row: Roster)
  {
    && (row.approvedAt.Some? && row.approvedBy.Some? ==>
          exists i: nat :: ApprovedThen(ops, i, r, row.approvedBy.value, row.approvedAt.value))
    && (row.sentAt.Some? ==> exists i: nat :: DeliveredThen(ops, i, r, row.sentAt.value))
  }

  /** What an operation leaves in a roster row is what was there, less or more of it, or what it writes itself. */
  lemma RowAfter(db: Db, op: Op, now: int, r: int)
    requires Consistent(db) && r in Apply(db, op, now).db.rosters
    ensures Follows(db, op, now, r, Apply(db, op, now).db.rosters[r])
  {
    hide Apply, Consistent, Follows;
    if op.ApproveRoster? {
      RosterApproved(db, op.r, op.approver, now);
      FollowsFrom(db, op, now, r, Apply(db, op, now).db.rosters[r]);
    } else if op.Submit? && Is(db, op.r, Draft) {
      RosterSubmitted(db, op.r, op.approver, op.delivered, now);
      FollowsFrom(db, op, now, r, Apply(db, op, now).db.rosters[r]);
    } else if op.Submit? {
      RosterSubmitted(db, op.r, op.approver, op.delivered, now);
      PlainRowAfter(db, MarkSent(op.r, op.delivered), now, r);
      SameDelivery(db, op.r, op.approver, op.delivered, now, r, Apply(db, op, now).db.rosters[r]);
    } else {
      PlainRowAfter(db, op, now, r);
    }
  }

  lemma SameDelivery(db: Db, x: int, who: string, delivered: bool, now: int, r: int, row: Roster)
    requires Follows(db, MarkSent(x, delivered), now, r, row)
    ensures Follows(db, Submit(x, who, delivered), now, r, row)
  {
  }

  lemma FollowsFrom(db: Db, op: Op, now: int, r: int, row: Roster)
    requires op.ApproveRoster? || op.Submit?
    requires if r == op.r && Is(db, r, Draft) then row.approvedAt == Some(now) && row.approvedBy == Some(op.approver)
               && (row.sentAt.None? || (row.sentAt == Some(now) && Delivers(op, r)))
             else r in db.rosters && row == db.rosters[r]
    ensures Follows(db, op, now, r, row)
  {
  }

  lemma PlainRowAfter(db: Db, op: Op, now: int, r: int)
    requires !op.ApproveRoster? && !op.Submit? && r in Apply(db, op, now).db.rosters
    ensures Follows(db, op, now, r, Apply(db, op, now).db.rosters[r])
  {
    hide Credited;
  }

  ghost predicate Follows(db: Db, op: Op, now: int, r: int, row: Roster)
  {
    && (row.approvedAt.None? || (row.approvedAt == Some(now) && row.approvedBy.Some?
                                 && Approves(db, op, r, row.approvedBy.value))
        || (r in db.rosters && row.approvedAt == db.rosters[r].approvedAt
            && row.approvedBy == db.rosters[r].approvedBy))
    && (row.sentAt.None? || (row.sentAt == Some(now) && Delivers(op, r))
        || (r in db.rosters && row.sentAt == db.rosters[r].sentAt))
  }

  lemma StillWitnessed(ops: seq<Timed>, x: Timed, r: int, row: Roster)
    requires Witnessed(ops, r, row)
    ensures Witnessed(ops + [x], r, row)
  {
    hide After, Approves, Delivers;
    if row.approvedAt.Some? && row.approvedBy.Some? {
      var i: nat :| ApprovedThen(ops, i, r, row.approvedBy.value, row.approvedAt.value);
      assert (ops + [x])[..i] == ops[..i];
      assert ApprovedThen(ops + [x], i, r, row.approvedBy.value, row.approvedAt.value);
    }
    if row.sentAt.Some? {
      var i: nat :| DeliveredThen(ops, i, r, row.sentAt.value);
      assert DeliveredThen(ops + [x], i, r, row.sentAt.value);
    }
  }

  /** In every reachable state whoever a roster says approved it did so, when it says, while it was a draft; and when
      it says it was sent, a backend took it. */
  lemma {:induction false} ApprovalsAndDeliveriesHappened(ops: seq<Timed>, r: int)
    requires r in After(ops).rosters
    ensures Witnessed(ops, r, After(ops).rosters[r])
    decreases |ops|
  {
    hide Apply, Consistent, Approves, Delivers, Witnessed;
    if ops == [] {
      assert false;
    } else {
      var init, x := ops[..|ops| - 1], ops[|ops| - 1];
      assert init + [x] == ops;
      ReachableIsConsistent(init);
      var db, row := After(init), After(ops).rosters[r];
      RowAfter(db, x.op, x.now, r);
      if r in db.rosters {
        ApprovalsAndDeliveriesHappened(init, r);
        StillWitnessed(init, x, r, db.rosters[r]);
        WitnessedOrNew(ops, r, db.rosters[r], row);
      } else {
        WitnessedOrNew(ops, r, Roster(0, Draft, None, None, None), row) by { NothingToWitness(ops, r); }
      }
    }
  }

  lemma NothingToWitness(ops: seq<Timed>, r: int)
    ensures Witnessed(ops, r, Roster(0, Draft, None, None, None))
  {
  }

  lemma WitnessedOrNew(ops: seq<Timed>, r: int, was: Roster, row: Roster)
    requires ops != [] && Witnessed(ops, r, was)
    requires var x := ops[|ops| - 1];
      && (row.approvedAt.None? || (row.approvedAt == Some(x.now) && row.approvedBy.Some?
                                   && Approves(After(ops[..|ops| - 1]), x.op, r, row.approvedBy.value))
          || (row.approvedAt == was.approvedAt && row.approvedBy == was.approvedBy))
      && (row.sentAt.None? || (row.sentAt == Some(x.now) && Delivers(x.op, r)) || row.sentAt == was.sentAt)
    ensures Witnessed(ops, r, row)
  {
    hide Approves, Delivers, After;
    var i := |ops| - 1;
    if row.approvedAt.Some? && row.approvedBy.Some? && row.approvedAt == Some(ops[i].now)
       && Approves(After(ops[..i]), ops[i].op, r, row.approvedBy.value) {
      assert ApprovedThen(ops, i, r, row.approvedBy.value, row.approvedAt.value);
    }
    if row.sentAt.Some? && row.sentAt == Some(ops[i].now) && Delivers(ops[i].op, r) {
      assert DeliveredThen(ops, i, r, row.sentAt.value);
    }
  }

  // ---------------------------------------------------------------------------
  // Over runs: sessions and check-ins

  function CheckInAt(db: Db, id: nat): Option<CheckIn>
  {
    if id in db.checkIns then Some(db.checkIns[id]) else None
  }

  /** What the operation makes of the check-in with that number, or None within Some when it removes it. */
  function CheckInGiven(db: Db, op: Op, id: nat): Option<Option<CheckIn>>
  {
    match op
    case AddCheckIn(s, c) => if s in db.sessions && id == db.nextCheckIn then Some(Some(CheckIn(s, c))) else None
    case EditCheckIn(i, c) =>
      if i == id && i in db.checkIns then Some(Some(CheckIn(db.checkIns[i].session, c))) else None
    case RemoveCheckIn(i) => if i == id then Some(None) else None
    case _ => None
  }

  lemma CheckInsChange(db: Db, op: Op, now: int, id: nat)
    ensures CheckInAt(Apply(db, op, now).db, id)
         == if CheckInGiven(db, op, id).Some? then CheckInGiven(db, op, id).value else CheckInAt(db, id)
  {
    hide Credited;
  }

  ghost function LastCheckIn(ops: seq<Timed>, id: nat): Option<CheckIn>
    decreases |ops|
  {
    if ops == [] then None
    else
      var given := CheckInGiven(After(ops[..|ops| - 1]), ops[|ops| - 1].op, id);
      if given.Some? then given.value else LastCheckIn(ops[..|ops| - 1], id)
  }

  /** In every reachable state the check-ins are those added and not removed since, each under the callsign last
      given to it. */
  lemma {:induction false} CheckInsAreLastGiven(ops: seq<Timed>, id: nat)
    ensures CheckInAt(After(ops), id) == LastCheckIn(ops, id)
    decreases |ops|
  {
    hide Apply, CheckInAt, CheckInGiven;
    if ops == [] {
      assert CheckInAt(EMPTY, id) == None by { NoCheckIns(id); }
    } else {
      CheckInsAreLastGiven(ops[..|ops| - 1], id);
      CheckInsChange(After(ops[..|ops| - 1]), ops[|ops| - 1].op, ops[|ops| - 1].now, id);
    }
  }

  lemma NoCheckIns(id: nat)
    ensures CheckInAt(EMPTY, id) == None
  {
  }

  function StatusAt(db: Db, s: int): Option<(Option<int>, SessionStatus)>
  {
    if s in db.sessions then Some((db.sessions[s].net, db.sessions[s].status)) else None
  }

  /** The net and status the operation gives the session: scheduled when it is created, completed when it, or its
      draft roster, is approved. */
  function StatusGiven(db: Db, op: Op, s: int): Option<(Option<int>, SessionStatus)>
  {
    match op
    case CreateSession(net) => if s == db.nextSession then Some((net, Scheduled)) else None
    case SetSessionStatus(x, status) =>
      if x == s && s in db.sessions then Some((db.sessions[s].net, status)) else None
    case ApproveSession(x) => if x == s && s in db.sessions then Some((db.sessions[s].net, Completed)) else None
    case ApproveRoster(r, _) => CompletedBy(db, r, s)
    case Submit(r, _, _) => CompletedBy(db, r, s)
    case _ => None
  }

  function CompletedBy(db: Db, r: int, s: int): Option<(Option<int>, SessionStatus)>
  {
    if Is(db, r, Draft) && db.rosters[r].session == s && s in db.sessions then Some((db.sessions[s].net, Completed))
    else None
  }

  lemma StatusChanges(db: Db, op: Op, now: int, s: int)
    requires Consistent(db)
    ensures StatusAt(Apply(db, op, now).db, s)
         == if StatusGiven(db, op, s).Some? then StatusGiven(db, op, s) else StatusAt(db, s)
  {
    hide Apply, Consistent, OnlyRoster;
    match op {
      case ApproveSession(x) => SessionApproved(db, x, now);
      case ApproveRoster(r, who) => RosterApproved(db, r, who, now);
      case Submit(r, who, delivered) =>
        RosterSubmitted(db, r, who, delivered, now);
        PlainStatusChanges(db, MarkSent(r, delivered), now, s);
      case _ => PlainStatusChanges(db, op, now, s);
    }
  }

  lemma PlainStatusChanges(db: Db, op: Op, now: int, s: int)
    requires !op.ApproveSession? && !op.ApproveRoster? && !op.Submit?
    ensures StatusAt(Apply(db, op, now).db, s)
         == if StatusGiven(db, op, s).Some? then StatusGiven(db, op, s) else StatusAt(db, s)
  {
    hide FindRoster;
  }

  ghost function LastStatus(ops: seq<Timed>, s: int): Option<(Option<int>, SessionStatus)>
    decreases |ops|
  {
    if ops == [] then None
    else
      var given := StatusGiven(After(ops[..|ops| - 1]), ops[|ops| - 1].op, s);
      if given.Some? then given else LastStatus(ops[..|ops| - 1], s)
  }

  /** In every reachable state a session has the net it was created in and the status last given to it. */
  lemma {:induction false} StatusesAreLastGiven(ops: seq<Timed>, s: int)
    ensures StatusAt(After(ops), s) == LastStatus(ops, s)
    decreases |ops|
  {
    hide Apply, StatusAt, StatusGiven, Consistent;
    if ops == [] {
      assert StatusAt(EMPTY, s) == None by { NoSessions(s); }
    } else {
      var init := ops[..|ops| - 1];
      StatusesAreLastGiven(init, s);
      ReachableIsConsistent(init);
      StatusChanges(After(init), ops[|ops| - 1].op, ops[|ops| - 1].now, s);
    }
  }

  lemma NoSessions(s: int)
    ensures StatusAt(EMPTY, s) == None
  {
  }
}
