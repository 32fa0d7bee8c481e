/** Member totals over whole runs: each session is counted once, with the check-ins it had when it was
    first finalised, whatever mix of approvals, submissions, retries, skips and edits follows. */
module FinalisationLaws {
  import opened PyText
  import opened Finalisation

  // ---------------------------------------------------------------------------
  // What every operation keeps

  predicate SessionFinalized(db: Db, s: int) { s in db.sessions && db.sessions[s].finalizedAt.Some? }

  /** A roster that has been approved has a finalised session, and its dates go with its status. */
  ghost predicate RosterOk(db: Db, r: Roster)
  {
    && r.session in db.sessions
    && (r.approvedAt.Some? ==> SessionFinalized(db, r.session))
    && (r.approvedAt.Some? <==> r.approvedBy.Some?)
    && (r.status.Draft? ==> r.approvedAt.None?)
    && (r.status.Approved? || r.status.Sent? ==> r.approvedAt.Some?)
    && (r.status.Sent? <==> r.sentAt.Some?)
  }

  ghost predicate RostersOk(db: Db) { forall r :: r in db.rosters ==> r < db.nextRoster && RosterOk(db, db.rosters[r]) }

  ghost predicate TablesOk(db: Db)
  {
    && (forall s :: s in db.sessions ==> s < db.nextSession)
    && (forall id :: id in db.checkIns ==> id < db.nextCheckIn && db.checkIns[id].session in db.sessions)
  }

  ghost predicate Consistent(db: Db) { TablesOk(db) && RostersOk(db) && OneRosterEach(db) }

  /** Sessions stay, keep their net, and keep the time they were finalised. */
  ghost predicate SessionsKept(db: Db, db': Db)
  {
    forall s :: s in db.sessions ==>
      && s in db'.sessions && db'.sessions[s].net == db.sessions[s].net
      && (db.sessions[s].finalizedAt.Some? ==> db'.sessions[s].finalizedAt == db.sessions[s].finalizedAt)
  }

  lemma RostersSurvive(db: Db, db': Db)
    requires RostersOk(db) && OneRosterEach(db) && SessionsKept(db, db')
    requires db'.rosters == db.rosters && db'.nextRoster == db.nextRoster
    ensures RostersOk(db') && OneRosterEach(db')
  {
  }

  /** One roster row is written anew. */
  lemma RosterWritten(db: Db, db': Db, r: int, roster: Roster)
    requires RostersOk(db) && OneRosterEach(db) && SessionsKept(db, db') && r in db.rosters
    requires db'.rosters == db.rosters[r := roster] && db'.nextRoster == db.nextRoster
    requires RosterOk(db', roster) && roster.session == db.rosters[r].session
    ensures RostersOk(db') && OneRosterEach(db')
  {
  }

  lemma ApproveSessionKeeps(db: Db, s: int, now: int)
    requires Consistent(db)
    ensures Consistent(ApprovedSession(db, s, now)) && SessionsKept(db, ApprovedSession(db, s, now))
    ensures s in db.sessions ==> SessionFinalized(ApprovedSession(db, s, now), s)
  {
    hide Credited;
    RostersSurvive(db, ApprovedSession(db, s, now));
  }

  lemma ApproveRosterKeeps(db: Db, r: int, approver: string, now: int)
    requires Consistent(db)
    ensures var db' := ApprovedRoster(db, r, approver, now).db; Consistent(db') && SessionsKept(db, db')
  {
    hide ApprovedSession;
    if Is(db, r, Draft) {
      var s := db.rosters[r].session;
      ApproveSessionKeeps(db, s, now);
      var mid := ApprovedSession(db, s, now);
      ApproveSessionSame(db, s, now);
      var roster := db.rosters[r].(status := Approved, approvedBy := Some(approver), approvedAt := Some(now));
      RosterWritten(mid, ApprovedRoster(db, r, approver, now).db, r, roster);
    }
  }

  lemma ApproveSessionSame(db: Db, s: int, now: int)
    ensures var db' := ApprovedSession(db, s, now);
      && db'.rosters == db.rosters && db'.checkIns == db.checkIns && db'.nextSession == db.nextSession
      && db'.nextCheckIn == db.nextCheckIn && db'.nextRoster == db.nextRoster
  {
    hide Credited;
  }

  lemma MarkSentKeeps(db: Db, r: int, delivered: bool, now: int)
    requires Consistent(db)
    ensures var db' := MarkedSent(db, r, delivered, now).db; Consistent(db') && SessionsKept(db, db')
  {
    var db' := MarkedSent(db, r, delivered, now).db;
    if db' != db {
      RosterWritten(db, db', r, db'.rosters[r]);
    }
  }

  lemma RosterStatusKeeps(db: Db, op: Op, now: int)
    requires Consistent(db) && (op.Resend? || op.Skip?)
    ensures var db' := Apply(db, op, now).db; Consistent(db') && SessionsKept(db, db')
  {
    var db' := Apply(db, op, now).db;
    if db' != db {
      RosterWritten(db, db', op.r, db'.rosters[op.r]);
    }
  }

  lemma DraftKeeps(db: Db, s: int, haveTemplate: bool)
    requires Consistent(db)
    ensures var db' := GeneratedDraft(db, s, haveTemplate).db; Consistent(db') && SessionsKept(db, db')
  {
    var found := FindRoster(db, s);
    var db' := GeneratedDraft(db, s, haveTemplate).db;
    if found.Some? {
      if db' != db {
        RosterWritten(db, db', found.value, FreshRoster(s));
      }
    } else {
      forall id | id in db.rosters
        ensures db.rosters[id].session != s
      {
        assert !RosterOf(db, s, id);
      }
    }
  }

  /** Every operation keeps the tables consistent, and never drops a session or reopens its count. */
  lemma ApplyKeeps(db: Db, op: Op, now: int)
    requires Consistent(db)
    ensures Consistent(Apply(db, op, now).db) && SessionsKept(db, Apply(db, op, now).db)
  {
    hide ApprovedSession, ApprovedRoster, MarkedSent, GeneratedDraft, Resent, SkippedRoster, RosterOk;
    match op {
      case ApproveSession(s) => ApproveSessionKeeps(db, s, now);
      case GenerateDraft(s, haveTemplate) => DraftKeeps(db, s, haveTemplate);
      case ApproveRoster(r, approver) => ApproveRosterKeeps(db, r, approver, now);
      case MarkSent(r, delivered) => MarkSentKeeps(db, r, delivered, now);
      case Submit(r, approver, delivered) =>
        ApproveRosterKeeps(db, r, approver, now);
        MarkSentKeeps(db, r, delivered, now);
        MarkSentKeeps(ApprovedRoster(db, r, approver, now).db, r, delivered, now);
      case Resend(_, _) => RosterStatusKeeps(db, op, now);
      case Skip(_) => RosterStatusKeeps(db, op, now);
      case _ => PlainKeeps(db, op, now);
    }
  }

  lemma PlainKeeps(db: Db, op: Op, now: int)
    requires Consistent(db)
    requires op.CreateSession? || op.SetSessionStatus? || op.AddCheckIn? || op.EditCheckIn? || op.RemoveCheckIn?
      || op.EditDraft? || op.DeleteRoster?
    ensures Consistent(Apply(db, op, now).db) && SessionsKept(db, Apply(db, op, now).db)
  {
    hide RostersOk, OneRosterEach, TablesOk, SessionsKept;
    if op.DeleteRoster? {
      DeleteKeeps(db, op.r);
    } else {
      PlainTables(db, op, now);
      RostersSurvive(db, Apply(db, op, now).db);
    }
  }

  lemma DeleteKeeps(db: Db, r: int)
    requires Consistent(db)
    ensures Consistent(DeletedRoster(db, r).db) && SessionsKept(db, DeletedRoster(db, r).db)
  {
  }

  lemma PlainTables(db: Db, op: Op, now: int)
    requires TablesOk(db)
    requires op.CreateSession? || op.SetSessionStatus? || op.AddCheckIn? || op.EditCheckIn? || op.RemoveCheckIn?
      || op.EditDraft?
    ensures var db' := Apply(db, op, now).db;
      TablesOk(db') && SessionsKept(db, db') && db'.rosters == db.rosters && db'.nextRoster == db.nextRoster
  {
  }

  lemma {:induction false} ReachableIsConsistent(ops: seq<Timed>)
    ensures Consistent(After(ops))
  {
    hide Consistent, Apply;
    if ops == [] {
      EmptyIsConsistent();
    } else {
      ReachableIsConsistent(ops[..|ops| - 1]);
      ApplyKeeps(After(ops[..|ops| - 1]), ops[|ops| - 1].op, ops[|ops| - 1].now);
    }
  }

  lemma EmptyIsConsistent()
    ensures Consistent(EMPTY)
  {
  }

  /** In every reachable state a roster that is approved or sent, or has been since it was last drafted, has a
      finalised session. */
  lemma ApprovedRostersAreFinalized(ops: seq<Timed>, r: int)
    requires r in After(ops).rosters
    ensures var db := After(ops);
      && (db.rosters[r].status.Approved? || db.rosters[r].status.Sent? || db.rosters[r].approvedAt.Some? ==>
            SessionFinalized(db, db.rosters[r].session))
      && (db.rosters[r].status.Sent? <==> db.rosters[r].sentAt.Some?)
      && forall q :: RosterOf(db, db.rosters[r].session, q) ==> q == r
  {
    ReachableIsConsistent(ops);
  }

  // ---------------------------------------------------------------------------
  // The finalisations of a run

  /** A session's first finalisation: when, and the state it was finalised in. */
  datatype Closing = Closing(session: int, at: int, db: Db)

  ghost predicate Closes(db: Db, db': Db, s: int) { SessionFinalized(db', s) && !SessionFinalized(db, s) }

  ghost function History(ops: seq<Timed>): seq<Closing>
  {
    if ops == [] then []
    else
      var before, last := ops[..|ops| - 1], ops[|ops| - 1];
      if exists s :: Closes(After(before), After(ops), s) then
        var s :| Closes(After(before), After(ops), s);
        History(before) + [Closing(s, last.now, After(before))]
      else History(before)
  }

  /** The session's check-ins under a callsign, of those with ids below n. */
  function Below(db: Db, s: int, c: string, n: nat): set<nat>
  {
    set id: nat | id < n && id in db.checkIns && db.checkIns[id] == CheckIn(s, c)
  }

  function CheckInsOf(db: Db, s: int, c: string): set<nat>
  {
    set id | id in db.checkIns && db.checkIns[id] == CheckIn(s, c)
  }

  /** What a finalisation adds to the member (net, c). */
  function Adds(x: Closing, net: int, c: string): nat
  {
    if x.session in x.db.sessions && x.db.sessions[x.session].net == Some(net) && c != "" then
      |CheckInsOf(x.db, x.session, c)|
    else 0
  }

  function Sum(history: seq<Closing>, net: int, c: string): nat
  {
    if history == [] then 0 else Sum(history[..|history| - 1], net, c) + Adds(history[|history| - 1], net, c)
  }

  /** The member record after k more check-ins. */
  function Bump(m: Option<Member>, k: nat, now: int): Option<Member>
  {
    if k == 0 then m
    else if m.None? then Some(Member(k, now, now))
    else Some(Member(m.value.total + k, m.value.firstCheckIn, now))
  }

  function Lookup(members: map<(int, string), Member>, net: int, c: string): Option<Member>
  {
    if (net, c) in members then Some(members[(net, c)]) else None
  }

  lemma BelowSnoc(db: Db, s: int, c: string, n: nat)
    requires c != ""
    ensures |Below(db, s, c, n + 1)| ==
      |Below(db, s, c, n)| + if Counts(db, s, n) && db.checkIns[n].callsign == c then 1 else 0
  {
    if Counts(db, s, n) && db.checkIns[n].callsign == c {
      assert Below(db, s, c, n + 1) == Below(db, s, c, n) + {n};
    } else {
      assert Below(db, s, c, n + 1) == Below(db, s, c, n);
    }
  }

  lemma CreditLooksUp(members: map<(int, string), Member>, net: int, c: string, now: int, net': int, c': string)
    ensures Lookup(Credit(members, net, c, now), net', c') ==
      Bump(Lookup(members, net', c'), if net == net' && c == c' then 1 else 0, now)
  {
  }

  /** Crediting check-in by check-in adds, for each callsign, the number of its check-ins. */
  lemma {:induction false} CreditedLooksUp(db: Db, s: int, n: nat, now: int, net: int, c: string)
    requires s in db.sessions
    ensures Lookup(Credited(db, s, n, now), net, c) ==
      Bump(Lookup(db.members, net, c),
           if db.sessions[s].net == Some(net) && c != "" then |Below(db, s, c, n)| else 0, now)
  {
    hide Below, Credit, Lookup;
    if n == 0 {
      NoneBelow(db, s, c);
    } else {
      CreditedLooksUp(db, s, n - 1, now, net, c);
      if c != "" {
        BelowSnoc(db, s, c, n - 1);
      }
      if Counts(db, s, n - 1) && db.sessions[s].net.Some? {
        CreditLooksUp(
          Credited(db, s, n - 1, now), db.sessions[s].net.value, db.checkIns[n - 1].callsign, now, net, c);
      }
    }
  }

  lemma NoneBelow(db: Db, s: int, c: string)
    ensures |Below(db, s, c, 0)| == 0
  {
    assert Below(db, s, c, 0) == {};
  }

  lemma AllBelow(db: Db, s: int, c: string)
    requires TablesOk(db)
    ensures Below(db, s, c, db.nextCheckIn) == CheckInsOf(db, s, c)
  {
  }

  /** The session an operation finalises, if any. */
  function Target(db: Db, op: Op): Option<int>
  {
    match op
    case ApproveSession(s) => Some(s)
    case ApproveRoster(r, _) => if Is(db, r, Draft) then Some(db.rosters[r].session) else None
    case Submit(r, _, _) => if Is(db, r, Draft) then Some(db.rosters[r].session) else None
    case _ => None
  }

  /** Members change only together with a session's first finalisation. */
  lemma MembersChange(db: Db, op: Op, now: int)
    requires Consistent(db)
    ensures
      var db' := Apply(db, op, now).db;
      var target := Target(db, op);
      && (forall s :: Closes(db, db', s) <==> target == Some(s) && s in db.sessions && db.sessions[s].finalizedAt.None?)
      && (forall s :: Closes(db, db', s) ==>
            s in db.sessions && db'.members == Credited(db, s, db.nextCheckIn, now)
            && db'.sessions[s].finalizedAt == Some(now))
      && ((forall s :: !Closes(db, db', s)) ==> db'.members == db.members)
  {
    hide Credited, RostersOk, OneRosterEach, TablesOk;
    var db' := Apply(db, op, now).db;
    var target := Target(db, op);
    if target.Some? {
      ApproveSessionSame(db, target.value, now);
    }
    SameSessions(db, op, now);
  }

  lemma SameSessions(db: Db, op: Op, now: int)
    requires Consistent(db)
    ensures var db' := Apply(db, op, now).db;
      && (Target(db, op).Some? ==>
            var a := ApprovedSession(db, Target(db, op).value, now);
            db'.sessions == a.sessions && db'.members == a.members)
      && (Target(db, op).None? ==>
            && db'.members == db.members
            && forall s :: SessionFinalized(db', s) <==> SessionFinalized(db, s))
  {
    hide Credited, ApprovedSession, RostersOk, OneRosterEach;
    if op.Submit? && Is(db, op.r, Draft) {
      var mid := ApprovedRoster(db, op.r, op.approver, now).db;
      assert MarkedSent(mid, op.r, op.delivered, now).db.members == mid.members;
    }
  }

  // ---------------------------------------------------------------------------
  // Conservation

  /** The member record the finalisations amount to. */
  function Expected(history: seq<Closing>, net: int, c: string): Option<Member>
  {
    if history == [] then None
    else
      var last := history[|history| - 1];
      Bump(Expected(history[..|history| - 1], net, c), Adds(last, net, c), last.at)
  }

  lemma HistoryStep(ops: seq<Timed>)
    requires ops != []
    ensures var before, db, db' := ops[..|ops| - 1], After(ops[..|ops| - 1]), After(ops);
      && ((forall s :: !Closes(db, db', s)) ==> History(ops) == History(before) && db'.members == db.members)
      && (forall s :: Closes(db, db', s) ==>
            && History(ops) == History(before) + [Closing(s, ops[|ops| - 1].now, db)]
            && s in db.sessions && db'.members == Credited(db, s, db.nextCheckIn, ops[|ops| - 1].now)
            && db'.sessions[s].finalizedAt == Some(ops[|ops| - 1].now))
  {
    hide Apply, Credited, Closes, Consistent;
    var db, x := After(ops[..|ops| - 1]), ops[|ops| - 1];
    ReachableIsConsistent(ops[..|ops| - 1]);
    MembersChange(db, x.op, x.now);
    assert After(ops) == Apply(db, x.op, x.now).db;
    if s :| Closes(db, After(ops), s) {
      assert Target(db, x.op) == Some(s);
    } else {
      forall s
        ensures !Closes(db, Apply(db, x.op, x.now).db, s)
      {
      }
    }
  }

  /** In every reachable state each member's record is the one its net's finalisations amount to. */
  lemma {:induction false} MemberRecords(ops: seq<Timed>, net: int, c: string)
    ensures Lookup(After(ops).members, net, c) == Expected(History(ops), net, c)
  {
    hide Apply, Credited, Closes, Lookup, Adds, Bump, Consistent, After, History;
    if ops == [] {
      NoMembers(net, c);
    } else {
      var before := ops[..|ops| - 1];
      MemberRecords(before, net, c);
      HistoryStep(ops);
      var db := After(before);
      if s :| Closes(db, After(ops), s) {
        var now := ops[|ops| - 1].now;
        CreditedLooksUp(db, s, db.nextCheckIn, now, net, c);
        ClosingAdds(before, s, now, net, c);
        ExpectedSnoc(History(before), Closing(s, now, db), net, c);
      }
    }
  }

  lemma NoMembers(net: int, c: string)
    ensures Lookup(After([]).members, net, c) == Expected(History([]), net, c)
  {
  }

  lemma ClosingAdds(ops: seq<Timed>, s: int, now: int, net: int, c: string)
    requires s in After(ops).sessions
    ensures var db := After(ops);
      Adds(Closing(s, now, db), net, c) ==
      if db.sessions[s].net == Some(net) && c != "" then |Below(db, s, c, db.nextCheckIn)| else 0
  {
    hide Below, CheckInsOf;
    ReachableIsConsistent(ops);
    AllBelow(After(ops), s, c);
  }

  lemma ExpectedSnoc(history: seq<Closing>, x: Closing, net: int, c: string)
    ensures Expected(history + [x], net, c) == Bump(Expected(history, net, c), Adds(x, net, c), x.at)
  {
    assert (history + [x])[..|history|] == history;
  }

  lemma {:induction false} ExpectedTotal(history: seq<Closing>, net: int, c: string)
    ensures var m := Expected(history, net, c);
      if m.None? then Sum(history, net, c) == 0 else m.value.total == Sum(history, net, c) > 0
  {
    hide Adds;
    if history != [] {
      ExpectedTotal(history[..|history| - 1], net, c);
    }
  }

  /** Conservation: a callsign is a member of a net exactly when some finalised session of the net had a
      check-in of it, and its total is the number of its check-ins summed over those sessions, each as it
      was when first finalised. */
  lemma MemberTotals(ops: seq<Timed>, net: int, c: string)
    ensures var members, sum := After(ops).members, Sum(History(ops), net, c);
      && ((net, c) in members <==> sum > 0)
      && ((net, c) in members ==> members[(net, c)].total == sum)
  {
    hide Sum, Expected, After, History;
    MemberRecords(ops, net, c);
    ExpectedTotal(History(ops), net, c);
  }

  /** A member's dates are those of the first and the last finalisation that counted the callsign. */
  lemma {:induction false} ExpectedDates(history: seq<Closing>, net: int, c: string) returns (first: int, last: int)
    requires Expected(history, net, c).Some?
    ensures 0 <= first <= last < |history|
    ensures Expected(history, net, c).value.firstCheckIn == history[first].at
    ensures Expected(history, net, c).value.lastCheckIn == history[last].at
    ensures forall i :: 0 <= i < |history| && Adds(history[i], net, c) > 0 ==> first <= i <= last
    ensures Adds(history[first], net, c) > 0 && Adds(history[last], net, c) > 0
  {
    hide Adds;
    var init, n := history[..|history| - 1], |history| - 1;
    forall i | 0 <= i < n
      ensures init[i] == history[i]
    {
    }
    if Expected(init, net, c).Some? {
      first, last := ExpectedDates(init, net, c);
      if Adds(history[n], net, c) > 0 {
        last := n;
      }
    } else {
      first, last := n, n;
      forall i | 0 <= i < n
        ensures Adds(history[i], net, c) == 0
      {
        NothingAdded(init, net, c, i);
      }
    }
  }

  lemma {:induction false} NothingAdded(history: seq<Closing>, net: int, c: string, i: nat)
    requires Expected(history, net, c).None? && i < |history|
    ensures Adds(history[i], net, c) == 0
  {
    hide Adds;
    if i < |history| - 1 {
      NothingAdded(history[..|history| - 1], net, c, i);
    }
  }

  /** A closing of the run: its state is the one just before the operation that finalised the session. */
  ghost predicate Happened(ops: seq<Timed>, x: Closing)
  {
    exists k :: 0 <= k < |ops| && x == Closing(x.session, ops[k].now, After(ops[..k]))
             && Closes(After(ops[..k]), After(ops[..k + 1]), x.session)
  }

  lemma HappenedLater(ops: seq<Timed>, x: Closing)
    requires ops != [] && Happened(ops[..|ops| - 1], x)
    ensures Happened(ops, x)
  {
    hide Closes, After;
    var before := ops[..|ops| - 1];
    var k :| 0 <= k < |before| && x == Closing(x.session, before[k].now, After(before[..k]))
      && Closes(After(before[..k]), After(before[..k + 1]), x.session);
    assert before[..k] == ops[..k] && before[..k + 1] == ops[..k + 1] && before[k] == ops[k];
  }

  lemma JustHappened(ops: seq<Timed>, s: int)
    requires ops != [] && Closes(After(ops[..|ops| - 1]), After(ops), s)
    ensures Happened(ops, Closing(s, ops[|ops| - 1].now, After(ops[..|ops| - 1])))
  {
    hide Closes, After;
    assert ops[..|ops|] == ops;
    var k := |ops| - 1;
    assert Closes(After(ops[..k]), After(ops[..k + 1]), s);
  }

  /** The history lists every finalised session once, as it was when it was first finalised. */
  lemma {:induction false} EachSessionOnce(ops: seq<Timed>)
    ensures forall x :: x in History(ops) ==> Happened(ops, x)
    ensures forall s ::
      SessionFinalized(After(ops), s) <==> exists i :: 0 <= i < |History(ops)| && History(ops)[i].session == s
    ensures forall i, j :: 0 <= i < j < |History(ops)| ==> History(ops)[i].session != History(ops)[j].session
  {
    hide Happened, After, History;
    if ops == [] {
      NothingFinalized();
    } else {
      var before := ops[..|ops| - 1];
      EachSessionOnce(before);
      HistoryStep(ops);
      FinalizedStays(ops);
      forall x | x in History(before)
        ensures Happened(ops, x)
      {
        HappenedLater(ops, x);
      }
      if s :| Closes(After(before), After(ops), s) {
        JustHappened(ops, s);
        assert History(ops)[|History(before)|].session == s;
        assert forall i :: 0 <= i < |History(before)| ==> History(ops)[i] == History(before)[i];
      }
    }
  }

  lemma NothingFinalized()
    ensures History([]) == [] && forall s :: !SessionFinalized(After([]), s)
  {
  }

  lemma FinalizedStays(ops: seq<Timed>)
    requires ops != []
    ensures forall s :: SessionFinalized(After(ops[..|ops| - 1]), s) ==> SessionFinalized(After(ops), s)
  {
    hide Apply, Consistent;
    ReachableIsConsistent(ops[..|ops| - 1]);
    ApplyKeeps(After(ops[..|ops| - 1]), ops[|ops| - 1].op, ops[|ops| - 1].now);
  }

  /** What was finalised at some point of a run is finalised, since the same moment, from then on. */
  lemma {:induction false} FinalizedForGood(ops: seq<Timed>, k: nat, s: int)
    requires k <= |ops| && SessionFinalized(After(ops[..k]), s)
    ensures SessionFinalized(After(ops), s)
    ensures After(ops).sessions[s].finalizedAt == After(ops[..k]).sessions[s].finalizedAt
    decreases |ops|
  {
    hide Apply, Consistent, After;
    if k == |ops| {
      assert ops[..k] == ops;
    } else {
      var init, x := ops[..|ops| - 1], ops[|ops| - 1];
      assert init[..k] == ops[..k];
      FinalizedForGood(init, k, s);
      ReachableIsConsistent(init);
      ApplyKeeps(After(init), x.op, x.now);
      LastStep(ops);
    }
  }

  lemma LastStep(ops: seq<Timed>)
    requires ops != []
    ensures After(ops) == Apply(After(ops[..|ops| - 1]), ops[|ops| - 1].op, ops[|ops| - 1].now).db
  {
    hide Apply;
  }

  /** A session whose roster is approved or sent at any point of a run is finalised at the end of it and was
      by then, whatever became of the roster: skipped, drafted anew, rendered again or deleted. */
  lemma OnceApprovedIsFinalized(ops: seq<Timed>, k: nat, r: int)
    requires k <= |ops| && r in After(ops[..k]).rosters
    requires After(ops[..k]).rosters[r].status.Approved? || After(ops[..k]).rosters[r].status.Sent?
    ensures var s := After(ops[..k]).rosters[r].session;
      && SessionFinalized(After(ops[..k]), s) && SessionFinalized(After(ops), s)
      && After(ops).sessions[s].finalizedAt == After(ops[..k]).sessions[s].finalizedAt
  {
    hide Apply, After;
    ApprovedRostersAreFinalized(ops[..k], r);
    FinalizedForGood(ops, k, After(ops[..k]).rosters[r].session);
  }
}
