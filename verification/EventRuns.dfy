/** Over whole runs: what the operations accepted so far make of a participant's post, an event's status and
    the table of posts. */
module EventRuns {
  import opened PyText
  import opened Events
  import opened EventLaws
  import opened EventEffects
  import opened EventHistory

  ghost predicate Accepted(ops: seq<Timed>, i: nat)
    requires i < |ops|
  {
    Apply(After(ops[..i]), ops[i].op, ops[i].now).result.Ok?
  }

  lemma AfterLast(ops: seq<Timed>)
    requires ops != []
    ensures var init, x := ops[..|ops| - 1], ops[|ops| - 1];
      After(ops) == if Accepted(ops, |ops| - 1) then Apply(After(init), x.op, x.now).db else After(init)
  {
    hide Apply, Consistent;
    var init, x := ops[..|ops| - 1], ops[|ops| - 1];
    ReachableIsConsistent(init);
    ApplyKeeps(After(init), x.op, x.now);
  }

  // ---------------------------------------------------------------------------
  // Where a participant stands

  /** The post the operation names for the participant, or None within Some when it clears it. */
  function PostGiven(op: Op, pid: int, e: int, callsign: string): Option<Option<int>>
  {
    match op
    case CheckIn(e', c, at) => if e' == e && c == callsign && at.Some? then Some(at) else None
    case UpdateParticipant(_, p, _, change, _) =>
      if p != pid || change.SamePost? then None else Some(if change.Assign? then Some(change.post) else None)
    case _ => None
  }

  /** The post last named, or cleared, by an accepted operation. */
  ghost function LastPostGiven(ops: seq<Timed>, pid: int, e: int, callsign: string): Option<int>
    decreases |ops|
  {
    if ops == [] then None
    else
      var given := PostGiven(ops[|ops| - 1].op, pid, e, callsign);
      if Accepted(ops, |ops| - 1) && given.Some? then given.value
      else LastPostGiven(ops[..|ops| - 1], pid, e, callsign)
  }

  lemma OthersKeepParticipants(db: Db, op: Op, now: int)
    requires !op.CheckIn? && !op.UpdateParticipant?
    ensures Apply(db, op, now).db.participants == db.participants
  {
    hide RoutedTo, Find;
  }

  /** An accepted operation that names or clears a participant's post leaves it there, with that post. */
  lemma GivenLeaves(db: Db, op: Op, now: int, pid: int, e: int, callsign: string)
    requires Consistent(db) && Apply(db, op, now).result.Ok? && PostGiven(op, pid, e, callsign).Some?
    ensures var db' := Apply(db, op, now).db;
      || (exists p :: IsParticipant(db', e, callsign, p))
      || pid in db'.participants
    ensures var db' := Apply(db, op, now).db;
      IsParticipant(db', e, callsign, pid) ==> db'.participants[pid].postId == PostGiven(op, pid, e, callsign).value
  {
    hide Consistent, Apply, Wrote;
    match op {
      case CheckIn(_, _, at) =>
        var p := CheckInLeaves(db, e, callsign, at, now);
        assert IsParticipant(Apply(db, op, now).db, e, callsign, p);
      case UpdateParticipant(e', _, status, change, location) =>
        PatchLeaves(db, e', pid, status, change, location, now);
      case _ =>
    }
  }

  /** Any other accepted operation leaves a participant where it was, and a newcomer at no post. */
  lemma NotGivenLeaves(db: Db, op: Op, now: int, pid: int, e: int, callsign: string)
    requires Consistent(db) && Apply(db, op, now).result.Ok? && PostGiven(op, pid, e, callsign).None?
    ensures var db' := Apply(db, op, now).db;
      IsParticipant(db', e, callsign, pid) ==>
        if IsParticipant(db, e, callsign, pid) then db'.participants[pid].postId == db.participants[pid].postId
        else
          && db'.participants[pid].postId == None && pid !in db.participants
          && forall p :: !IsParticipant(db, e, callsign, p)
  {
    hide Consistent, Apply;
    match op {
      case CheckIn(e', c, at) =>
        var p := CheckInLeaves(db, e', c, at, now);
        var db' := Apply(db, op, now).db;
        assert IsParticipant(db', e', c, p);
        if pid != p {
          assert IsParticipant(db', e, callsign, pid) ==> IsParticipant(db, e, callsign, pid);
        }
      case UpdateParticipant(e', p, status, change, location) =>
        PatchLeaves(db, e', p, status, change, location, now);
      case _ => OthersKeepParticipants(db, op, now);
    }
  }

  /** A participant stays what it is. */
  lemma ParticipantStays(db: Db, op: Op, now: int, pid: int)
    requires Consistent(db) && pid in db.participants && Apply(db, op, now).result.Ok?
    ensures var row := db.participants[pid];
      IsParticipant(Apply(db, op, now).db, row.eventId, row.callsign, pid)
  {
    hide Consistent, Apply;
    match op {
      case CheckIn(e, c, at) =>
        var p := CheckInLeaves(db, e, c, at, now);
      case UpdateParticipant(e, p, status, change, location) =>
        PatchLeaves(db, e, p, status, change, location, now);
      case _ => OthersKeepParticipants(db, op, now);
    }
  }

  /** Nobody by that callsign or that number yet: no accepted operation has named a post for them. */
  lemma {:induction false} NobodyGiven(ops: seq<Timed>, pid: int, e: int, callsign: string)
    requires pid !in After(ops).participants && forall p :: !IsParticipant(After(ops), e, callsign, p)
    ensures LastPostGiven(ops, pid, e, callsign) == None
    decreases |ops|
  {
    hide Consistent, Apply, PostGiven, After;
    if ops != [] {
      var init, x := ops[..|ops| - 1], ops[|ops| - 1];
      AfterLast(ops);
      ReachableIsConsistent(init);
      var db := After(init);
      assert ops[..|ops| - 1] == init;
      if Accepted(ops, |ops| - 1) {
        if PostGiven(x.op, pid, e, callsign).Some? {
          GivenLeaves(db, x.op, x.now, pid, e, callsign);
        }
        forall p | p in db.participants
          ensures p != pid && !IsParticipant(db, e, callsign, p)
        {
          ParticipantStays(db, x.op, x.now, p);
        }
      }
      NobodyGiven(init, pid, e, callsign);
    }
  }

  /** In every reachable state a participant is at the post that the last accepted check-in or PATCH of it to name
      or clear one gave it, and at none if there was no such operation. */
  lemma {:induction false} PostIsLastGiven(ops: seq<Timed>, pid: int)
    requires pid in After(ops).participants
    ensures var row := After(ops).participants[pid];
      row.postId == LastPostGiven(ops, pid, row.eventId, row.callsign)
    decreases |ops|
  {
    hide Consistent, Apply, PostGiven;
    if ops != [] {
      var init, x := ops[..|ops| - 1], ops[|ops| - 1];
      AfterLast(ops);
      ReachableIsConsistent(init);
      var db := After(init);
      var row := After(ops).participants[pid];
      var e, c := row.eventId, row.callsign;
      if !Accepted(ops, |ops| - 1) {
        PostIsLastGiven(init, pid);
      } else if PostGiven(x.op, pid, e, c).Some? {
        GivenLeaves(db, x.op, x.now, pid, e, c);
      } else {
        NotGivenLeaves(db, x.op, x.now, pid, e, c);
        if IsParticipant(db, e, c, pid) {
          PostIsLastGiven(init, pid);
        } else {
          NobodyGiven(init, pid, e, c);
        }
      }
    }
  }

  // ---------------------------------------------------------------------------
  // An event's status

  /** The status and closing time the operation gives the event. */
  function LifecycleGiven(op: Op, e: int): Option<(EventStatus, Option<int>)>
  {
    match op
    case Activate(e') => if e' == e then Some((Active, None)) else None
    case Close(e', at) => if e' == e then Some((Closed, Some(at))) else None
    case Reopen(e') => if e' == e then Some((Active, None)) else None
    case _ => None
  }

  ghost function LastLifecycle(ops: seq<Timed>, e: int): (EventStatus, Option<int>)
    decreases |ops|
  {
    if ops == [] then (Draft, None)
    else
      var given := LifecycleGiven(ops[|ops| - 1].op, e);
      if Accepted(ops, |ops| - 1) && given.Some? then given.value else LastLifecycle(ops[..|ops| - 1], e)
  }

  function LifecycleOf(ev: Event): (EventStatus, Option<int>) { (ev.status, ev.closedAt) }

  /** Activating needs a draft, closing an active event, reopening a closed one. */
  lemma LifecycleAnswers(db: Db, op: Op, now: int)
    requires op.Activate? || op.Close? || op.Reopen?
    ensures var from := if op.Activate? then Draft else if op.Close? then Active else Closed;
      && (Apply(db, op, now).result == Ok <==> HasStatus(db, op.e, from))
      && (Apply(db, op, now).result == Refused(InvalidLifecycle) <==> !HasStatus(db, op.e, from))
  {
  }

  /** A change of status changes that event's status and closing time and logs one plain entry; posts,
      participants, messages and other events stay as they are. */
  lemma LifecycleLeaves(db: Db, op: Op, now: int, e: int)
    requires Consistent(db) && Apply(db, op, now).result.Ok? && LifecycleGiven(op, e).Some?
    ensures var db' := Apply(db, op, now).db;
      && e in db.events && e in db'.events && db'.events == db.events[e := db'.events[e]]
      && db'.posts == db.posts && db'.participants == db.participants
      && var ev, ev' := db.events[e], db'.events[e];
      && LifecycleOf(ev') == LifecycleGiven(op, e).value && ev'.messages == ev.messages
      && ev'.log == ev.log + [LogEntry(|ev.log| + 1, System, None, None, false, now)]
  {
    hide LogOk;
    OneEventOk(db, e);
  }

  lemma RoutedKeepsStatus(db: Db, accepts: map<int, string>, mail: seq<Mail>, rawIds: map<string, int>,
                          reached: map<int, nat>, now: int, e: int)
    requires e in db.events
    ensures var db' := MailRouted(db, accepts, mail, rawIds, reached, now);
      e in db'.events && db'.events[e].status == db.events[e].status
  {
    hide RoutedTo;
  }

  lemma OthersKeepStatus(db: Db, op: Op, now: int, e: int)
    requires Consistent(db) && Apply(db, op, now).result.Ok? && LifecycleGiven(op, e).None?
    ensures var db' := Apply(db, op, now).db;
      e in db'.events ==> if e in db.events then db'.events[e].status == db.events[e].status
                          else db'.events[e].status == Draft
  {
    hide Consistent, Find, StatusPatched, PostPatched, Noted;
    match op {
      case CheckIn(e', c, at) =>
        var p := CheckInLeaves(db, e', c, at, now);
      case UpdateParticipant(e', p, status, change, location) =>
        PatchLeaves(db, e', p, status, change, location, now);
      case RouteMail(accepts, mail, rawIds, reached) =>
        if e in db.events {
          RoutedKeepsStatus(db, accepts, mail, rawIds, reached, now, e);
        }
      case CreateEvent => NewEventKeeps(db, now);
      case _ =>
    }
  }

  /** A closed event's closing time changes only with its status. */
  lemma OthersKeepLifecycle(db: Db, op: Op, now: int, e: int)
    requires Consistent(db) && Apply(db, op, now).result.Ok? && LifecycleGiven(op, e).None?
    ensures var db' := Apply(db, op, now).db;
      e in db'.events ==> if e in db.events then LifecycleOf(db'.events[e]) == LifecycleOf(db.events[e])
                          else LifecycleOf(db'.events[e]) == (Draft, None)
  {
    hide Consistent, Apply, LogOk, MessagesOk;
    OthersKeepStatus(db, op, now, e);
    ApplyKeeps(db, op, now);
    var db' := Apply(db, op, now).db;
    if e in db'.events {
      OneEventOk(db', e);
      if e in db.events {
        OneEventOk(db, e);
        if db.events[e].status.Closed? {
          ClosedIsFrozen(db, op, now, e);
        }
      }
    }
  }

  lemma EventsStay(db: Db, op: Op, now: int)
    requires Consistent(db)
    ensures db.events.Keys <= Apply(db, op, now).db.events.Keys
    ensures !op.CreateEvent? ==> Apply(db, op, now).db.events.Keys == db.events.Keys
  {
    hide Consistent, Find, StatusPatched, PostPatched, Noted;
    match op {
      case UpdateParticipant(e, p, status, change, location) =>
        if UpdatedParticipant(db, e, p, status, change, location, now).result.Ok? {
          PatchLeaves(db, e, p, status, change, location, now);
        }
      case RouteMail(accepts, mail, rawIds, reached) => RoutedKeepsEvents(db, accepts, mail, rawIds, reached, now);
      case _ =>
    }
  }

  lemma RoutedKeepsEvents(db: Db, accepts: map<int, string>, mail: seq<Mail>, rawIds: map<string, int>,
                          reached: map<int, nat>, now: int)
    ensures MailRouted(db, accepts, mail, rawIds, reached, now).events.Keys == db.events.Keys
  {
    hide RoutedTo;
  }

  lemma {:induction false} NoEventYet(ops: seq<Timed>, e: int)
    requires e !in After(ops).events
    ensures LastLifecycle(ops, e) == (Draft, None)
    decreases |ops|
  {
    hide Consistent, Apply, After;
    if ops != [] {
      var init, x := ops[..|ops| - 1], ops[|ops| - 1];
      AfterLast(ops);
      ReachableIsConsistent(init);
      EventsStay(After(init), x.op, x.now);
      if Accepted(ops, |ops| - 1) && LifecycleGiven(x.op, e).Some? {
        LifecycleLeaves(After(init), x.op, x.now, e);
        assert false;
      }
      NoEventYet(init, e);
    }
  }

  /** In every reachable state an event has the status, and the closing time, that the last accepted change of its
      status gave it; it is a draft until then. */
  lemma {:induction false} StatusIsLastGiven(ops: seq<Timed>, e: int)
    requires e in After(ops).events
    ensures LifecycleOf(After(ops).events[e]) == LastLifecycle(ops, e)
    decreases |ops|
  {
    hide Consistent, Apply, LifecycleOf, LifecycleGiven;
    if ops != [] {
      var init, x := ops[..|ops| - 1], ops[|ops| - 1];
      AfterLast(ops);
      ReachableIsConsistent(init);
      var db := After(init);
      if !Accepted(ops, |ops| - 1) {
        StatusIsLastGiven(init, e);
      } else if LifecycleGiven(x.op, e).Some? {
        LifecycleLeaves(db, x.op, x.now, e);
      } else {
        OthersKeepLifecycle(db, x.op, x.now, e);
        if e in db.events {
          StatusIsLastGiven(init, e);
        } else {
          NoEventYet(init, e);
        }
      }
    }
  }

  // ---------------------------------------------------------------------------
  // The table of posts

  function PostAt(db: Db, p: int): Option<Post> { if p in db.posts then Some(db.posts[p]) else None }

  /** What the operation makes of the post with that number, or None within Some when it removes it; a new post
      gets the next number. */
  function NameGiven(db: Db, op: Op, p: int): Option<Option<Post>>
  {
    match op
    case CreatePost(e, name) => if p == db.nextPost then Some(Some(Post(e, name))) else None
    case UpdatePost(e, q, name) => if q == p && name.Some? then Some(Some(Post(e, name.value))) else None
    case DeletePost(_, q) => if q == p then Some(None) else None
    case _ => None
  }

  ghost function LastName(ops: seq<Timed>, p: int): Option<Post>
    decreases |ops|
  {
    if ops == [] then None
    else
      var given := NameGiven(After(ops[..|ops| - 1]), ops[|ops| - 1].op, p);
      if Accepted(ops, |ops| - 1) && given.Some? then given.value else LastName(ops[..|ops| - 1], p)
  }

  /** Another post of the event has the name given. */
  ghost predicate Duplicates(db: Db, op: Op)
    requires op.CreatePost? || op.UpdatePost? || op.DeletePost?
  {
    exists p :: p in db.posts && db.posts[p].eventId == op.e && match op
      case CreatePost(_, name) => db.posts[p].name == name
      case UpdatePost(_, post, name) => p != post && name == Some(db.posts[p].name)
      case _ => false
  }

  /** Some participant, of whatever event, is at the post to be deleted. */
  ghost predicate StillAssigned(db: Db, op: Op)
  {
    op.DeletePost? && exists p :: p in db.participants && db.participants[p].postId == Some(op.post)
  }

  lemma PostAnswers(db: Db, op: Op, now: int)
    requires op.CreatePost? || op.UpdatePost? || op.DeletePost?
    ensures var r := Apply(db, op, now).result;
      var own := op.CreatePost? || PostIn(db, op.e, op.post);
      && (r == Refused(NotActive) <==> !Open(db, op.e))
      && (r == Missing <==> Open(db, op.e) && !own)
      && (r == Refused(DuplicatePost) <==> Open(db, op.e) && own && Duplicates(db, op))
      && (r == Refused(PostAssigned) <==> Open(db, op.e) && own && StillAssigned(db, op))
      && (r == Ok || r == Missing
          || r == Refused(NotActive) || r == Refused(DuplicatePost) || r == Refused(PostAssigned))
  {
  }

  lemma PostsChange(db: Db, op: Op, now: int, p: int)
    requires Consistent(db) && Apply(db, op, now).result.Ok?
    ensures PostAt(Apply(db, op, now).db, p)
         == if NameGiven(db, op, p).Some? then NameGiven(db, op, p).value else PostAt(db, p)
  {
    hide Consistent, Find, RoutedTo;
  }

  /** In every reachable state the posts are those created and not deleted since, each in the event it was created
      in and under the name last given to it. */
  lemma {:induction false} PostsAreLastGiven(ops: seq<Timed>, p: int)
    ensures PostAt(After(ops), p) == LastName(ops, p)
    decreases |ops|
  {
    hide Consistent, Apply, PostAt, NameGiven;
    if ops != [] {
      var init, x := ops[..|ops| - 1], ops[|ops| - 1];
      AfterLast(ops);
      ReachableIsConsistent(init);
      PostsAreLastGiven(init, p);
      if Accepted(ops, |ops| - 1) {
        PostsChange(After(init), x.op, x.now, p);
      }
    } else {
      assert PostAt(EMPTY, p) == None by { NoPosts(p); }
    }
  }

  lemma NoPosts(p: int)
    ensures PostAt(EMPTY, p) == None
  {
  }
}
