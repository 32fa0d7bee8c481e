/** The delivery log: one row per piece of content and backend, holding the latest attempt. */
module Delivery {
  import opened PyText

  datatype Status = Pending | Queued | Sent | Failed

  datatype Row = Row(
    status: Status, error: Option<string>, sentAt: Option<int>, createdAt: int,
    patMid: Option<string>, patSession: Option<int>)

  type Content = (string, int)              // (content type, content id)
  datatype Key = Key(content: Content, backend: string)
  type Rows = map<Key, Row>

  /** What asking a backend to send comes to. `Raises` is an exception the dispatcher does not catch. */
  datatype Reply =
    | UnknownBackend
    | Result(success: bool, queued: bool, patMid: Option<string>, error: Option<string>)
    | Raises

  predicate Succeeds(r: Reply) { r.Result? && r.success }

  function Reset(rows: Rows, k: Key, now: int): Row
  {
    if k in rows then rows[k].(status := Pending, error := None, sentAt := None, createdAt := now)
    else Row(Pending, None, None, now, None, None)
  }

  function Dispatched(row: Row, k: Key, r: Reply, now: int): Row
    requires !r.Raises?
  {
    match r
    case UnknownBackend => row.(status := Failed, error := Some("Unknown backend: " + k.backend))
    case Result(success, queued, patMid, error) =>
      if success && queued then row.(status := Queued, patMid := patMid, error := None)
      else if success then row.(status := Sent, sentAt := Some(now))
      else row.(status := Failed, error := error)
  }

  /** The committed rows after the first n backends were asked; a raised exception ends the loop and
      rolls its own row back. */
  function AfterDispatch(rows: Rows, content: Content, names: seq<string>, replies: seq<Reply>, now: int, n: nat): Rows
    requires n <= |names| == |replies|
  {
    if n == 0 then rows
    else
      var before := AfterDispatch(rows, content, names, replies, now, n - 1);
      var k := Key(content, names[n - 1]);
      if exists i :: 0 <= i < n && replies[i].Raises? then before
      else before[k := Dispatched(Reset(before, k, now), k, replies[n - 1], now)]
  }

  function Retried(row: Row, r: Reply, now: int): Row
  {
    match r
    case UnknownBackend => row
    case Raises => row
    case Result(success, queued, patMid, error) =>
      if success && queued then row.(status := Queued, patMid := patMid, error := None)
      else if success then row.(status := Sent, sentAt := Some(now), error := None)
      else row.(error := error)
  }

  /** The rows a retry asks again. */
  predicate ToRetry(rows: Rows, k: Key, content: Content, only: Option<set<string>>)
  {
    k in rows && k.content == content && rows[k].status.Failed? && (only.Some? ==> k.backend in only.value)
  }

  function RetrySet(rows: Rows, content: Content, only: Option<set<string>>): (r: set<Key>)
    ensures r <= rows.Keys && forall k :: k in r <==> ToRetry(rows, k, content, only)
  {
    set k | k in rows && ToRetry(rows, k, content, only)
  }

  /** The rows a reconcile flips: queued Winlink messages that have left the outbox. */
  predicate LeftOutbox(rows: Rows, k: Key, stillOut: set<string>)
  {
    && k in rows && k.backend == "winlink" && rows[k].status.Queued?
    && rows[k].patMid.Some? && rows[k].patMid.value != "" && rows[k].patMid.value !in stillOut
  }

  function Flipped(row: Row, sessionId: int, now: int): Row
  {
    row.(status := Sent, sentAt := Some(now), patSession := Some(sessionId))
  }

  function Reconciled(rows: Rows, stillOut: Option<set<string>>, sessionId: int, now: int): Rows
  {
    map k | k in rows ::
      if stillOut.Some? && LeftOutbox(rows, k, stillOut.value) then Flipped(rows[k], sessionId, now) else rows[k]
  }

  /** Exactly the asked rows hold their backend's reply. */
  ghost predicate RetriedRows(was: Rows, rows: Rows, asked: set<Key>, replies: map<string, Reply>, now: int)
  {
    && rows.Keys == was.Keys
    && (forall k :: k in asked ==> k.backend in replies)
    && forall k :: k in was ==> rows[k] == if k in asked then Retried(was[k], replies[k.backend], now) else was[k]
  }

  ghost predicate SomeSucceeded(asked: set<Key>, replies: map<string, Reply>)
  {
    exists k :: k in asked && k.backend in replies && Succeeds(replies[k.backend])
  }

  lemma NothingRetried(rows: Rows, replies: map<string, Reply>, now: int)
    ensures RetriedRows(rows, rows, {}, replies, now) && !SomeSucceeded({}, replies)
  {
  }

  lemma RetryStep(was: Rows, rows: Rows, asked: set<Key>, replies: map<string, Reply>, now: int, k: Key)
    requires RetriedRows(was, rows, asked, replies, now) && k in was && k !in asked && k.backend in replies
    ensures k in rows
    ensures RetriedRows(was, rows[k := Retried(rows[k], replies[k.backend], now)], asked + {k}, replies, now)
    ensures SomeSucceeded(asked + {k}, replies) <==> SomeSucceeded(asked, replies) || Succeeds(replies[k.backend])
  {
    hide Retried;
    if SomeSucceeded(asked, replies) {
      var w :| w in asked && w.backend in replies && Succeeds(replies[w.backend]);
      assert w in asked + {k};
    }
    if Succeeds(replies[k.backend]) {
      assert k in asked + {k};
    }
  }

  datatype Finish = Done(anySuccess: bool) | Raised

  class Log {
    var rows: Rows

    constructor ()
      ensures rows == map[]
    {
      rows := map[];
    }

    method Dispatch(content: Content, names: seq<string>, replies: seq<Reply>, now: int) returns (r: Finish)
      requires |names| == |replies|
      modifies this
      ensures rows == AfterDispatch(old(rows), content, names, replies, now, |names|)
      ensures r.Raised? <==> exists i :: 0 <= i < |replies| && replies[i].Raises?
      ensures r.Done? ==> (r.anySuccess <==> exists i :: 0 <= i < |replies| && Succeeds(replies[i]))
    {
      hide Reset, Dispatched;
      var anySuccess := false;
      for i := 0 to |names|
        invariant rows == AfterDispatch(old(rows), content, names, replies, now, i)
        invariant forall j :: 0 <= j < i ==> !replies[j].Raises?
        invariant anySuccess <==> exists j :: 0 <= j < i && Succeeds(replies[j])
      {
        var k := Key(content, names[i]);
        var log := Reset(rows, k, now);
        if replies[i].Raises? {
          StopsAfterRaise(old(rows), content, names, replies, now, i, |names|);
          return Raised;
        }
        rows := rows[k := Dispatched(log, k, replies[i], now)];
        if Succeeds(replies[i]) {
          anySuccess := true;
        }
      }
      r := Done(anySuccess);
    }

    /** `asked` are the rows whose backend was asked before any exception. */
    method RetryFailed(content: Content, only: Option<set<string>>, replies: map<string, Reply>, now: int)
        returns (r: Finish, asked: set<Key>)
      requires forall k :: k in RetrySet(rows, content, only) ==> k.backend in replies
      modifies this
      ensures RetriedRows(old(rows), rows, asked, replies, now) && asked <= RetrySet(old(rows), content, only)
      ensures r.Done? ==> asked == RetrySet(old(rows), content, only) && r.anySuccess == SomeSucceeded(asked, replies)
      ensures r.Raised? ==> exists k :: k in RetrySet(old(rows), content, only) && replies[k.backend].Raises?
    {
      hide Retried, RetriedRows, SomeSucceeded, Succeeds, ToRetry, RetrySet;
      var failed := RetrySet(rows, content, only);
      ghost var was, all := rows, failed;
      var anySuccess := false;
      asked := {};
      NothingRetried(rows, replies, now);
      while failed != {}
        invariant asked + failed == all && asked !! failed && RetriedRows(was, rows, asked, replies, now)
        invariant anySuccess <==> SomeSucceeded(asked, replies)
        decreases |failed|
      {
        var k :| k in failed;
        assert k in RetrySet(was, content, only);
        var reply := replies[k.backend];
        if reply.Raises? {
          return Raised, asked;
        }
        RetryStep(was, rows, asked, replies, now, k);
        rows := rows[k := Retried(rows[k], reply, now)];
        if Succeeds(reply) {
          anySuccess := true;
        }
        asked, failed := asked + {k}, failed - {k};
      }
      r := Done(anySuccess);
    }

    /** `stillOut` is None when PAT could not be asked. */
    method ReconcileOutbound(stillOut: Option<set<string>>, sessionId: int, now: int) returns (flipped: nat)
      modifies this
      ensures rows == Reconciled(old(rows), stillOut, sessionId, now)
      ensures flipped ==
        if stillOut.None? then 0 else |set k | k in old(rows) && LeftOutbox(old(rows), k, stillOut.value)|
    {
      if stillOut.None? {
        return 0;
      }
      hide Flipped;
      var queued := set k | k in rows && k.backend == "winlink" && rows[k].status.Queued?;
      ghost var was := rows;
      ghost var done: set<Key> := {};
      flipped := 0;
      while queued != {}
        invariant rows.Keys == was.Keys
        invariant forall k :: k in was && LeftOutbox(was, k, stillOut.value) ==> k in queued || k in done
        invariant forall k :: k in queued ==> k in was && k.backend == "winlink" && was[k].status.Queued? && k !in done
        invariant forall k :: k in done ==> k in was && LeftOutbox(was, k, stillOut.value)
        invariant forall k :: k in was ==> rows[k] == if k in done then Flipped(was[k], sessionId, now) else was[k]
        invariant flipped == |done|
        decreases |queued|
      {
        var k :| k in queued;
        var row := rows[k];
        if row.patMid.Some? && row.patMid.value != "" && row.patMid.value !in stillOut.value {
          rows := rows[k := Flipped(row, sessionId, now)];
          flipped := flipped + 1;
          done := done + {k};
        }
        queued := queued - {k};
      }
      assert done == set k | k in was && LeftOutbox(was, k, stillOut.value);
    }
  }

  lemma {:induction false} StopsAfterRaise(rows: Rows, content: Content, names: seq<string>, replies: seq<Reply>,
                                          now: int, i: nat, n: nat)
    requires i < n <= |names| == |replies| && replies[i].Raises?
    ensures AfterDispatch(rows, content, names, replies, now, n) == AfterDispatch(rows, content, names, replies, now, i)
    decreases n
  {
    hide Dispatched, Reset;
    if n > i + 1 {
      StopsAfterRaise(rows, content, names, replies, now, i, n - 1);
    }
  }

  // ---------------------------------------------------------------------------
  // What every committed row keeps

  predicate RowOk(r: Row)
  {
    && !r.status.Pending?
    && (r.sentAt.Some? <==> r.status.Sent?)
    && (r.status.Sent? || r.status.Queued? ==> r.error.None?)
  }

  ghost predicate AllOk(rows: Rows)
  {
    forall k :: k in rows ==> RowOk(rows[k])
  }

  lemma {:induction false} DispatchKeepsRows(rows: Rows, content: Content, names: seq<string>, replies: seq<Reply>,
                                            now: int, n: nat)
    requires n <= |names| == |replies| && AllOk(rows)
    ensures AllOk(AfterDispatch(rows, content, names, replies, now, n))
    decreases n
  {
    if n > 0 {
      DispatchKeepsRows(rows, content, names, replies, now, n - 1);
    }
  }

  lemma RetryKeepsRow(row: Row, r: Reply, now: int)
    requires RowOk(row) && row.status.Failed?
    ensures RowOk(Retried(row, r, now))
  {
  }

  lemma ReconcileKeepsRows(rows: Rows, stillOut: Option<set<string>>, sessionId: int, now: int)
    requires AllOk(rows)
    ensures AllOk(Reconciled(rows, stillOut, sessionId, now))
    ensures Reconciled(rows, stillOut, sessionId, now).Keys == rows.Keys
  {
  }

  datatype Op =
    | DispatchOp(content: Content, names: seq<string>, replies: seq<Reply>, now: int)
    | RetryOp(content: Content, only: Option<set<string>>, byBackend: map<string, Reply>, asked: set<Key>, now: int)
    | ReconcileOp(stillOut: Option<set<string>>, sessionId: int, now: int)

  ghost predicate Step(rows: Rows, op: Op, rows': Rows)
  {
    match op
    case DispatchOp(content, names, replies, now) =>
      |names| == |replies| && rows' == AfterDispatch(rows, content, names, replies, now, |names|)
    case RetryOp(content, only, replies, asked, now) =>
      asked <= RetrySet(rows, content, only) && RetriedRows(rows, rows', asked, replies, now)
    case ReconcileOp(stillOut, sessionId, now) => rows' == Reconciled(rows, stillOut, sessionId, now)
  }

  lemma StepKeepsRows(rows: Rows, op: Op, rows': Rows)
    requires AllOk(rows) && Step(rows, op, rows')
    ensures AllOk(rows') && rows.Keys <= rows'.Keys
  {
    hide RowOk, Retried, Dispatched, Reset;
    match op {
      case DispatchOp(content, names, replies, now) =>
        DispatchKeepsRows(rows, content, names, replies, now, |names|);
        DispatchAddsOnly(rows, content, names, replies, now, |names|);
      case RetryOp(content, only, replies, asked, now) =>
        forall k | k in rows'
          ensures RowOk(rows'[k])
        {
          if k in asked {
            assert k in RetrySet(rows, content, only);
            RetryKeepsRow(rows[k], replies[k.backend], now);
          }
        }
      case ReconcileOp(stillOut, sessionId, now) => ReconcileKeepsRows(rows, stillOut, sessionId, now);
    }
  }

  lemma {:induction false} DispatchAddsOnly(rows: Rows, content: Content, names: seq<string>, replies: seq<Reply>,
                                           now: int, n: nat)
    requires n <= |names| == |replies|
    ensures rows.Keys <= AfterDispatch(rows, content, names, replies, now, n).Keys
    decreases n
  {
    hide Dispatched, Reset;
    if n > 0 {
      DispatchAddsOnly(rows, content, names, replies, now, n - 1);
    }
  }

  ghost predicate Run(states: seq<Rows>, ops: seq<Op>)
  {
    && |states| == |ops| + 1 && states[0] == map[]
    && forall i :: 0 <= i < |ops| ==> Step(states[i], ops[i], states[i + 1])
  }

  /** Across any mix of dispatches, retries and reconciles no committed row is PENDING, `sent_at` is set
      exactly on SENT rows, SENT and QUEUED rows carry no error, and no row is ever lost. */
  lemma {:induction false} RunKeepsRows(states: seq<Rows>, ops: seq<Op>, n: nat)
    requires Run(states, ops) && n <= |ops|
    ensures AllOk(states[n])
    ensures n > 0 ==> states[n - 1].Keys <= states[n].Keys
  {
    hide Step;
    if n > 0 {
      RunKeepsRows(states, ops, n - 1);
      StepKeepsRows(states[n - 1], ops[n - 1], states[n]);
    }
  }

  // ---------------------------------------------------------------------------
  // What the dispatcher's answer says about the rows

  predicate Distinct(names: seq<string>)
  {
    forall i, j :: 0 <= i < j < |names| ==> names[i] != names[j]
  }

  predicate Delivered(rows: Rows, content: Content, name: string)
  {
    Key(content, name) in rows && (rows[Key(content, name)].status.Sent? || rows[Key(content, name)].status.Queued?)
  }

  /** Some of the backends' rows ends SENT or QUEUED. */
  ghost predicate SomeDelivered(rows: Rows, content: Content, names: seq<string>)
  {
    exists i :: 0 <= i < |names| && Delivered(rows, content, names[i])
  }

  predicate NoneRaises(replies: seq<Reply>)
  {
    forall i :: 0 <= i < |replies| ==> !replies[i].Raises?
  }

  /** The i-th name's row holds the i-th reply, if that name does not come again. */
  lemma {:induction false} LastReplyStands(rows: Rows, content: Content, names: seq<string>, replies: seq<Reply>,
                                          now: int, i: nat, n: nat)
    requires i < n <= |names| == |replies| && NoneRaises(replies)
    requires forall j :: i < j < n ==> names[j] != names[i]
    ensures Delivered(AfterDispatch(rows, content, names, replies, now, n), content, names[i]) <==> Succeeds(replies[i])
    decreases n
  {
    hide Reset;
    if n > i + 1 {
      LastReplyStands(rows, content, names, replies, now, i, n - 1);
    }
  }

  /** With distinct backend names, some backend succeeded exactly when some row ends SENT or QUEUED. */
  lemma AnswerMatchesRows(rows: Rows, content: Content, names: seq<string>, replies: seq<Reply>, now: int)
    requires |names| == |replies| && NoneRaises(replies) && Distinct(names)
    ensures (exists i :: 0 <= i < |replies| && Succeeds(replies[i]))
       <==> SomeDelivered(AfterDispatch(rows, content, names, replies, now, |names|), content, names)
  {
    hide AfterDispatch, Delivered, Succeeds;
    forall i | 0 <= i < |names|
      ensures Delivered(AfterDispatch(rows, content, names, replies, now, |names|), content, names[i])
         <==> Succeeds(replies[i])
    {
      LastReplyStands(rows, content, names, replies, now, i, |names|);
    }
  }

  const REFUSED := Result(false, false, None, None)

  /** When a name comes twice there are replies for which the answer is true and every row FAILED. */
  lemma RepeatedNameMisleads(rows: Rows, content: Content, names: seq<string>, i: nat, j: nat, now: int)
      returns (replies: seq<Reply>)
    requires i < j < |names| && names[i] == names[j]
    ensures |replies| == |names| && NoneRaises(replies) && Succeeds(replies[i])
    ensures forall m :: 0 <= m < |names| ==>
      !Delivered(AfterDispatch(rows, content, names, replies, now, |names|), content, names[m])
  {
    hide AfterDispatch, Delivered;
    replies := seq(|names|, m => if m == i then Result(true, false, None, None) else REFUSED);
    forall m | 0 <= m < |names|
      ensures !Delivered(AfterDispatch(rows, content, names, replies, now, |names|), content, names[m])
    {
      var last := LastOccurrence(names, m);
      assert last != i;
      LastReplyStands(rows, content, names, replies, now, last, |names|);
    }
  }

  lemma LastOccurrence(names: seq<string>, m: nat) returns (last: nat)
    requires m < |names|
    ensures m <= last < |names| && names[last] == names[m] && forall j :: last < j < |names| ==> names[j] != names[m]
  {
    last := |names| - 1;
    while names[last] != names[m]
      invariant m <= last < |names| && forall j :: last < j < |names| ==> names[j] != names[m]
      decreases last
    {
      last := last - 1;
    }
  }

  ghost predicate AnswerTrusted(rows: Rows, content: Content, names: seq<string>, now: int)
  {
    forall replies: seq<Reply> | |replies| == |names| && NoneRaises(replies) ::
      (exists i :: 0 <= i < |replies| && Succeeds(replies[i]))
      <==> SomeDelivered(AfterDispatch(rows, content, names, replies, now, |names|), content, names)
  }

  /** The answer can be read off the rows, whatever the backends reply, exactly when no name repeats. */
  lemma AnswerTrustedExactly(rows: Rows, content: Content, names: seq<string>, now: int)
    ensures AnswerTrusted(rows, content, names, now) <==> Distinct(names)
  {
    hide AfterDispatch, Delivered, Succeeds;
    if Distinct(names) {
      forall replies: seq<Reply> | |replies| == |names| && NoneRaises(replies)
        ensures (exists i :: 0 <= i < |replies| && Succeeds(replies[i]))
          <==> SomeDelivered(AfterDispatch(rows, content, names, replies, now, |names|), content, names)
      {
        AnswerMatchesRows(rows, content, names, replies, now);
      }
    } else {
      var i, j :| 0 <= i < j < |names| && names[i] == names[j];
      var replies := RepeatedNameMisleads(rows, content, names, i, j, now);
    }
  }
}
