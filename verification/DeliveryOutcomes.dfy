/** What each reply leaves in a backend's row, and the way of a queued message from its dispatch until it has left
    the outbox. */
module DeliveryOutcomes {
  import opened PyText
  import opened Delivery

  // ---------------------------------------------------------------------------
  // A dispatch

  /** The row tells of a message queued under a MID, to be found when it leaves the outbox. */
  predicate IsQueued(row: Row, mid: Option<string>)
  {
    row.status.Queued? && row.patMid == mid && row.error == None && row.sentAt == None
  }

  predicate IsSent(row: Row, now: int)
  {
    row.status.Sent? && row.sentAt == Some(now) && row.error == None
  }

  predicate HasFailed(row: Row, error: Option<string>)
  {
    row.status.Failed? && row.error == error && row.sentAt == None
  }

  /** What becomes of a row whose backend was asked to send. */
  ghost predicate Tells(row: Row, backend: string, r: Reply, now: int)
  {
    && (r.Result? && r.success && r.queued ==> IsQueued(row, r.patMid))
    && (r.Result? && r.success && !r.queued ==> IsSent(row, now))
    && (r.Result? && !r.success ==> HasFailed(row, r.error))
    && (r.UnknownBackend? ==> HasFailed(row, Some("Unknown backend: " + backend)))
  }

  ghost predicate SomeRaise(replies: seq<Reply>, n: nat)
    requires n <= |replies|
  {
    exists i :: 0 <= i < n && replies[i].Raises?
  }

  /** A backend asked before any exception, and not asked again, leaves its row telling of its reply, created now;
      the MID and session of an earlier message stay unless this one was queued. */
  lemma {:induction false} DispatchTells(rows: Rows, content: Content, names: seq<string>, replies: seq<Reply>,
                                        now: int, i: nat, n: nat)
    requires i < n <= |names| == |replies| && !SomeRaise(replies, i + 1)
    requires forall j :: i < j < n ==> names[j] != names[i]
    ensures var k, after := Key(content, names[i]), AfterDispatch(rows, content, names, replies, now, n);
      && k in after && Tells(after[k], names[i], replies[i], now) && after[k].createdAt == now
      && ((forall j :: 0 <= j < i ==> names[j] != names[i]) ==>
            && after[k].patSession == (if k in rows then rows[k].patSession else None)
            && (after[k].status.Queued? || after[k].patMid == if k in rows then rows[k].patMid else None))
    decreases n
  {
    hide Tells, IsQueued, IsSent, HasFailed;
    if n > i + 1 {
      DispatchTells(rows, content, names, replies, now, i, n - 1);
    } else {
      var before, k := AfterDispatch(rows, content, names, replies, now, i), Key(content, names[i]);
      DispatchedTells(Reset(before, k, now), k, replies[i], now);
      if forall j :: 0 <= j < i ==> names[j] != names[i] {
        DispatchLeavesOthers(rows, content, names, replies, now, k, i);
      }
      assert !replies[i].Raises?;
    }
  }

  lemma DispatchedTells(row: Row, k: Key, r: Reply, now: int)
    requires !r.Raises? && row.error == None && row.sentAt == None
    ensures var d := Dispatched(row, k, r, now);
      && Tells(d, k.backend, r, now) && d.createdAt == row.createdAt && d.patSession == row.patSession
      && (d.status.Queued? || d.patMid == row.patMid)
  {
  }

  /** A row is as it was, or is still missing, unless its backend was asked about its content before any
      exception. */
  lemma {:induction false} DispatchLeavesOthers(rows: Rows, content: Content, names: seq<string>, replies: seq<Reply>,
                                               now: int, k: Key, n: nat)
    requires n <= |names| == |replies|
    requires k.content != content || forall i :: 0 <= i < n && names[i] == k.backend ==> SomeRaise(replies, i + 1)
    ensures var after := AfterDispatch(rows, content, names, replies, now, n);
      (k in after <==> k in rows) && (k in rows ==> after[k] == rows[k])
    decreases n
  {
    hide Dispatched, Reset;
    if n > 0 {
      DispatchLeavesOthers(rows, content, names, replies, now, k, n - 1);
      if k == Key(content, names[n - 1]) {
        assert SomeRaise(replies, n - 1 + 1);
      }
    }
  }

  // ---------------------------------------------------------------------------
  // A retry

  /** Of the rows asked again each tells of its backend's reply, but keeps what it told when the backend is unknown;
      the others are as they were. */
  lemma RetryTells(was: Rows, rows: Rows, content: Content, only: Option<set<string>>, asked: set<Key>,
                   replies: map<string, Reply>, now: int, k: Key)
    requires AllOk(was) && asked <= RetrySet(was, content, only) && RetriedRows(was, rows, asked, replies, now)
    requires k in was
    ensures k in rows && (k !in asked ==> rows[k] == was[k])
    ensures k in asked ==>
      var r := replies[k.backend];
      && was[k].status.Failed? && k.content == content && (only.Some? ==> k.backend in only.value)
      && (r.Result? ==> Tells(rows[k], k.backend, r, now)) && (!r.Result? ==> rows[k] == was[k])
      && rows[k].createdAt == was[k].createdAt && rows[k].patSession == was[k].patSession
      && (rows[k].status.Queued? || rows[k].patMid == was[k].patMid)
  {
    if k in asked {
      assert k in RetrySet(was, content, only);
      assert RowOk(was[k]);
    }
  }

  // ---------------------------------------------------------------------------
  // From the queue to the network

  predicate Redispatches(op: Op, k: Key)
  {
    op.DispatchOp? && op.content == k.content && k.backend in op.names
  }

  /** A reconcile that finds the message gone from the outbox. */
  predicate FindsGone(op: Op, mid: string)
  {
    op.ReconcileOp? && op.stillOut.Some? && mid !in op.stillOut.value
  }

  predicate Traceable(k: Key, row: Row, mid: string)
  {
    k.backend == "winlink" && row.status.Queued? && row.patMid == Some(mid) && mid != ""
  }

  lemma StepOfQueued(rows: Rows, op: Op, rows': Rows, k: Key, mid: string)
    requires AllOk(rows) && Step(rows, op, rows') && k in rows && !Redispatches(op, k)
    requires Traceable(k, rows[k], mid)
    ensures k in rows'
    ensures !FindsGone(op, mid) ==> rows'[k] == rows[k]
    ensures FindsGone(op, mid) ==>
      rows'[k] == rows[k].(status := Sent, sentAt := Some(op.now), patSession := Some(op.sessionId))
  {
    hide RowOk, Retried;
    match op {
      case DispatchOp(content, names, replies, now) =>
        DispatchLeavesOthers(rows, content, names, replies, now, k, |names|);
      case RetryOp(content, only, replies, asked, now) =>
        assert k !in RetrySet(rows, content, only);
      case ReconcileOp(stillOut, sessionId, now) =>
    }
  }

  lemma StepOfSent(rows: Rows, op: Op, rows': Rows, k: Key)
    requires AllOk(rows) && Step(rows, op, rows') && k in rows && !Redispatches(op, k) && rows[k].status.Sent?
    ensures k in rows' && rows'[k] == rows[k]
  {
    hide RowOk, Retried;
    match op {
      case DispatchOp(content, names, replies, now) =>
        DispatchLeavesOthers(rows, content, names, replies, now, k, |names|);
      case RetryOp(content, only, replies, asked, now) =>
        assert k !in RetrySet(rows, content, only);
      case ReconcileOp(stillOut, sessionId, now) =>
    }
  }

  /** The first reconcile from m on that finds the message gone. */
  ghost predicate FirstGone(ops: seq<Op>, mid: string, m: nat, i: nat)
  {
    m <= i < |ops| && FindsGone(ops[i], mid) && forall j :: m <= j < i ==> !FindsGone(ops[j], mid)
  }

  /** While it is not dispatched again, a queued Winlink message with a MID stays queued, its row untouched, until the
      first reconcile that does not find it in the outbox; that one sends it, and it stays sent. */
  lemma {:induction false} QueuedUntilGone(states: seq<Rows>, ops: seq<Op>, m: nat, n: nat, k: Key, mid: string)
    requires Run(states, ops) && m <= n <= |ops| && forall i :: m <= i < n ==> !Redispatches(ops[i], k)
    requires k in states[m] && Traceable(k, states[m][k], mid)
    ensures k in states[n]
    ensures (forall i :: m <= i < n ==> !FindsGone(ops[i], mid)) ==> states[n][k] == states[m][k]
    ensures forall i: nat :: i < n && FirstGone(ops, mid, m, i) ==>
      states[n][k] == states[m][k].(status := Sent, sentAt := Some(ops[i].now), patSession := Some(ops[i].sessionId))
    decreases n
  {
    hide Step, FindsGone, Redispatches, AllOk;
    if m < n {
      QueuedUntilGone(states, ops, m, n - 1, k, mid);
      RunKeepsRows(states, ops, n - 1);
      if forall i :: m <= i < n - 1 ==> !FindsGone(ops[i], mid) {
        StepOfQueued(states[n - 1], ops[n - 1], states[n], k, mid);
      } else {
        var i := FirstOf(ops, mid, m, n - 1);
        StepOfSent(states[n - 1], ops[n - 1], states[n], k);
      }
    }
  }

  lemma FirstOf(ops: seq<Op>, mid: string, m: nat, n: nat) returns (i: nat)
    requires m < n <= |ops| && exists j :: m <= j < n && FindsGone(ops[j], mid)
    ensures i < n && FirstGone(ops, mid, m, i)
    ensures forall j: nat :: FirstGone(ops, mid, m, j) ==> j == i
  {
    hide FindsGone;
    i := m;
    while !FindsGone(ops[i], mid)
      invariant m <= i < n && forall j :: m <= j < i ==> !FindsGone(ops[j], mid)
      decreases n - i
    {
      i := i + 1;
    }
  }

  /** The whole way of a message handed to Winlink: the dispatch that queues it leaves it QUEUED under its MID, it
      is found gone by the first reconcile after that whose outbox lacks the MID, and SENT from then on, unless it is
      dispatched again. */
  lemma QueuedIsSentOnceGone(states: seq<Rows>, ops: seq<Op>, m: nat, i: nat, n: nat)
    requires Run(states, ops) && m < n <= |ops| && ops[m].DispatchOp? && i < |ops[m].names| == |ops[m].replies|
    requires ops[m].names[i] == "winlink" && !SomeRaise(ops[m].replies, i + 1)
    requires forall j :: i < j < |ops[m].names| ==> ops[m].names[j] != "winlink"
    requires var r := ops[m].replies[i]; r.Result? && r.success && r.queued && r.patMid.Some? && r.patMid.value != ""
    requires forall j :: m < j < n ==> !Redispatches(ops[j], Key(ops[m].content, "winlink"))
    ensures var k, mid := Key(ops[m].content, "winlink"), ops[m].replies[i].patMid.value;
      && k in states[n]
      && ((forall j :: m < j < n ==> !FindsGone(ops[j], mid)) ==> IsQueued(states[n][k], Some(mid)))
      && (forall j: nat :: j < n && FirstGone(ops, mid, m + 1, j) ==>
            IsSent(states[n][k], ops[j].now) && states[n][k].patSession == Some(ops[j].sessionId))
  {
    hide AfterDispatch, FindsGone, Redispatches;
    var op := ops[m];
    var k, mid := Key(op.content, "winlink"), op.replies[i].patMid.value;
    assert Step(states[m], op, states[m + 1]);
    DispatchTells(states[m], op.content, op.names, op.replies, op.now, i, |op.names|);
    QueuedUntilGone(states, ops, m + 1, n, k, mid);
  }
}
