/** What the rows of an import say, field by field, and what the tables keep over any run of imports. */
module CheckInRows {
  import opened PyText
  import opened CheckInImport
  import opened CheckInLaws
  import opened CheckInPhases

  /** Every raw row is stored under its own message id. */
  ghost predicate RawsOk(t: Tables) { Keyed(t.raws) }

  ghost predicate Keyed(raws: map<string, Raw>) { forall id :: id in raws ==> raws[id].mail.messageId == id }

  /** Message i of those imported is stored, parsed: as it was stored before, or as it came. */
  ghost predicate StoredAs(t: Tables, raws: map<string, Raw>, ms: seq<Mail>, i: nat)
    requires i < |ms|
  {
    var id := ms[i].messageId;
    id in raws && raws[id] == Raw(if id in t.raws then t.raws[id].mail else ms[i], true)
  }

  lemma StepStores(t: Tables, scan: Scan, p: Progress, ms: seq<Mail>, m: Mail)
    requires !p.clashed && !Step(t, scan, p, m).clashed && !Done(t, m.messageId)
    requires forall i :: 0 <= i < |ms| ==> StoredAs(t, p.tables.raws, ms, i)
    ensures forall i :: 0 <= i <= |ms| ==> StoredAs(t, Step(t, scan, p, m).tables.raws, ms + [m], i)
  {
    hide CheckInFor, Without;
    var raws := Step(t, scan, p, m).tables.raws;
    forall i | 0 <= i <= |ms|
      ensures StoredAs(t, raws, ms + [m], i)
    {
      if i < |ms| {
        assert StoredAs(t, p.tables.raws, ms, i);
      }
    }
  }

  lemma {:induction false} StepsStore(t: Tables, scan: Scan, ms: seq<Mail>)
    requires NoneDone(t, ms) && !Steps(t, scan, ms).clashed
    ensures forall i :: 0 <= i < |ms| ==> StoredAs(t, Steps(t, scan, ms).tables.raws, ms, i)
  {
    hide Step, Done, StoredAs;
    if ms != [] {
      var init, m := ms[..|ms| - 1], ms[|ms| - 1];
      assert ms == init + [m];
      StaysClashed(t, scan, Steps(t, scan, init), m);
      assert forall i :: 0 <= i < |init| ==> init[i] == ms[i];
      StepsStore(t, scan, init);
      StepStores(t, scan, Steps(t, scan, init), init, m);
    }
  }

  lemma ImportStores(t: Tables, scan: Scan, batch: seq<Mail>, i: nat)
    requires Scanned(t, scan, batch).Imported? && i < |ByTime(NotDone(t, batch))|
    ensures var m := ByTime(NotDone(t, batch))[i];
      && m in batch && !Done(t, m.messageId)
      && StoredAs(t, Scanned(t, scan, batch).tables.raws, ByTime(NotDone(t, batch)), i)
  {
    hide NotDone, ByTime, Steps, StoredAs;
    var ms := ByTime(NotDone(t, batch));
    NoneDoneByTime(t, batch);
    StepsStore(t, scan, ms);
    SortKeeps(NotDone(t, batch), ms[i]);
  }

  /** A message in time is ON_TIME; of the others those before the start are EARLY and those after the end are
      LATE, whatever the grace period, in any session that does not end before it starts. */
  predicate TimedRight(s: Session, at: int, timing: Timing)
  {
    && (timing == OnTime <==> s.start <= at && (s.end.Some? ==> at <= s.end.value))
    && (s.end.None? || s.start <= s.end.value ==>
          (timing == Early <==> at < s.start) && (timing == Late <==> s.end.Some? && at > s.end.value))
  }

  /** In a session that ends before it starts a message between the two is LATE exactly when it comes within the
      grace period after the end and not within the one before the start. */
  lemma TimingExactly(s: Session, at: int)
    ensures TimedRight(s, at, ClassifyTiming(s, at))
    ensures s.end.Some? && s.end.value < at < s.start ==>
      (ClassifyTiming(s, at) == Late <==> at < s.start - s.grace && at <= s.end.value + s.grace)
  {
  }

  /** Every row an import adds says of one message of the batch, not imported before, what its stored text says: in
      the scan's session, under its id, as it reads, timed by its reception, and new exactly when it has a
      callsign that the net, if it is known, does not know. */
  lemma ImportedRowsSay(t: Tables, scan: Scan, batch: seq<Mail>, k: int) returns (m: Mail)
    requires Valid(t) && RawsOk(t) && Scanned(t, scan, batch).Imported?
    requires k in Scanned(t, scan, batch).tables.checkIns && k !in t.checkIns
    ensures m in batch && !Done(t, m.messageId) && Done(Scanned(t, scan, batch).tables, m.messageId)
    ensures var o := Scanned(t, scan, batch);
      var row, stored := o.tables.checkIns[k], o.tables.raws[m.messageId].mail;
      && stored == (if m.messageId in t.raws then t.raws[m.messageId].mail else m)
      && row.session == scan.session.id && row.messageId == m.messageId && row.reading == scan.read(stored)
      && (row.newMember <==>
            row.reading.callsign != "" && scan.members.Some? && row.reading.callsign !in scan.members.value)
      && TimedRight(scan.session, stored.receivedAt, row.timing)
  {
    hide NotDone, ByTime, Scanned, ClassifyTiming;
    var ms := ByTime(NotDone(t, batch));
    ImportExactly(t, scan, batch);
    var i := k - t.nextId;
    m := ms[i];
    ImportStores(t, scan, batch, i);
    TimingExactly(scan.session, AsStored(t, m).receivedAt);
  }

  // ---------------------------------------------------------------------------
  // Any run of scans

  /** A scan while no session is open stores its messages; otherwise it imports them. */
  datatype Op = Store(batch: seq<Mail>) | Import(scan: Scan, batch: seq<Mail>)

  function Apply(t: Tables, op: Op): Tables
  {
    match op
    case Store(batch) => Persisted(t, batch)
    case Import(scan, batch) => Scanned(t, scan, batch).tables
  }

  const EMPTY := Tables(map[], map[], 1)

  function After(ops: seq<Op>): Tables
  {
    if ops == [] then EMPTY else Apply(After(ops[..|ops| - 1]), ops[|ops| - 1])
  }

  lemma {:induction false} RowsStored(raws: map<string, Raw>, ms: seq<Mail>)
    requires Keyed(raws)
    ensures Keyed(WithRows(raws, ms))
  {
    if ms != [] {
      RowsStored(raws, ms[..|ms| - 1]);
    }
  }

  lemma StepKeepsTables(t: Tables, scan: Scan, p: Progress, m: Mail)
    requires RawsOk(t) && RawsOk(p.tables) && Valid(p.tables)
    ensures RawsOk(Step(t, scan, p, m).tables) && Valid(Step(t, scan, p, m).tables)
    ensures forall id :: Done(p.tables, id) ==> Done(Step(t, scan, p, m).tables, id)
  {
    hide CheckInFor;
  }

  lemma {:induction false} StepsKeepTables(t: Tables, scan: Scan, ms: seq<Mail>)
    requires RawsOk(t) && Valid(t)
    ensures RawsOk(Steps(t, scan, ms).tables) && Valid(Steps(t, scan, ms).tables)
    ensures forall id :: Done(t, id) ==> Done(Steps(t, scan, ms).tables, id)
  {
    hide Step, RawsOk, Valid;
    if ms != [] {
      StepsKeepTables(t, scan, ms[..|ms| - 1]);
      StepKeepsTables(t, scan, Steps(t, scan, ms[..|ms| - 1]), ms[|ms| - 1]);
    }
  }

  lemma ApplyKeepsTables(t: Tables, op: Op)
    requires RawsOk(t) && Valid(t)
    ensures RawsOk(Apply(t, op)) && Valid(Apply(t, op))
    ensures forall id :: Done(t, id) ==> Done(Apply(t, op), id)
  {
    hide NotDone, ByTime, Steps, Distinct, NotStored, WithRows;
    match op {
      case Store(batch) =>
        RowsStored(t.raws, NotStored(t, batch));
        KeptRows(t.raws, NotStored(t, batch));
      case Import(scan, batch) => StepsKeepTables(t, scan, ByTime(NotDone(t, batch)));
    }
  }

  lemma {:induction false} KeptRows(raws: map<string, Raw>, ms: seq<Mail>)
    requires forall m :: m in ms ==> m.messageId !in raws
    ensures forall id :: id in raws ==> id in WithRows(raws, ms) && WithRows(raws, ms)[id] == raws[id]
  {
    if ms != [] {
      assert ms == ms[..|ms| - 1] + [ms[|ms| - 1]];
      KeptRows(raws, ms[..|ms| - 1]);
    }
  }

  /** Storing a batch leaves every message of it stored: those new to the table as they came, unparsed, provided no
      id comes twice among them, and the others as they were. When one does, nothing is stored. */
  lemma StoreLeaves(t: Tables, batch: seq<Mail>)
    ensures var t' := Apply(t, Store(batch));
      && t' == t.(raws := t'.raws) && t.raws.Keys <= t'.raws.Keys
      && (forall id :: id in t.raws ==> t'.raws[id] == t.raws[id])
      && (t' == t || forall m :: m in batch ==>
            m.messageId in t'.raws && (m.messageId !in t.raws ==> t'.raws[m.messageId] == Raw(m, false)))
      && (forall id :: id in t'.raws && id !in t.raws ==> t'.raws[id].mail in batch)
    ensures (forall id :: id !in t.raws ==> Count(batch, id) <= 1) ==>
      forall m :: m in batch ==> m.messageId in Apply(t, Store(batch)).raws
    ensures (exists id :: id !in t.raws && Count(batch, id) >= 2) ==> Apply(t, Store(batch)) == t
  {
    hide NotStored, WithRows, Distinct, Count;
    var unseen := NotStored(t, batch);
    KeptRows(t.raws, unseen);
    NewRows(t.raws, unseen);
    forall id | id !in t.raws
      ensures Count(unseen, id) == Count(batch, id)
    {
      CountNotStored(t, batch, id);
    }
    if Distinct(unseen) {
      forall id
        ensures Count(unseen, id) <= 1
      {
        DistinctCounts(unseen, id);
      }
    } else {
      var id := CountsTwice(unseen);
      NotStoredIds(t, batch, id);
    }
  }

  lemma {:induction false} NewRows(raws: map<string, Raw>, ms: seq<Mail>)
    requires forall m :: m in ms ==> m.messageId !in raws
    ensures forall id :: id in WithRows(raws, ms) && id !in raws ==> WithRows(raws, ms)[id].mail in ms
    ensures Distinct(ms) ==> forall m :: m in ms ==>
      m.messageId in WithRows(raws, ms) && WithRows(raws, ms)[m.messageId] == Raw(m, false)
  {
    if ms != [] {
      var init, last := ms[..|ms| - 1], ms[|ms| - 1];
      assert ms == init + [last];
      NewRows(raws, init);
      forall m | m in init && Distinct(ms)
        ensures m.messageId != last.messageId
      {
        var i :| 0 <= i < |init| && init[i] == m;
        assert ms[i] == m;
      }
    }
  }

  lemma {:induction false} CountNotStored(t: Tables, batch: seq<Mail>, id: string)
    requires id !in t.raws
    ensures Count(NotStored(t, batch), id) == Count(batch, id)
  {
    if batch != [] {
      var init, m := batch[..|batch| - 1], batch[|batch| - 1];
      CountNotStored(t, init, id);
      CountSnoc(NotStored(t, init), m, id);
    }
  }

  lemma {:induction false} DistinctCounts(ms: seq<Mail>, id: string)
    requires Distinct(ms)
    ensures Count(ms, id) <= 1
    ensures Count(ms, id) == 1 <==> exists i :: 0 <= i < |ms| && ms[i].messageId == id
  {
    if ms != [] {
      var init := ms[..|ms| - 1];
      assert forall i :: 0 <= i < |init| ==> init[i] == ms[i];
      DistinctCounts(init, id);
    }
  }

  lemma {:induction false} CountsTwice(ms: seq<Mail>) returns (id: string)
    requires !Distinct(ms)
    ensures Count(ms, id) >= 2
  {
    var i, j :| 0 <= i < j < |ms| && ms[i].messageId == ms[j].messageId;
    id := ms[i].messageId;
    CountAbove(ms, id, i, j);
  }

  lemma {:induction false} CountAbove(ms: seq<Mail>, id: string, i: nat, j: nat)
    requires i < j < |ms| && ms[i].messageId == ms[j].messageId == id
    ensures Count(ms, id) >= 2
    decreases |ms|
  {
    var init := ms[..|ms| - 1];
    if j < |ms| - 1 {
      CountAbove(init, id, i, j);
    } else {
      assert init[i] == ms[i];
      InBatch(init, init[i]);
    }
  }

  lemma {:induction false} NotStoredIds(t: Tables, batch: seq<Mail>, id: string)
    requires Count(NotStored(t, batch), id) > 0
    ensures id !in t.raws
  {
    if batch != [] {
      var init, m := batch[..|batch| - 1], batch[|batch| - 1];
      if m.messageId !in t.raws {
        CountSnoc(NotStored(t, init), m, id);
        if m.messageId == id {
          return;
        }
      }
      NotStoredIds(t, init, id);
    }
  }

  /** Over any run of scans, failed ones included, raw rows stay under their own ids, check-ins below the next
      number, and a message once imported stays imported. */
  lemma {:induction false} TablesStay(ops: seq<Op>, n: nat)
    requires n <= |ops|
    ensures RawsOk(After(ops)) && Valid(After(ops))
    ensures forall id :: Done(After(ops[..n]), id) ==> Done(After(ops), id)
    decreases |ops|
  {
    hide Apply, RawsOk, Valid, Done;
    if ops == [] {
      EmptyTables();
      assert ops[..n] == ops;
    } else {
      var init := ops[..|ops| - 1];
      if n == |ops| {
        TablesStay(init, 0);
        assert ops[..n] == ops;
      } else {
        TablesStay(init, n);
        assert init[..n] == ops[..n];
      }
      ApplyKeepsTables(After(init), ops[|ops| - 1]);
    }
  }

  lemma EmptyTables()
    ensures RawsOk(EMPTY) && Valid(EMPTY)
  {
  }
}
