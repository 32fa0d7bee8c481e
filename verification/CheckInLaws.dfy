/** What an import leaves: one check-in per callsign, from its latest message; nothing when it is repeated;
    and the same check-ins whether or not the messages were stored beforehand. */
module CheckInLaws {
  import opened PyText
  import opened CheckInImport

  function Callsign(t: Tables, scan: Scan, m: Mail): string { scan.read(AsStored(t, m)).callsign }

  function Count(ms: seq<Mail>, id: string): nat
  {
    if ms == [] then 0 else Count(ms[..|ms| - 1], id) + if ms[|ms| - 1].messageId == id then 1 else 0
  }

  lemma CountSnoc(ms: seq<Mail>, m: Mail, id: string)
    ensures Count(ms + [m], id) == Count(ms, id) + if m.messageId == id then 1 else 0
  {
    assert (ms + [m])[..|ms|] == ms;
  }

  // ---------------------------------------------------------------------------
  // When an import fails

  lemma {:induction false} CountInsert(ms: seq<Mail>, m: Mail, id: string)
    ensures Count(Insert(ms, m), id) == Count(ms, id) + if m.messageId == id then 1 else 0
  {
    if ms == [] || ms[|ms| - 1].receivedAt <= m.receivedAt {
      CountSnoc(ms, m, id);
    } else {
      CountInsert(ms[..|ms| - 1], m, id);
      CountSnoc(Insert(ms[..|ms| - 1], m), ms[|ms| - 1], id);
    }
  }

  lemma {:induction false} CountByTime(ms: seq<Mail>, id: string)
    ensures Count(ByTime(ms), id) == Count(ms, id)
  {
    if ms != [] {
      CountByTime(ms[..|ms| - 1], id);
      CountInsert(ByTime(ms[..|ms| - 1]), ms[|ms| - 1], id);
    }
  }

  lemma {:induction false} CountNotDone(t: Tables, batch: seq<Mail>, id: string)
    requires !Done(t, id)
    ensures Count(NotDone(t, batch), id) == Count(batch, id)
  {
    if batch != [] {
      var init, m := batch[..|batch| - 1], batch[|batch| - 1];
      CountNotDone(t, init, id);
      CountSnoc(NotDone(t, init), m, id);
    }
  }

  predicate NoneDone(t: Tables, ms: seq<Mail>) { forall i :: 0 <= i < |ms| ==> !Done(t, ms[i].messageId) }

  ghost predicate Twice(t: Tables, ms: seq<Mail>) { exists id :: id !in t.raws && Count(ms, id) >= 2 }

  /** The raw rows of a scan under way: those it began with, and one per message, parsed. */
  ghost predicate RowsSoFar(t: Tables, p: Progress, ms: seq<Mail>)
  {
    && (forall id :: id in p.tables.raws <==> id in t.raws || Count(ms, id) > 0)
    && (forall id :: Count(ms, id) > 0 ==> Done(p.tables, id))
    && (forall id :: id in t.raws && Count(ms, id) == 0 ==> p.tables.raws[id] == t.raws[id])
  }

  lemma {:induction false} RowsSoFarSnoc(t: Tables, scan: Scan, p: Progress, ms: seq<Mail>, m: Mail)
    requires !p.clashed && RowsSoFar(t, p, ms) && !Step(t, scan, p, m).clashed
    ensures RowsSoFar(t, Step(t, scan, p, m), ms + [m])
  {
    hide Count, CheckInFor, Without;
    var q := Step(t, scan, p, m);
    forall id
      ensures Count(ms + [m], id) == Count(ms, id) + if m.messageId == id then 1 else 0
    {
      CountSnoc(ms, m, id);
    }
  }

  lemma {:induction false} StepsClash(t: Tables, scan: Scan, ms: seq<Mail>)
    requires NoneDone(t, ms)
    ensures Steps(t, scan, ms).clashed <==> Twice(t, ms)
    ensures !Steps(t, scan, ms).clashed ==> RowsSoFar(t, Steps(t, scan, ms), ms)
  {
    if ms != [] {
      var init, m := ms[..|ms| - 1], ms[|ms| - 1];
      var p := Steps(t, scan, init);
      StepsClash(t, scan, init);
      StepClash(t, scan, p, init, m);
      assert ms == init + [m];
    }
  }

  /** A step clashes exactly when the message repeats an id that was not stored. */
  lemma StepClash(t: Tables, scan: Scan, p: Progress, ms: seq<Mail>, m: Mail)
    requires p.clashed <==> Twice(t, ms)
    requires !p.clashed ==> RowsSoFar(t, p, ms)
    requires !Done(t, m.messageId)
    ensures Step(t, scan, p, m).clashed <==> Twice(t, ms + [m])
    ensures !Step(t, scan, p, m).clashed ==> RowsSoFar(t, Step(t, scan, p, m), ms + [m])
  {
    TwiceSnoc(t, ms, m);
    if p.clashed {
      assert Step(t, scan, p, m).clashed;
    } else if !Step(t, scan, p, m).clashed {
      RowsSoFarSnoc(t, scan, p, ms, m);
    }
  }

  lemma TwiceSnoc(t: Tables, ms: seq<Mail>, m: Mail)
    ensures Twice(t, ms + [m]) <==> Twice(t, ms) || (m.messageId !in t.raws && Count(ms, m.messageId) > 0)
  {
    hide Count;
    forall id
      ensures Count(ms + [m], id) == Count(ms, id) + if m.messageId == id then 1 else 0
    {
      CountSnoc(ms, m, id);
    }
  }

  lemma NoneDoneByTime(t: Tables, batch: seq<Mail>)
    ensures NoneDone(t, ByTime(NotDone(t, batch)))
  {
    hide NotDone, ByTime;
    var ms := ByTime(NotDone(t, batch));
    forall i | 0 <= i < |ms|
      ensures !Done(t, ms[i].messageId)
    {
      SortKeeps(NotDone(t, batch), ms[i]);
    }
  }

  lemma {:induction false} InsertKeeps(ms: seq<Mail>, m: Mail, x: Mail)
    ensures x in Insert(ms, m) <==> x in ms || x == m
  {
    if ms != [] && ms[|ms| - 1].receivedAt > m.receivedAt {
      InsertKeeps(ms[..|ms| - 1], m, x);
      assert ms == ms[..|ms| - 1] + [ms[|ms| - 1]];
    }
  }

  lemma {:induction false} SortKeeps(ms: seq<Mail>, x: Mail)
    ensures x in ByTime(ms) <==> x in ms
  {
    if ms != [] {
      SortKeeps(ms[..|ms| - 1], x);
      InsertKeeps(ByTime(ms[..|ms| - 1]), ms[|ms| - 1], x);
      assert ms == ms[..|ms| - 1] + [ms[|ms| - 1]];
    }
  }

  /** An import fails exactly when its batch brings some message id twice that was not stored before. */
  lemma ClashExactly(t: Tables, scan: Scan, batch: seq<Mail>)
    ensures Scanned(t, scan, batch).Clash? <==> exists id :: id !in t.raws && Count(batch, id) >= 2
  {
    hide NotDone, ByTime, Count, Steps;
    var todo := NotDone(t, batch);
    NoneDoneByTime(t, batch);
    StepsClash(t, scan, ByTime(todo));
    forall id
      ensures Count(ByTime(todo), id) == Count(todo, id)
    {
      CountByTime(todo, id);
    }
    forall id | id !in t.raws
      ensures Count(todo, id) == Count(batch, id)
    {
      CountNotDone(t, batch, id);
    }
  }

  // ---------------------------------------------------------------------------
  // Which check-ins an import leaves

  /** No later message of the sorted batch has the same callsign, or there is no callsign to compare. */
  ghost predicate Kept(t: Tables, scan: Scan, ms: seq<Mail>, i: nat)
    requires i < |ms|
  {
    Callsign(t, scan, ms[i]) != "" ==> forall j :: i < j < |ms| ==> Callsign(t, scan, ms[j]) != Callsign(t, scan, ms[i])
  }

  ghost predicate LastWith(t: Tables, scan: Scan, ms: seq<Mail>, c: string, i: int)
  {
    0 <= i < |ms| && Callsign(t, scan, ms[i]) == c && Kept(t, scan, ms, i)
  }

  /** The check-ins so far, the superseded one left out: the old ones and one row per kept message. */
  ghost predicate RowsAre(t: Tables, scan: Scan, ms: seq<Mail>, rows: map<int, CheckIn>)
  {
    && (forall k :: k < t.nextId ==> (k in rows <==> k in t.checkIns))
    && (forall k :: k in t.checkIns ==> k in rows && rows[k] == t.checkIns[k])
    && (forall k :: k in rows ==> k < t.nextId + |ms|)
    && (forall k :: t.nextId <= k < t.nextId + |ms| ==> (k in rows <==> Kept(t, scan, ms, k - t.nextId)))
    && (forall k :: k in rows && k >= t.nextId ==> rows[k] == CheckInFor(scan, AsStored(t, ms[k - t.nextId])))
  }

  ghost predicate LatestAre(t: Tables, scan: Scan, ms: seq<Mail>, latest: map<string, int>)
  {
    && (forall c :: c in latest ==> c != "" && LastWith(t, scan, ms, c, latest[c] - t.nextId))
    && (forall i :: 0 <= i < |ms| && Callsign(t, scan, ms[i]) != "" ==> Callsign(t, scan, ms[i]) in latest)
  }

  ghost predicate ProgressIs(t: Tables, scan: Scan, ms: seq<Mail>, p: Progress)
  {
    && p.tables.nextId == t.nextId + |ms|
    && RowsAre(t, scan, ms, Without(p.tables.checkIns, p.stale))
    && LatestAre(t, scan, ms, p.latest)
  }

  lemma LatestSnoc(t: Tables, scan: Scan, ms: seq<Mail>, m: Mail, latest: map<string, int>)
    requires LatestAre(t, scan, ms, latest)
    ensures var c := Callsign(t, scan, m);
      LatestAre(t, scan, ms + [m], if c == "" then latest else latest[c := t.nextId + |ms|])
  {
    hide Callsign;
    var c := Callsign(t, scan, m);
    var all := ms + [m];
    var after := if c == "" then latest else latest[c := t.nextId + |ms|];
    forall i | 0 <= i < |all| && Callsign(t, scan, all[i]) != ""
      ensures Callsign(t, scan, all[i]) in after
    {
      if i < |ms| {
        assert all[i] == ms[i];
      }
    }
    forall d | d in after
      ensures d != "" && LastWith(t, scan, all, d, after[d] - t.nextId)
    {
      if d != c {
        var i := latest[d] - t.nextId;
        assert all[i] == ms[i];
        forall j | i < j < |all|
          ensures Callsign(t, scan, all[j]) != d
        {
          if j < |ms| {
            assert all[j] == ms[j];
          }
        }
      }
    }
  }

  lemma KeptSnoc(t: Tables, scan: Scan, ms: seq<Mail>, m: Mail, i: nat)
    requires i <= |ms|
    ensures Kept(t, scan, ms + [m], i) <==>
      || i == |ms|
      || (Kept(t, scan, ms, i) && (Callsign(t, scan, ms[i]) != Callsign(t, scan, m) || Callsign(t, scan, m) == ""))
  {
    hide Callsign;
    var all := ms + [m];
    if i < |ms| {
      assert all[i] == ms[i] && all[|ms|] == m;
      if Kept(t, scan, ms + [m], i) && Callsign(t, scan, ms[i]) != "" {
        forall j | i < j < |ms|
          ensures Callsign(t, scan, ms[j]) != Callsign(t, scan, ms[i])
        {
          assert all[j] == ms[j];
        }
      }
    }
  }

  /** A kept message with callsign `c` is the one `latest` names. */
  lemma KeptIsLatest(t: Tables, scan: Scan, ms: seq<Mail>, latest: map<string, int>, i: nat)
    requires LatestAre(t, scan, ms, latest) && i < |ms|
    requires Kept(t, scan, ms, i) && Callsign(t, scan, ms[i]) != ""
    ensures latest[Callsign(t, scan, ms[i])] == t.nextId + i
  {
    hide Callsign;
  }

  function Superseded(t: Tables, scan: Scan, m: Mail, latest: map<string, int>): Option<int>
  {
    var c := Callsign(t, scan, m);
    if c != "" && c in latest then Some(latest[c]) else None
  }

  /** One more message keeps every row but the one it supersedes, which is a row of this batch. */
  lemma {:induction false} KeptNow(t: Tables, scan: Scan, ms: seq<Mail>, m: Mail, latest: map<string, int>, i: nat)
    requires LatestAre(t, scan, ms, latest) && i <= |ms|
    ensures var stale := Superseded(t, scan, m, latest);
      && (Kept(t, scan, ms + [m], i) <==> i == |ms| || (Kept(t, scan, ms, i) && stale != Some(t.nextId + i)))
      && (stale.Some? ==> t.nextId <= stale.value < t.nextId + |ms|)
  {
    hide Callsign;
    KeptSnoc(t, scan, ms, m, i);
    var c := Callsign(t, scan, m);
    if i < |ms| && Kept(t, scan, ms, i) && Callsign(t, scan, ms[i]) == c && c != "" {
      KeptIsLatest(t, scan, ms, latest, i);
    }
  }

  lemma {:induction false} RowsSnoc(t: Tables, scan: Scan, ms: seq<Mail>, m: Mail, rows: map<int, CheckIn>,
                                   latest: map<string, int>)
    requires Valid(t) && RowsAre(t, scan, ms, rows) && LatestAre(t, scan, ms, latest)
    ensures
      var stale := Superseded(t, scan, m, latest);
      RowsAre(t, scan, ms + [m], Without(rows[t.nextId + |ms| := CheckInFor(scan, AsStored(t, m))], stale))
  {
    hide Callsign, Kept, CheckInFor, AsStored, LatestAre, Superseded;
    var stale := Superseded(t, scan, m, latest);
    var after := Without(rows[t.nextId + |ms| := CheckInFor(scan, AsStored(t, m))], stale);
    var all := ms + [m];
    KeptNow(t, scan, ms, m, latest, |ms|);
    forall k | t.nextId <= k < t.nextId + |all|
      ensures k in after <==> Kept(t, scan, all, k - t.nextId)
    {
      KeptNow(t, scan, ms, m, latest, k - t.nextId);
    }
    forall k | k in after && k >= t.nextId
      ensures after[k] == CheckInFor(scan, AsStored(t, all[k - t.nextId]))
    {
      if k < t.nextId + |ms| {
        assert all[k - t.nextId] == ms[k - t.nextId];
      }
    }
  }

  lemma StepIs(t: Tables, scan: Scan, ms: seq<Mail>, p: Progress, m: Mail)
    requires Valid(t) && !p.clashed && ProgressIs(t, scan, ms, p) && !Step(t, scan, p, m).clashed
    ensures ProgressIs(t, scan, ms + [m], Step(t, scan, p, m))
  {
    hide RowsAre, LatestAre;
    RowsSnoc(t, scan, ms, m, Without(p.tables.checkIns, p.stale), p.latest);
    LatestSnoc(t, scan, ms, m, p.latest);
  }

  lemma {:induction false} StepsAre(t: Tables, scan: Scan, ms: seq<Mail>)
    requires Valid(t) && !Steps(t, scan, ms).clashed
    ensures ProgressIs(t, scan, ms, Steps(t, scan, ms))
  {
    hide Step;
    if ms == [] {
      NoRows(t, scan);
    } else {
      var init, m := ms[..|ms| - 1], ms[|ms| - 1];
      StaysClashed(t, scan, Steps(t, scan, init), m);
      StepsAre(t, scan, init);
      StepIs(t, scan, init, Steps(t, scan, init), m);
      assert ms == init + [m];
    }
  }

  lemma NoRows(t: Tables, scan: Scan)
    requires Valid(t)
    ensures ProgressIs(t, scan, [], Started(t))
  {
  }

  lemma StaysClashed(t: Tables, scan: Scan, p: Progress, m: Mail)
    ensures p.clashed ==> Step(t, scan, p, m).clashed
  {
  }

  lemma {:induction false} InsertPermutes(ms: seq<Mail>, m: Mail)
    ensures multiset(Insert(ms, m)) == multiset(ms) + multiset{m}
  {
    if ms != [] && ms[|ms| - 1].receivedAt > m.receivedAt {
      InsertPermutes(ms[..|ms| - 1], m);
      assert ms == ms[..|ms| - 1] + [ms[|ms| - 1]];
    }
  }

  lemma {:induction false} SortPermutes(ms: seq<Mail>)
    ensures multiset(ByTime(ms)) == multiset(ms)
  {
    if ms != [] {
      SortPermutes(ms[..|ms| - 1]);
      InsertPermutes(ByTime(ms[..|ms| - 1]), ms[|ms| - 1]);
      assert ms == ms[..|ms| - 1] + [ms[|ms| - 1]];
    }
  }

  /** The whole table after an import: the old check-ins untouched, and one row, numbered in order of
      reception, for each new message that no later one with its callsign supersedes. */
  lemma ImportExactly(t: Tables, scan: Scan, batch: seq<Mail>)
    requires Valid(t) && Scanned(t, scan, batch).Imported?
    ensures
      var ms := ByTime(NotDone(t, batch));
      var o := Scanned(t, scan, batch);
      && multiset(ms) == multiset(NotDone(t, batch))
      && RowsAre(t, scan, ms, o.tables.checkIns)
      && LatestAre(t, scan, ms, o.latest)
  {
    hide NotDone, ByTime, Steps, RowsAre, LatestAre;
    SortPermutes(NotDone(t, batch));
    StepsAre(t, scan, ByTime(NotDone(t, batch)));
  }

  /** The latest message of a batch with callsign `c`; among equals, the one that comes last. */
  function Latest(t: Tables, scan: Scan, ms: seq<Mail>, c: string): Option<Mail>
  {
    if ms == [] then None
    else
      var m, before := ms[|ms| - 1], Latest(t, scan, ms[..|ms| - 1], c);
      if Callsign(t, scan, m) == c && (before.None? || before.value.receivedAt <= m.receivedAt) then Some(m) else before
  }

  ghost predicate IsLatest(t: Tables, scan: Scan, ms: seq<Mail>, c: string, i: nat)
    requires i < |ms|
  {
    && Callsign(t, scan, ms[i]) == c
    && forall j :: 0 <= j < |ms| && Callsign(t, scan, ms[j]) == c ==>
         if j <= i then ms[j].receivedAt <= ms[i].receivedAt else ms[j].receivedAt < ms[i].receivedAt
  }

  /** The recursion above finds the maximum by (time, position), and fails only when nobody has the callsign. */
  lemma {:induction false} LatestIs(t: Tables, scan: Scan, ms: seq<Mail>, c: string) returns (i: int)
    ensures Latest(t, scan, ms, c).None? <==> forall j :: 0 <= j < |ms| ==> Callsign(t, scan, ms[j]) != c
    ensures Latest(t, scan, ms, c).Some? ==>
      0 <= i < |ms| && ms[i] == Latest(t, scan, ms, c).value && IsLatest(t, scan, ms, c, i)
  {
    hide Callsign;
    i := -1;
    if ms != [] {
      var init, m := ms[..|ms| - 1], ms[|ms| - 1];
      i := LatestIs(t, scan, init, c);
      forall j | 0 <= j < |init|
        ensures ms[j] == init[j]
      {
      }
      var before := Latest(t, scan, init, c);
      if Callsign(t, scan, m) == c && (before.None? || before.value.receivedAt <= m.receivedAt) {
        i := |ms| - 1;
      }
    }
  }

  predicate Sorted(ms: seq<Mail>) { forall i, j :: 0 <= i <= j < |ms| ==> ms[i].receivedAt <= ms[j].receivedAt }

  lemma {:induction false} InsertSorts(ms: seq<Mail>, m: Mail)
    requires Sorted(ms)
    ensures Sorted(Insert(ms, m))
  {
    if ms != [] && ms[|ms| - 1].receivedAt > m.receivedAt {
      var init, last := ms[..|ms| - 1], ms[|ms| - 1];
      InsertSorts(init, m);
      forall x | x in Insert(init, m)
        ensures x.receivedAt <= last.receivedAt
      {
        InsertKeeps(init, m, x);
      }
      var s := Insert(init, m);
      assert forall i :: 0 <= i < |s| ==> s[i] in s;
    }
  }

  lemma {:induction false} SortSorts(ms: seq<Mail>)
    ensures Sorted(ByTime(ms))
  {
    if ms != [] {
      SortSorts(ms[..|ms| - 1]);
      InsertSorts(ByTime(ms[..|ms| - 1]), ms[|ms| - 1]);
    }
  }

  function Last(t: Tables, scan: Scan, ms: seq<Mail>, c: string): Option<Mail>
  {
    if ms == [] then None
    else if Callsign(t, scan, ms[|ms| - 1]) == c then Some(ms[|ms| - 1])
    else Last(t, scan, ms[..|ms| - 1], c)
  }

  lemma {:induction false} LastIn(t: Tables, scan: Scan, ms: seq<Mail>, c: string)
    ensures Last(t, scan, ms, c).Some? ==> Last(t, scan, ms, c).value in ms
  {
    hide Callsign;
    if ms != [] {
      LastIn(t, scan, ms[..|ms| - 1], c);
    }
  }

  lemma {:induction false} LastIs(t: Tables, scan: Scan, ms: seq<Mail>, c: string, i: int)
    requires c != "" && LastWith(t, scan, ms, c, i)
    ensures Last(t, scan, ms, c) == Some(ms[i])
  {
    hide Callsign;
    if i < |ms| - 1 {
      var init := ms[..|ms| - 1];
      assert forall j :: 0 <= j < |init| ==> ms[j] == init[j];
      LastIs(t, scan, init, c, i);
    }
  }

  lemma {:induction false} LastOfInsert(t: Tables, scan: Scan, ms: seq<Mail>, m: Mail, c: string)
    requires Sorted(ms)
    ensures var before := Last(t, scan, ms, c);
      Last(t, scan, Insert(ms, m), c) ==
      if Callsign(t, scan, m) == c && (before.None? || before.value.receivedAt <= m.receivedAt) then Some(m) else before
  {
    hide Callsign;
    if ms == [] || ms[|ms| - 1].receivedAt <= m.receivedAt {
      LastIn(t, scan, ms, c);
      assert (ms + [m])[..|ms|] == ms;
    } else {
      var init, last := ms[..|ms| - 1], ms[|ms| - 1];
      LastOfInsert(t, scan, init, m, c);
      assert (Insert(init, m) + [last])[..|Insert(init, m)|] == Insert(init, m);
    }
  }

  /** The last in order of reception is the latest of the batch as it came. */
  lemma {:induction false} LastIsLatest(t: Tables, scan: Scan, ms: seq<Mail>, c: string)
    ensures Last(t, scan, ByTime(ms), c) == Latest(t, scan, ms, c)
  {
    hide Callsign, Insert;
    if ms != [] {
      var init := ms[..|ms| - 1];
      LastIsLatest(t, scan, init, c);
      SortSorts(init);
      LastOfInsert(t, scan, ByTime(init), ms[|ms| - 1], c);
    }
  }

  lemma {:induction false} LastNone(t: Tables, scan: Scan, ms: seq<Mail>, c: string)
    requires forall i :: 0 <= i < |ms| ==> Callsign(t, scan, ms[i]) != c
    ensures Last(t, scan, ms, c).None?
  {
    hide Callsign;
    if ms != [] {
      var init := ms[..|ms| - 1];
      assert forall j :: 0 <= j < |init| ==> ms[j] == init[j];
      LastNone(t, scan, init, c);
    }
  }

  /** One batch leaves exactly one new check-in per callsign it brings, from that callsign's latest message;
      the check-ins of earlier batches stay as they were. */
  lemma {:induction false} OnePerCallsign(t: Tables, scan: Scan, batch: seq<Mail>, c: string)
    requires Valid(t) && Scanned(t, scan, batch).Imported? && c != ""
    ensures
      var o := Scanned(t, scan, batch);
      var latest := Latest(t, scan, NotDone(t, batch), c);
      && (c in o.latest <==> latest.Some?)
      && (latest.Some? ==>
            && o.latest[c] in o.tables.checkIns
            && o.tables.checkIns[o.latest[c]] == CheckInFor(scan, AsStored(t, latest.value)))
      && (forall k :: k in o.tables.checkIns && k >= t.nextId && o.tables.checkIns[k].reading.callsign == c ==>
            latest.Some? && k == o.latest[c])
      && (forall k :: k < t.nextId ==> (k in o.tables.checkIns <==> k in t.checkIns))
      && (forall k :: k in t.checkIns ==> k in o.tables.checkIns && o.tables.checkIns[k] == t.checkIns[k])
  {
    hide NotDone, ByTime, Scanned, Latest, Last;
    var ms := ByTime(NotDone(t, batch));
    var o := Scanned(t, scan, batch);
    ImportExactly(t, scan, batch);
    LastIsLatest(t, scan, NotDone(t, batch), c);
    if c in o.latest {
      LastIs(t, scan, ms, c, o.latest[c] - t.nextId);
    } else {
      LastNone(t, scan, ms, c);
    }
    forall k | k in o.tables.checkIns && k >= t.nextId && o.tables.checkIns[k].reading.callsign == c
      ensures c in o.latest && k == o.latest[c]
    {
      KeptIsLatest(t, scan, ms, o.latest, k - t.nextId);
    }
  }
}
