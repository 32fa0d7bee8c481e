/** Importing again, importing in two phases, and how a message's timing is judged. */
module CheckInPhases {
  import opened PyText
  import opened CheckInImport
  import opened CheckInLaws

  // ---------------------------------------------------------------------------
  // Importing again

  lemma {:induction false} AllDone(t: Tables, batch: seq<Mail>)
    requires forall m :: m in batch ==> Done(t, m.messageId)
    ensures NotDone(t, batch) == []
  {
    if batch != [] {
      var init, m := batch[..|batch| - 1], batch[|batch| - 1];
      assert batch == init + [m];
      AllDone(t, init);
    }
  }

  lemma {:induction false} InBatch(batch: seq<Mail>, m: Mail)
    requires m in batch
    ensures Count(batch, m.messageId) > 0
  {
    var init, last := batch[..|batch| - 1], batch[|batch| - 1];
    assert batch == init + [last];
    if m != last {
      InBatch(init, m);
    }
  }

  /** Every message of an imported batch is done. */
  lemma ImportedAreDone(t: Tables, scan: Scan, batch: seq<Mail>, m: Mail)
    requires Scanned(t, scan, batch).Imported? && m in batch
    ensures Done(Scanned(t, scan, batch).tables, m.messageId)
  {
    hide NotDone, ByTime, Steps, Count;
    var todo := NotDone(t, batch);
    NoneDoneByTime(t, batch);
    StepsClash(t, scan, ByTime(todo));
    CountByTime(todo, m.messageId);
    if m in todo {
      InBatch(todo, m);
    }
  }

  /** Scanning messages that have been imported changes nothing, whatever their check-ins became and
      whichever session is open. */
  lemma RescanChangesNothing(t: Tables, scan: Scan, batch: seq<Mail>, again: Scan, batch': seq<Mail>)
    requires Scanned(t, scan, batch).Imported?
    requires forall m' :: m' in batch' ==> exists m :: m in batch && m.messageId == m'.messageId
    ensures var o := Scanned(t, scan, batch);
      Scanned(o.tables, again, batch') == Imported(o.tables, map[])
  {
    hide NotDone, Scanned;
    var o := Scanned(t, scan, batch);
    forall m' | m' in batch'
      ensures Done(o.tables, m'.messageId)
    {
      var m :| m in batch && m.messageId == m'.messageId;
      ImportedAreDone(t, scan, batch, m);
    }
    AllDone(o.tables, batch');
    NothingToDo(o.tables, again, batch');
  }

  lemma NothingToDo(t: Tables, scan: Scan, batch: seq<Mail>)
    requires NotDone(t, batch) == []
    ensures Scanned(t, scan, batch) == Imported(t, map[])
  {
  }

  // ---------------------------------------------------------------------------
  // Two phases

  /** The tables with unparsed rows added where there were none. */
  function Extra(t: Tables, extra: map<string, Raw>): Tables { t.(raws := Under(extra, t.raws)) }

  function Under(extra: map<string, Raw>, raws: map<string, Raw>): map<string, Raw> { extra + raws }

  lemma UnderUpdate(extra: map<string, Raw>, raws: map<string, Raw>, id: string, row: Raw)
    ensures Under(extra, raws)[id := row] == Under(extra, raws[id := row])
  {
  }

  lemma UnderUnder(added: map<string, Raw>, extra: map<string, Raw>, raws: map<string, Raw>)
    ensures Under(added, Under(extra, raws)) == Under(added + extra, raws)
    ensures Under(map[], raws) == raws
  {
  }

  lemma UnderHas(extra: map<string, Raw>, raws: map<string, Raw>, id: string)
    ensures id in Under(extra, raws) <==> id in extra || id in raws
    ensures id in raws ==> Under(extra, raws)[id] == raws[id]
    ensures id in extra && id !in raws ==> Under(extra, raws)[id] == extra[id]
  {
  }

  /** Rows stored ahead of a batch: unparsed, and agreeing with the batch on what its messages say. */
  ghost predicate Ahead(extra: map<string, Raw>, batch: seq<Mail>)
  {
    && (forall id :: id in extra ==> !extra[id].parsed)
    && (forall m :: m in batch && m.messageId in extra ==> extra[m.messageId].mail == m)
  }

  lemma {:induction false} SameTodo(t: Tables, extra: map<string, Raw>, batch: seq<Mail>)
    requires forall id :: id in extra ==> !extra[id].parsed
    ensures NotDone(Extra(t, extra), batch) == NotDone(t, batch)
  {
    if batch != [] {
      var init, m := batch[..|batch| - 1], batch[|batch| - 1];
      assert batch == init + [m];
      SameTodo(t, extra, init);
      assert Done(Extra(t, extra), m.messageId) == Done(t, m.messageId);
    }
  }

  lemma StepAhead(t: Tables, scan: Scan, extra: map<string, Raw>, p: Progress, m: Mail)
    requires forall id :: id in extra ==> !extra[id].parsed
    requires m.messageId in extra ==> extra[m.messageId].mail == m
    requires !p.clashed && !Step(t, scan, p, m).clashed && !Done(t, m.messageId)
    ensures Step(Extra(t, extra), scan, p.(tables := Extra(p.tables, extra)), m) ==
      var q := Step(t, scan, p, m);
      q.(tables := Extra(q.tables, extra))
  {
    hide CheckInFor, Without, Under;
    var two := Extra(t, extra);
    var id := m.messageId;
    UnderHas(extra, t.raws, id);
    UnderHas(extra, p.tables.raws, id);
    assert Waiting(two, id) <==> Waiting(t, id) || id in extra;
    assert AsStored(two, m) == AsStored(t, m);
    UnderUpdate(extra, p.tables.raws, id, Raw(AsStored(t, m), true));
  }

  lemma {:induction false} StepsAhead(t: Tables, scan: Scan, extra: map<string, Raw>, ms: seq<Mail>)
    requires Ahead(extra, ms) && NoneDone(t, ms) && !Steps(t, scan, ms).clashed
    ensures var p := Steps(t, scan, ms);
      Steps(Extra(t, extra), scan, ms) == p.(tables := Extra(p.tables, extra))
  {
    hide Step, Extra;
    if ms == [] {
      NoStepsAhead(t, scan, extra);
    } else {
      var init, m := ms[..|ms| - 1], ms[|ms| - 1];
      assert ms == init + [m];
      StaysClashed(t, scan, Steps(t, scan, init), m);
      StepsAhead(t, scan, extra, init);
      StepAhead(t, scan, extra, Steps(t, scan, init), m);
    }
  }

  lemma NoStepsAhead(t: Tables, scan: Scan, extra: map<string, Raw>)
    ensures Steps(Extra(t, extra), scan, []) == Started(t).(tables := Extra(t, extra))
  {
  }

  /** Rows stored ahead of an import change nothing in it: it imports the same, and leaves the same rows
      plus those that were not part of its batch. */
  lemma ImportAhead(t: Tables, scan: Scan, extra: map<string, Raw>, batch: seq<Mail>)
    requires Ahead(extra, batch) && Scanned(t, scan, batch).Imported?
    ensures var o := Scanned(t, scan, batch);
      Scanned(Extra(t, extra), scan, batch) == Imported(Extra(o.tables, extra), o.latest)
  {
    hide NotDone, ByTime, Steps;
    var todo := NotDone(t, batch);
    SameTodo(t, extra, batch);
    NoneDoneByTime(t, batch);
    forall m | m in ByTime(todo)
      ensures m in batch
    {
      SortKeeps(todo, m);
    }
    StepsAhead(t, scan, extra, ByTime(todo));
  }

  /** Any number of batches stored while no session is open. */
  function PersistedAll(t: Tables, windows: seq<seq<Mail>>): Tables
  {
    if windows == [] then t else Persisted(PersistedAll(t, windows[..|windows| - 1]), windows[|windows| - 1])
  }

  ghost predicate InWindow(windows: seq<seq<Mail>>, m: Mail) { exists i :: 0 <= i < |windows| && m in windows[i] }

  /** Rows of messages of the windows, unparsed. */
  ghost predicate RowsFrom(rows: map<string, Raw>, windows: seq<seq<Mail>>)
  {
    forall id :: id in rows ==>
      !rows[id].parsed && rows[id].mail.messageId == id && InWindow(windows, rows[id].mail)
  }

  lemma {:induction false} RowsOf(raws: map<string, Raw>, ms: seq<Mail>)
    requires forall m :: m in ms ==> m.messageId !in raws
    ensures WithRows(raws, ms) == Under(WithRows(map[], ms), raws)
    ensures RowsFrom(WithRows(map[], ms), [ms])
  {
    if ms != [] {
      var init, m := ms[..|ms| - 1], ms[|ms| - 1];
      assert ms == init + [m];
      RowsOf(raws, init);
      UnderNew(WithRows(map[], init), raws, m.messageId, Raw(m, false));
      OneMore(WithRows(map[], init), init, m);
    }
  }

  lemma UnderNew(extra: map<string, Raw>, raws: map<string, Raw>, id: string, row: Raw)
    requires id !in raws
    ensures Under(extra, raws)[id := row] == Under(extra[id := row], raws)
  {
  }

  lemma OneMore(rows: map<string, Raw>, init: seq<Mail>, m: Mail)
    requires RowsFrom(rows, [init])
    ensures RowsFrom(rows[m.messageId := Raw(m, false)], [init + [m]])
  {
    var w := [init + [m]];
    assert m in w[0];
    forall x | InWindow([init], x)
      ensures InWindow(w, x)
    {
      assert x in w[0];
    }
  }

  lemma PersistedIsExtra(t: Tables, batch: seq<Mail>) returns (extra: map<string, Raw>)
    ensures Persisted(t, batch) == Extra(t, extra) && RowsFrom(extra, [batch])
  {
    hide NotStored, WithRows, Distinct;
    var unseen := NotStored(t, batch);
    RowsOf(t.raws, unseen);
    extra := if Distinct(unseen) then WithRows(map[], unseen) else map[];
    UnderUnder(map[], map[], t.raws);
    forall id | id in extra
      ensures InWindow([batch], extra[id].mail)
    {
      assert [unseen][0] == unseen && [batch][0] == batch;
    }
  }

  lemma {:induction false} PersistedAllIsExtra(t: Tables, windows: seq<seq<Mail>>) returns (extra: map<string, Raw>)
    ensures PersistedAll(t, windows) == Extra(t, extra) && RowsFrom(extra, windows)
  {
    hide Persisted, Under;
    if windows == [] {
      extra := map[];
      UnderUnder(map[], map[], t.raws);
    } else {
      var init, w := windows[..|windows| - 1], windows[|windows| - 1];
      var before := PersistedAllIsExtra(t, init);
      var added := PersistedIsExtra(Extra(t, before), w);
      extra := added + before;
      UnderUnder(added, before, t.raws);
      assert windows == init + [w];
      RowsJoined(before, init, added, w);
    }
  }

  lemma RowsJoined(before: map<string, Raw>, init: seq<seq<Mail>>, added: map<string, Raw>, w: seq<Mail>)
    requires RowsFrom(before, init) && RowsFrom(added, [w])
    ensures RowsFrom(added + before, init + [w])
  {
    var all := init + [w];
    assert all[|init|] == w;
    forall m | InWindow(init, m) || InWindow([w], m)
      ensures InWindow(all, m)
    {
      if InWindow(init, m) {
        var i :| 0 <= i < |init| && m in init[i];
        assert all[i] == init[i];
      }
    }
  }

  /** Messages with one id say the same thing. */
  ghost predicate SameMail(windows: seq<seq<Mail>>, batch: seq<Mail>)
  {
    forall w, m :: InWindow(windows, w) && m in batch && w.messageId == m.messageId ==> w == m
  }

  /** Storing messages unparsed, any number of times, and importing them later gives the same check-ins as
      importing them directly; every row the direct import leaves is left the same, and the others are
      still unparsed. */
  lemma TwoPhaseImport(t: Tables, windows: seq<seq<Mail>>, scan: Scan, batch: seq<Mail>)
    requires SameMail(windows, batch) && Scanned(t, scan, batch).Imported?
    ensures
      var direct := Scanned(t, scan, batch);
      var two := Scanned(PersistedAll(t, windows), scan, batch);
      && two.Imported? && two.latest == direct.latest
      && two.tables.checkIns == direct.tables.checkIns && two.tables.nextId == direct.tables.nextId
      && (forall id :: id in direct.tables.raws ==>
            id in two.tables.raws && two.tables.raws[id] == direct.tables.raws[id])
      && (forall id :: id in two.tables.raws && id !in direct.tables.raws ==> !two.tables.raws[id].parsed)
  {
    hide Scanned, PersistedAll;
    var extra := PersistedAllIsExtra(t, windows);
    forall m | m in batch && m.messageId in extra
      ensures extra[m.messageId].mail == m
    {
      assert InWindow(windows, extra[m.messageId].mail);
    }
    ImportAhead(t, scan, extra, batch);
  }

  /** A batch that brings one new message twice fails when scanned directly, after its first check-in has
      been committed; stored beforehand, the same batch is imported. */
  lemma RepeatedIdNeedsTwoPhases(t: Tables, scan: Scan, m: Mail)
    requires m.messageId !in t.raws
    ensures Scanned(t, scan, [m, m]).Clash?
    ensures Scanned(PersistedAll(t, [[m]]), scan, [m, m]).Imported?
  {
    hide Scanned, PersistedAll, Persisted;
    CountTwice(m);
    ClashExactly(t, scan, [m, m]);
    var two := PersistedAll(t, [[m]]);
    StoredAhead(t, m);
    if id :| id !in two.raws && Count([m, m], id) >= 2 {
      CountOther(m, id);
    }
    ClashExactly(two, scan, [m, m]);
  }

  lemma CountTwice(m: Mail)
    ensures Count([m, m], m.messageId) == 2
  {
    CountSnoc([m], m, m.messageId);
    CountSnoc([], m, m.messageId);
  }

  lemma CountOther(m: Mail, id: string)
    requires id != m.messageId
    ensures Count([m, m], id) == 0
  {
    CountSnoc([m], m, id);
    CountSnoc([], m, id);
  }

  lemma StoredAhead(t: Tables, m: Mail)
    requires m.messageId !in t.raws
    ensures m.messageId in PersistedAll(t, [[m]]).raws
  {
    assert [[m]][..0] == [] && [m][..0] == [];
    assert NotStored(t, [m]) == [m];
  }

  // ---------------------------------------------------------------------------
  // Timing

  /** Before the session, in it, or after it. */
  function PlainTiming(s: Session, receivedAt: int): Timing
  {
    if receivedAt < s.start then Early
    else if s.end.Some? && receivedAt > s.end.value then Late
    else OnTime
  }

  /** The configured grace period makes no difference to any message, unless the session ends more than
      two ticks before it starts. */
  lemma GraceMattersExactly(s: Session)
    ensures (forall grace, at :: ClassifyTiming(s.(grace := grace), at) == PlainTiming(s, at))
        <==> (s.end.None? || s.start <= s.end.value + 2)
  {
    if s.end.Some? && s.start > s.end.value + 2 {
      var at := s.end.value + 1;
      assert ClassifyTiming(s.(grace := 1), at) == Late;
      assert PlainTiming(s, at) == Early;
    }
  }
}
