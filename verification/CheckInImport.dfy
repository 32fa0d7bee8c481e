/** Importing check-ins from received messages: raw messages are stored under their unique message id,
    either by a scan that turns each into a check-in or, while no session is open, unparsed for a later
    scan. What a message says (its callsign and the other fields) is a parameter `read`. */
module CheckInImport {
  import opened PyText

  datatype Mail = Mail(messageId: string, receivedAt: int, from: string, body: string)

  datatype Raw = Raw(mail: Mail, parsed: bool)

  /** What the parser makes of a message; the callsign is empty when it finds none. */
  datatype Reading = Reading(callsign: string, details: string)

  datatype Timing = Early | OnTime | Late

  /** Times are in microseconds; an open-ended session has no end. */
  datatype Session = Session(id: int, start: int, end: Option<int>, grace: int)

  datatype CheckIn = CheckIn(session: int, messageId: string, reading: Reading, timing: Timing, newMember: bool)

  /** The committed tables: raw messages by message id, check-ins by row id. */
  datatype Tables = Tables(raws: map<string, Raw>, checkIns: map<int, CheckIn>, nextId: int)

  /** The session a scan imports into, the callsigns its net knows (None when the net is unknown), the parser. */
  datatype Scan = Scan(session: Session, members: Option<set<string>>, read: Mail -> Reading)

  /** A scan ends with the check-in kept for each callsign, or at a message id that is already stored. */
  datatype Outcome = Imported(tables: Tables, latest: map<string, int>) | Clash(tables: Tables)

  function ClassifyTiming(s: Session, receivedAt: int): Timing
  {
    if s.end.None? then
      if receivedAt >= s.start then OnTime else Early
    else if s.start <= receivedAt <= s.end.value then OnTime
    else if s.start - s.grace <= receivedAt < s.start then Early
    else if s.end.value < receivedAt <= s.end.value + s.grace then Late
    else if receivedAt < s.start then Early else Late
  }

  ghost predicate Valid(t: Tables) { forall k :: k in t.checkIns ==> k < t.nextId }

  function CheckInFor(scan: Scan, m: Mail): CheckIn
  {
    var r := scan.read(m);
    var isNew := r.callsign != "" && scan.members.Some? && r.callsign !in scan.members.value;
    CheckIn(scan.session.id, m.messageId, r, ClassifyTiming(scan.session, m.receivedAt), isNew)
  }

  predicate Done(t: Tables, id: string) { id in t.raws && t.raws[id].parsed }

  predicate Waiting(t: Tables, id: string) { id in t.raws && !t.raws[id].parsed }

  /** The messages of a batch that still have to be imported. */
  function NotDone(t: Tables, batch: seq<Mail>): (r: seq<Mail>)
    ensures forall m :: m in r <==> m in batch && !Done(t, m.messageId)
  {
    if batch == [] then []
    else
      var init, m := batch[..|batch| - 1], batch[|batch| - 1];
      assert batch == init + [m];
      if Done(t, m.messageId) then NotDone(t, init) else NotDone(t, init) + [m]
  }

  /** A stable sort by reception time: a message goes after all that were received no later. */
  function Insert(sorted: seq<Mail>, m: Mail): (r: seq<Mail>)
    ensures |r| == |sorted| + 1
  {
    if sorted == [] || sorted[|sorted| - 1].receivedAt <= m.receivedAt then sorted + [m]
    else Insert(sorted[..|sorted| - 1], m) + [sorted[|sorted| - 1]]
  }

  function ByTime(batch: seq<Mail>): (r: seq<Mail>)
    ensures |r| == |batch|
  {
    if batch == [] then [] else Insert(ByTime(batch[..|batch| - 1]), batch[|batch| - 1])
  }

  /** The message as it is stored: a waiting row is used as it stands. */
  function AsStored(t: Tables, m: Mail): Mail
  {
    if Waiting(t, m.messageId) then t.raws[m.messageId].mail else m
  }

  function Without<K, V>(m: map<K, V>, key: Option<K>): (r: map<K, V>)
  {
    if key.Some? then m - {key.value} else m
  }

  /** A scan under way: what is committed, the check-in kept so far for each callsign, and a superseded
      check-in whose deletion the next commit will write. */
  datatype Progress = Progress(tables: Tables, latest: map<string, int>, stale: Option<int>, clashed: bool)

  /** One message: its raw row is stored or reused, its check-in is committed, and the check-in it
      supersedes is marked for deletion. `t0` is the state when the scan began. */
  function Step(t0: Tables, scan: Scan, p: Progress, m: Mail): Progress
  {
    if p.clashed then p
    else if !Waiting(t0, m.messageId) && m.messageId in p.tables.raws then p.(clashed := true)
    else
      var stored := AsStored(t0, m);
      var id := p.tables.nextId;
      var c := CheckInFor(scan, stored);
      var callsign := c.reading.callsign;
      var tables := Tables(
        p.tables.raws[m.messageId := Raw(stored, true)],
        Without(p.tables.checkIns, p.stale)[id := c],
        id + 1);
      if callsign == "" then Progress(tables, p.latest, None, false)
      else
        Progress(
          tables, p.latest[callsign := id],
          if callsign in p.latest then Some(p.latest[callsign]) else None, false)
  }

  function Started(t: Tables): Progress { Progress(t, map[], None, false) }

  function Steps(t: Tables, scan: Scan, ms: seq<Mail>): Progress
  {
    if ms == [] then Started(t) else Step(t, scan, Steps(t, scan, ms[..|ms| - 1]), ms[|ms| - 1])
  }

  function Finished(p: Progress): Outcome
  {
    if p.clashed then Clash(p.tables)
    else Imported(p.tables.(checkIns := Without(p.tables.checkIns, p.stale)), p.latest)
  }

  function Scanned(t: Tables, scan: Scan, batch: seq<Mail>): Outcome
  {
    Finished(Steps(t, scan, ByTime(NotDone(t, batch))))
  }

  predicate Distinct(batch: seq<Mail>)
  {
    forall i, j :: 0 <= i < j < |batch| ==> batch[i].messageId != batch[j].messageId
  }

  /** The messages of a batch that are not stored yet. */
  function NotStored(t: Tables, batch: seq<Mail>): (r: seq<Mail>)
    ensures forall m :: m in r <==> m in batch && m.messageId !in t.raws
  {
    if batch == [] then []
    else
      var init, m := batch[..|batch| - 1], batch[|batch| - 1];
      assert batch == init + [m];
      if m.messageId in t.raws then NotStored(t, init) else NotStored(t, init) + [m]
  }

  /** The raw rows with those of a batch added, unparsed. */
  function WithRows(raws: map<string, Raw>, ms: seq<Mail>): map<string, Raw>
  {
    if ms == [] then raws else WithRows(raws, ms[..|ms| - 1])[ms[|ms| - 1].messageId := Raw(ms[|ms| - 1], false)]
  }

  /** Storing a batch unparsed is one transaction: a message id that comes twice stores nothing. */
  function Persisted(t: Tables, batch: seq<Mail>): Tables
  {
    var unseen := NotStored(t, batch);
    if Distinct(unseen) then t.(raws := WithRows(t.raws, unseen)) else t
  }

  /** The import as it runs, row by row; `checkIns`, `raws` and `nextId` are the committed tables. */
  class Importer {
    var raws: map<string, Raw>
    var checkIns: map<int, CheckIn>
    var nextId: int

    function State(): Tables
      reads this
    {
      Tables(raws, checkIns, nextId)
    }

    /** False when a message id came twice: the whole batch is rolled back. */
    method PersistRaw(batch: seq<Mail>) returns (ok: bool)
      modifies this`raws
      ensures State() == Persisted(old(State()), batch)
      ensures ok <==> Distinct(NotStored(old(State()), batch))
    {
      hide NotStored, WithRows, Distinct;
      ghost var t := State();
      var existing := raws;
      NothingSeen(t, batch);
      for i := 0 to |batch|
        invariant Distinct(NotStored(t, batch[..i]))
        invariant raws == WithRows(t.raws, NotStored(t, batch[..i]))
      {
        NotStoredSnoc(t, batch, i);
        var m := batch[i];
        if m.messageId in existing {
          continue;
        }
        if m.messageId in raws {
          raws := existing;
          Repeated(t, batch, i);
          return false;
        }
        NewRow(t.raws, NotStored(t, batch[..i]), m);
        raws := raws[m.messageId := Raw(m, false)];
      }
      assert batch[..|batch|] == batch;
      ok := true;
    }

    method ScanAndImport(scan: Scan, batch: seq<Mail>) returns (latest: Option<map<string, int>>)
      modifies this
      ensures var o := Scanned(old(State()), scan, batch);
        && State() == o.tables
        && latest == if o.Imported? then Some(o.latest) else None
    {
      hide NotDone, ByTime, Steps, CheckInFor, Without;
      var t := State();
      var ms := ByTime(NotDone(State(), batch));
      var kept: map<string, int> := map[];
      var stale: Option<int> := None;
      NoSteps(t, scan, ms);
      for i := 0 to |ms|
        invariant Steps(t, scan, ms[..i]) == Progress(State(), kept, stale, false)
      {
        StepsSnoc(t, scan, ms, i);
        var m := ms[i];
        var waiting := Waiting(t, m.messageId);
        if !waiting && m.messageId in raws {
          ClashStays(t, scan, ms, i + 1);
          return None;
        }
        var stored := AsStored(t, m);
        raws := raws[m.messageId := Raw(stored, true)];
        var c := CheckInFor(scan, stored);
        checkIns := Without(checkIns, stale)[nextId := c];
        stale := None;
        if c.reading.callsign != "" {
          if c.reading.callsign in kept {
            stale := Some(kept[c.reading.callsign]);
          }
          kept := kept[c.reading.callsign := nextId];
        }
        nextId := nextId + 1;
      }
      assert ms[..|ms|] == ms;
      checkIns := Without(checkIns, stale);
      latest := Some(kept);
    }
  }

  lemma NothingSeen(t: Tables, batch: seq<Mail>)
    ensures Distinct(NotStored(t, batch[..0])) && WithRows(t.raws, NotStored(t, batch[..0])) == t.raws
  {
  }

  lemma NotStoredSnoc(t: Tables, batch: seq<Mail>, i: nat)
    requires i < |batch|
    ensures var before := NotStored(t, batch[..i]);
      NotStored(t, batch[..i + 1]) == if batch[i].messageId in t.raws then before else before + [batch[i]]
  {
    assert batch[..i + 1][..i] == batch[..i];
  }

  /** A row is there if it was, or if some message of the batch has its id. */
  lemma {:induction false} RowsSeen(raws: map<string, Raw>, ms: seq<Mail>, id: string)
    ensures id in WithRows(raws, ms) <==> id in raws || exists i :: 0 <= i < |ms| && ms[i].messageId == id
  {
    if ms != [] {
      RowsSeen(raws, ms[..|ms| - 1], id);
      if i :| 0 <= i < |ms| && ms[i].messageId == id && i < |ms| - 1 {
        assert ms[..|ms| - 1][i] == ms[i];
      }
    }
  }

  lemma DistinctSnoc(ms: seq<Mail>, m: Mail)
    requires Distinct(ms) && forall i :: 0 <= i < |ms| ==> ms[i].messageId != m.messageId
    ensures Distinct(ms + [m])
  {
  }

  lemma WithRowsSnoc(raws: map<string, Raw>, ms: seq<Mail>, m: Mail)
    ensures WithRows(raws, ms + [m]) == WithRows(raws, ms)[m.messageId := Raw(m, false)]
  {
    assert (ms + [m])[..|ms|] == ms;
  }

  lemma NewRow(raws: map<string, Raw>, before: seq<Mail>, m: Mail)
    requires Distinct(before) && m.messageId !in WithRows(raws, before)
    ensures Distinct(before + [m])
    ensures WithRows(raws, before + [m]) == WithRows(raws, before)[m.messageId := Raw(m, false)]
  {
    hide WithRows, Distinct;
    RowsSeen(raws, before, m.messageId);
    DistinctSnoc(before, m);
    WithRowsSnoc(raws, before, m);
  }

  lemma NotStoredMonotone(t: Tables, batch: seq<Mail>, i: nat)
    requires i <= |batch|
    ensures NotStored(t, batch[..i]) <= NotStored(t, batch)
  {
    if i < |batch| {
      NotStoredMonotone(t, batch[..|batch| - 1], i);
      assert batch[..|batch| - 1][..i] == batch[..i];
    } else {
      assert batch[..i] == batch;
    }
  }

  /** Once a message repeats an id of its batch, the batch is not distinct. */
  lemma Repeated(t: Tables, batch: seq<Mail>, i: nat)
    requires i < |batch| && batch[i].messageId !in t.raws
    requires batch[i].messageId in WithRows(t.raws, NotStored(t, batch[..i]))
    ensures !Distinct(NotStored(t, batch))
  {
    hide NotStored, WithRows;
    var before := NotStored(t, batch[..i]);
    RowsSeen(t.raws, before, batch[i].messageId);
    var j :| 0 <= j < |before| && before[j].messageId == batch[i].messageId;
    NotStoredSnoc(t, batch, i);
    NotStoredMonotone(t, batch, i + 1);
    var all := NotStored(t, batch);
    assert all[j] == before[j] && all[|before|] == batch[i];
  }

  lemma NoSteps(t: Tables, scan: Scan, ms: seq<Mail>)
    ensures Steps(t, scan, ms[..0]) == Started(t)
  {
  }

  lemma StepsSnoc(t: Tables, scan: Scan, ms: seq<Mail>, i: nat)
    requires i < |ms|
    ensures Steps(t, scan, ms[..i + 1]) == Step(t, scan, Steps(t, scan, ms[..i]), ms[i])
  {
    hide Step;
    assert ms[..i + 1][..i] == ms[..i];
  }

  lemma ClashStays(t: Tables, scan: Scan, ms: seq<Mail>, i: nat)
    requires i <= |ms| && Steps(t, scan, ms[..i]).clashed
    ensures Steps(t, scan, ms) == Steps(t, scan, ms[..i])
  {
    if i < |ms| {
      assert ms[..|ms| - 1][..i] == ms[..i];
      ClashStays(t, scan, ms[..|ms| - 1], i);
    } else {
      assert ms[..i] == ms;
    }
  }
}
