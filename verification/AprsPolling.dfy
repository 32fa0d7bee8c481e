/** Sequence numbers, eviction order, and what a client that polls with a cursor sees. */
module AprsPolling {
  import opened PyText
  import opened AprsStore
  import opened AprsStoreLaws

  /** Every point ever added, with its station. */
  function History(ops: seq<Op>): (h: seq<(string, TrackPoint)>)
  {
    if ops == [] then []
    else
      var h := History(ops[..|ops| - 1]);
      match ops[|ops| - 1]
      case Add(r) => h + [(r.id, TrackPoint(r.lat, r.lon, r.ts, |h| + 1))]
      case DropOthers => h
  }

  /** A trail: points of one station in the order they were heard. */
  predicate TrailOf(trail: seq<TrackPoint>, id: string, h: seq<(string, TrackPoint)>)
  {
    && trail != []
    && (forall i, j :: 0 <= i < j < |trail| ==> trail[i].posSeq < trail[j].posSeq)
    && (forall i :: 0 <= i < |trail| ==> 1 <= trail[i].posSeq <= |h| && h[trail[i].posSeq - 1] == (id, trail[i]))
  }

  function LastSeq(t: Track): nat { if t.trail == [] then 0 else t.trail[|t.trail| - 1].posSeq }

  ghost predicate OrderedByLastHeard(s: Ideal)
  {
    && (forall i :: 0 <= i < |s.order| ==> s.order[i] in s.tracks && !s.tracks[s.order[i]].participant)
    && (forall i, j :: 0 <= i < j < |s.order| ==> LastSeq(s.tracks[s.order[i]]) < LastSeq(s.tracks[s.order[j]]))
  }

  ghost predicate Numbered(s: Ideal, h: seq<(string, TrackPoint)>)
  {
    && s.heard == |h|
    && (forall i :: 0 <= i < |h| ==> h[i].1.posSeq == i + 1)
    && (forall id :: id in s.tracks ==> TrailOf(s.tracks[id].trail, id, h))
  }

  lemma TrailGrows(trail: seq<TrackPoint>, id: string, h: seq<(string, TrackPoint)>, x: (string, TrackPoint))
    requires TrailOf(trail, id, h)
    ensures TrailOf(trail, id, h + [x])
  {
  }

  lemma TrailSnoc(trail: seq<TrackPoint>, id: string, h: seq<(string, TrackPoint)>, p: TrackPoint)
    requires trail == [] || TrailOf(trail, id, h)
    requires p.posSeq == |h| + 1
    ensures TrailOf(trail + [p], id, h + [(id, p)])
  {
  }

  lemma AddNumbered(s: Ideal, h: seq<(string, TrackPoint)>, r: Report)
    requires Numbered(s, h)
    ensures Numbered(IdealAdd(s, r), h + [(r.id, TrackPoint(r.lat, r.lon, r.ts, |h| + 1))])
  {
    hide TrailOf, Drop;
    var p := TrackPoint(r.lat, r.lon, r.ts, |h| + 1);
    var h' := h + [(r.id, p)];
    var known := if r.id in s.tracks then s.tracks[r.id].trail else [];
    TrailSnoc(known, r.id, h, p);
    forall id | id in s.tracks
      ensures TrailOf(s.tracks[id].trail, id, h')
    {
      TrailGrows(s.tracks[id].trail, id, h, (r.id, p));
    }
  }

  lemma {:induction false} RunNumbered(ops: seq<Op>)
    ensures Numbered(IdealRun(ops), History(ops))
    decreases |ops|
  {
    hide IdealAdd, TrailOf;
    if ops != [] {
      var init := ops[..|ops| - 1];
      RunNumbered(init);
      match ops[|ops| - 1] {
        case Add(r) => AddNumbered(IdealRun(init), History(init), r);
        case DropOthers =>
      }
    }
  }

  /** No two points anywhere in the store share a sequence number. */
  lemma PointsAreUnique(ops: seq<Op>, a: Station, b: Station, i: nat, j: nat)
    requires a in Run(ops).participants + Run(ops).others && b in Run(ops).participants + Run(ops).others
    requires i < |a.points| && j < |b.points| && a.points[i].posSeq == b.points[j].posSeq
    ensures a == b && i == j
  {
    hide TrailOf, Run, IdealRun, History;
    var p, s, h := Run(ops), IdealRun(ops), History(ops);
    StoreRefines(ops);
    RunNumbered(ops);
    var ta := StationTrack(p, s, a);
    var tb := StationTrack(p, s, b);
    PointInHistory(ta, a, h, i);
    PointInHistory(tb, b, h, j);
    SameStation(p, s, a, b);
    PointsIncrease(ta, a, h);
  }

  lemma StationTrack(p: Pools, s: Ideal, a: Station) returns (t: Track)
    requires Refines(p, s) && a in p.participants + p.others
    ensures a.id in s.tracks && t == s.tracks[a.id] && Holds(a, t)
  {
    hide Holds;
    t := s.tracks[a.id];
  }

  lemma SameStation(p: Pools, s: Ideal, a: Station, b: Station)
    requires Refines(p, s) && a in p.participants + p.others && b in p.participants + p.others && a.id == b.id
    ensures a == b
  {
    hide Holds;
  }

  lemma PointInHistory(t: Track, a: Station, h: seq<(string, TrackPoint)>, i: nat)
    requires Holds(a, t) && TrailOf(t.trail, a.id, h) && i < |a.points|
    ensures 1 <= a.points[i].posSeq <= |h| && h[a.points[i].posSeq - 1] == (a.id, a.points[i])
  {
  }

  lemma PointsIncrease(t: Track, a: Station, h: seq<(string, TrackPoint)>)
    requires Holds(a, t) && TrailOf(t.trail, a.id, h)
    ensures forall i, j :: 0 <= i < j < |a.points| ==> a.points[i].posSeq < a.points[j].posSeq
  {
  }

  // ---------------------------------------------------------------------------
  // Eviction

  /** The ids name tracks in the order of their last points. */
  ghost predicate Increasing(tracks: map<string, Track>, order: seq<string>)
  {
    && (forall i :: 0 <= i < |order| ==> order[i] in tracks)
    && (forall i, j :: 0 <= i < j < |order| ==> LastSeq(tracks[order[i]]) < LastSeq(tracks[order[j]]))
  }

  lemma IncreasingCons(tracks: map<string, Track>, x: string, order: seq<string>)
    requires Increasing(tracks, order) && x in tracks
    requires forall y :: y in order ==> y in tracks && LastSeq(tracks[x]) < LastSeq(tracks[y])
    ensures Increasing(tracks, [x] + order)
  {
    hide LastSeq;
    var r := [x] + order;
    forall i, j | 0 <= i < j < |r|
      ensures r[j] in tracks && (i == 0 ==> LastSeq(tracks[r[i]]) < LastSeq(tracks[r[j]]))
    {
      assert r[j] == order[j - 1];
    }
  }

  lemma IncreasingTail(tracks: map<string, Track>, order: seq<string>)
    requires Increasing(tracks, order) && order != []
    ensures Increasing(tracks, order[1..])
    ensures forall y :: y in order[1..] ==> y in tracks && LastSeq(tracks[order[0]]) < LastSeq(tracks[y])
  {
    hide LastSeq;
    var rest := order[1..];
    assert forall i :: 0 <= i < |rest| ==> rest[i] == order[i + 1];
  }

  lemma {:induction false} DropKeepsOrder(tracks: map<string, Track>, order: seq<string>, id: string)
    requires Increasing(tracks, order)
    ensures Increasing(tracks, Drop(order, id))
  {
    hide LastSeq, Increasing;
    if order != [] {
      IncreasingTail(tracks, order);
      DropKeepsOrder(tracks, order[1..], id);
      if order[0] != id {
        assert order[0] in tracks by { HeadIsTrack(tracks, order); }
        IncreasingCons(tracks, order[0], Drop(order[1..], id));
      }
    }
  }

  lemma HeadIsTrack(tracks: map<string, Track>, order: seq<string>)
    requires Increasing(tracks, order) && order != []
    ensures order[0] in tracks
  {
  }

  lemma NewTrackIsLatest(s: Ideal, r: Report, h: seq<(string, TrackPoint)>)
    requires Numbered(s, h)
    ensures LastSeq(NewTrack(s, r)) == s.heard + 1
    ensures forall id :: id in s.tracks ==> LastSeq(s.tracks[id]) <= s.heard
  {
  }

  lemma {:induction false} OrderBeforeCap(s: Ideal, r: Report, h: seq<(string, TrackPoint)>)
    requires Numbered(s, h) && OrderedByLastHeard(s)
    ensures OrderedByLastHeard(Ideal(s.tracks[r.id := NewTrack(s, r)],
                                     Drop(s.order, r.id) + if NewTrack(s, r).participant then [] else [r.id],
                                     s.heard + 1))
  {
    hide Numbered, NewTrack, LastSeq;
    var t := NewTrack(s, r);
    NewTrackIsLatest(s, r, h);
    DropKeepsOrder(s.tracks, s.order, r.id);
    var d := Drop(s.order, r.id);
    var order := d + if t.participant then [] else [r.id];
    forall i | 0 <= i < |d|
      ensures d[i] != r.id && d[i] in s.order && d[i] in s.tracks && !s.tracks[d[i]].participant
    {
      assert d[i] in d;
    }
  }

  lemma OrderAfterCap(tracks: map<string, Track>, order: seq<string>, heard: nat)
    requires OrderedByLastHeard(Ideal(tracks, order, heard)) && order != []
    ensures OrderedByLastHeard(Ideal(tracks - {order[0]}, order[1..], heard))
  {
    var rest := order[1..];
    assert forall i :: 0 <= i < |rest| ==> rest[i] == order[i + 1];
  }

  lemma {:induction false} RunOrdered(ops: seq<Op>)
    ensures OrderedByLastHeard(IdealRun(ops))
    decreases |ops|
  {
    hide IdealAdd, Drop, OrderedByLastHeard, NewTrack;
    if ops == [] {
      assert OrderedByLastHeard(Ideal(map[], [], 0)) by { EmptyOrdered(map[], 0); }
    } else {
      var init := ops[..|ops| - 1];
      var s := IdealRun(init);
      RunOrdered(init);
      match ops[|ops| - 1] {
        case Add(r) =>
          RunNumbered(init);
          OrderBeforeCap(s, r, History(init));
          IdealAddIs(s, r);
          var order := Drop(s.order, r.id) + if NewTrack(s, r).participant then [] else [r.id];
          if |order| > OTHER_STATIONS_CAP {
            OrderAfterCap(s.tracks[r.id := NewTrack(s, r)], order, s.heard + 1);
          }
        case DropOthers => EmptyOrdered(IdealStep(s, DropOthers).tracks, s.heard);
      }
    }
  }

  lemma EmptyOrdered(tracks: map<string, Track>, heard: nat)
    ensures OrderedByLastHeard(Ideal(tracks, [], heard))
  {
  }

  /** The others before the cap is applied: who would have to go, and what is then left. */
  lemma CapDropsHead(s: Ideal, r: Report, h: seq<(string, TrackPoint)>)
    requires Numbered(s, h) && OrderedByLastHeard(s) && |s.order| <= OTHER_STATIONS_CAP
    requires var order := Drop(s.order, r.id) + if NewTrack(s, r).participant then [] else [r.id];
      |order| > OTHER_STATIONS_CAP
    ensures var order := Drop(s.order, r.id) + if NewTrack(s, r).participant then [] else [r.id];
      var tracks := s.tracks[r.id := NewTrack(s, r)];
      && |order| == OTHER_STATIONS_CAP + 1 && order[0] in s.order && order[0] != r.id
      && Increasing(tracks, order)
  {
    hide NewTrack, LastSeq, Numbered;
    DropShrinks(s.order, r.id);
    OrderBeforeCap(s, r, h);
    assert Drop(s.order, r.id)[0] in Drop(s.order, r.id);
  }

  /** A report makes at most one station disappear: another station, heard longer ago than every
      other station that stays, and only when the cap would otherwise be exceeded. */
  lemma EvictsLeastRecentlyHeard(ops: seq<Op>, r: Report, gone: string)
    requires var before, after := IdealRun(ops), IdealAdd(IdealRun(ops), r);
      (gone in before.tracks || gone == r.id) && gone !in after.tracks
    ensures var before, after := IdealRun(ops), IdealAdd(IdealRun(ops), r);
      && gone in before.tracks && !before.tracks[gone].participant
      && after.tracks.Keys == before.tracks.Keys + {r.id} - {gone}
      && |after.order| == OTHER_STATIONS_CAP
      && forall id :: id in after.order ==>
           id in after.tracks && LastSeq(before.tracks[gone]) < LastSeq(after.tracks[id])
  {
    hide Drop, NewTrack, IdealAdd, LastSeq, IdealRun, Numbered, Increasing;
    var s := IdealRun(ops);
    RunOrdered(ops);
    RunNumbered(ops);
    IdealAddIs(s, r);
    OrderWithinCap(ops);
    var order := Drop(s.order, r.id) + if NewTrack(s, r).participant then [] else [r.id];
    var tracks := s.tracks[r.id := NewTrack(s, r)];
    CapDropsHead(s, r, History(ops));
    IncreasingTail(tracks, order);
    assert gone == order[0] && tracks[gone] == s.tracks[gone];
    forall id | id in order[1..]
      ensures id != gone
    {
      assert LastSeq(tracks[gone]) < LastSeq(tracks[id]);
    }
  }

  lemma OrderWithinCap(ops: seq<Op>)
    ensures |IdealRun(ops).order| <= OTHER_STATIONS_CAP
  {
    hide PoolHolds;
    StoreRefines(ops);
  }

  // ---------------------------------------------------------------------------
  // Polling

  /** The points added for one station by a run that starts after `heard` points. */
  function HeardOf(ops: seq<Op>, id: string, heard: nat): (r: seq<TrackPoint>)
  {
    if ops == [] then []
    else
      var init := ops[..|ops| - 1];
      match ops[|ops| - 1]
      case Add(r) =>
        HeardOf(init, id, heard)
        + if r.id == id then [TrackPoint(r.lat, r.lon, r.ts, heard + Adds(init) + 1)] else []
      case DropOthers => HeardOf(init, id, heard)
  }

  function Adds(ops: seq<Op>): nat
  {
    if ops == [] then 0 else Adds(ops[..|ops| - 1]) + if ops[|ops| - 1].Add? then 1 else 0
  }

  /** Once the station is there, no step of `more` makes it disappear; it may appear on the way. */
  ghost predicate Remains(ops: seq<Op>, more: seq<Op>, id: string)
  {
    forall k :: 0 <= k < |more| && id in IdealRun(ops + more[..k]).tracks ==> id in IdealRun(ops + more[..k + 1]).tracks
  }

  /** Every point heard of a present station, none of an absent one. */
  function Trail(s: Ideal, id: string): seq<TrackPoint> { if id in s.tracks then s.tracks[id].trail else [] }

  lemma IdealRunSnoc(ops: seq<Op>, op: Op)
    ensures IdealRun(ops + [op]) == IdealStep(IdealRun(ops), op)
  {
    assert (ops + [op])[..|ops + [op]| - 1] == ops;
  }

  /** A report never makes its own station disappear. */
  lemma ReportedIsThere(s: Ideal, r: Report)
    ensures r.id in IdealAdd(s, r).tracks
  {
    hide Drop;
  }

  lemma StepExtendsTrail(s: Ideal, op: Op, id: string)
    requires id in s.tracks ==> id in IdealStep(s, op).tracks
    ensures IdealStep(s, op).heard == s.heard + if op.Add? then 1 else 0
    ensures Trail(IdealStep(s, op), id)
         == Trail(s, id) + if op.Add? && op.report.id == id
                           then [TrackPoint(op.report.lat, op.report.lon, op.report.ts, s.heard + 1)] else []
  {
    hide Drop;
    if op.Add? {
      ReportedIsThere(s, op.report);
    }
  }

  lemma {:induction false} TrailExtends(ops: seq<Op>, more: seq<Op>, id: string)
    requires Remains(ops, more, id)
    ensures Trail(IdealRun(ops + more), id) == Trail(IdealRun(ops), id) + HeardOf(more, id, IdealRun(ops).heard)
    ensures IdealRun(ops + more).heard == IdealRun(ops).heard + Adds(more)
    decreases |more|
  {
    hide IdealRun, IdealStep, Trail;
    if more == [] {
      assert ops + more == ops;
    } else {
      var init, op := more[..|more| - 1], more[|more| - 1];
      forall k | 0 <= k < |init| && id in IdealRun(ops + init[..k]).tracks
        ensures id in IdealRun(ops + init[..k + 1]).tracks
      {
        assert init[..k] == more[..k] && init[..k + 1] == more[..k + 1];
      }
      TrailExtends(ops, init, id);
      assert more[..|init|] == init && more[..|init| + 1] == more;
      assert ops + more == ops + init + [op];
      IdealRunSnoc(ops + init, op);
      StepExtendsTrail(IdealRun(ops + init), op, id);
    }
  }

  lemma {:induction false} HeardOfIsLater(ops: seq<Op>, id: string, heard: nat)
    ensures forall i :: 0 <= i < |HeardOf(ops, id, heard)| ==> HeardOf(ops, id, heard)[i].posSeq > heard
    decreases |ops|
  {
    if ops != [] {
      HeardOfIsLater(ops[..|ops| - 1], id, heard);
    }
  }

  lemma {:induction false} AfterNone(points: seq<TrackPoint>, since: nat)
    requires forall i :: 0 <= i < |points| ==> points[i].posSeq <= since
    ensures After(points, since) == []
  {
    if points != [] {
      AfterNone(points[..|points| - 1], since);
    }
  }

  lemma {:induction false} AfterSplits(earlier: seq<TrackPoint>, later: seq<TrackPoint>, since: nat)
    requires forall i :: 0 <= i < |earlier| ==> earlier[i].posSeq <= since
    requires forall i :: 0 <= i < |later| ==> later[i].posSeq > since
    ensures After(earlier + later, since) == later
    decreases |later|
  {
    if later == [] {
      assert earlier + later == earlier;
      AfterNone(earlier, since);
    } else {
      var t, init, x := earlier + later, later[..|later| - 1], later[|later| - 1];
      AfterSplits(earlier, init, since);
      assert t[..|t| - 1] == earlier + init && t[|t| - 1] == x;
      assert After(t, since) == init + [x];
    }
  }

  lemma {:induction false} AfterShrinks(points: seq<TrackPoint>, since: nat)
    ensures |After(points, since)| <= |points|
  {
    if points != [] {
      AfterShrinks(points[..|points| - 1], since);
    }
  }

  /** A poll gives the last 120 of the points heard since the cursor of a station that is there and did not leave
      since. */
  lemma {:induction false} PollGivesLast(ops: seq<Op>, more: seq<Op>, a: Station)
    requires a in Run(ops + more).participants + Run(ops + more).others && Remains(ops, more, a.id)
    ensures var since := Run(ops).seqNo;
      Shown(a, since).points == LastN(HeardOf(more, a.id, since), TRAIL_MAX_POINTS)
  {
    hide Run, IdealRun, After, TrailOf, HeardOf, Remains;
    StoreRefines(ops);
    StoreRefines(ops + more);
    TrailExtends(ops, more, a.id);
    RunNumbered(ops);
    var since := IdealRun(ops).heard;
    var first, later := Trail(IdealRun(ops), a.id), HeardOf(more, a.id, since);
    HeardOfIsLater(more, a.id, since);
    var t := StationTrack(Run(ops + more), IdealRun(ops + more), a);
    assert a.points == LastN(first + later, TRAIL_MAX_POINTS);
    var last := LastN(later, TRAIL_MAX_POINTS);
    var kept := LastN(first, TRAIL_MAX_POINTS - |last|);
    assert a.points == kept + last;
    TrailIsEarlier(IdealRun(ops), a.id, History(ops));
    AfterSplits(kept, last, since);
  }

  /** So it gives them completely if and only if no more than 120 of them came in. */
  lemma PollIsCompleteExactly(ops: seq<Op>, more: seq<Op>, a: Station)
    requires a in Run(ops + more).participants + Run(ops + more).others && Remains(ops, more, a.id)
    ensures var since := Run(ops).seqNo; var heard := HeardOf(more, a.id, since);
      Shown(a, since).points == heard <==> |heard| <= TRAIL_MAX_POINTS
  {
    hide Run, IdealRun, HeardOf, Remains;
    PollGivesLast(ops, more, a);
  }

  /** What a snapshot says of a station but for its points. */
  predicate SaysOf(shown: Station, t: Track)
  {
    && shown.kind == (if t.participant then Participant else Other) && shown.callsign == t.callsign
    && shown.symbol == t.symbol && shown.comment == t.comment && shown.lastHeard == t.lastHeard
  }

  /** Every present station once, participants first, the others from least to most recently heard, each with all
      that is known of it. */
  ghost predicate ShowsAll(all: seq<Station>, s: Ideal, participants: nat)
  {
    && |all| == participants + |s.order|
    && (forall i :: 0 <= i < |all| ==> all[i].id in s.tracks && SaysOf(all[i], s.tracks[all[i].id]))
    && (forall i, j :: 0 <= i < j < |all| ==> all[i].id != all[j].id)
    && (forall i :: 0 <= i < |all| ==> (i < participants <==> s.tracks[all[i].id].participant))
    && (forall i :: 0 <= i < |s.order| ==> all[participants + i].id == s.order[i])
    && (forall id :: id in s.tracks ==> IsShown(all, id))
  }

  ghost predicate IsShown(all: seq<Station>, id: string) { exists i :: 0 <= i < |all| && all[i].id == id }

  lemma ShownIn(p: Pools, s: Ideal, since: nat, id: string)
    requires Refines(p, s) && id in s.tracks
    ensures IsShown(ShownAll(p.participants + p.others, since), id)
  {
    hide After, PoolHolds;
    var all := ShownAll(p.participants + p.others, since);
    if s.tracks[id].participant {
      var i :| 0 <= i < |p.participants| && Ids(p.participants)[i] == id;
      assert all[i].id == id;
    } else {
      var i :| 0 <= i < |p.others| && Ids(p.others)[i] == id;
      assert all[|p.participants| + i].id == id;
    }
  }

  lemma ShownSays(p: Pools, s: Ideal, since: nat, i: nat)
    requires Refines(p, s) && i < |p.participants| + |p.others|
    ensures var all := ShownAll(p.participants + p.others, since);
      && all[i].id in s.tracks && SaysOf(all[i], s.tracks[all[i].id])
      && (i < |p.participants| <==> s.tracks[all[i].id].participant)
      && (i >= |p.participants| ==> all[i].id == s.order[i - |p.participants|])
  {
    hide After, UniqueIds;
  }

  /** After any run a snapshot shows what there is. */
  lemma SnapshotShowsAll(ops: seq<Op>, since: nat)
    ensures var p := Run(ops);
      ShowsAll(ShownAll(p.participants + p.others, since), IdealRun(ops), |p.participants|)
  {
    hide Run, IdealRun, PoolHolds, SaysOf, After, UniqueIds, IsShown;
    StoreRefines(ops);
    var p, s := Run(ops), IdealRun(ops);
    RunConsistent(ops);
    DistinctAll(p);
    forall i | 0 <= i < |p.participants| + |p.others|
      ensures var all := ShownAll(p.participants + p.others, since);
        && all[i].id in s.tracks && SaysOf(all[i], s.tracks[all[i].id])
        && (i < |p.participants| <==> s.tracks[all[i].id].participant)
        && (i >= |p.participants| ==> all[i].id == s.order[i - |p.participants|])
    {
      ShownSays(p, s, since, i);
    }
    forall id | id in s.tracks
      ensures IsShown(ShownAll(p.participants + p.others, since), id)
    {
      ShownIn(p, s, since, id);
    }
  }

  lemma DistinctAll(p: Pools)
    requires Consistent(p)
    ensures var pool := p.participants + p.others; forall i, j :: 0 <= i < j < |pool| ==> pool[i].id != pool[j].id
  {
  }

  lemma TrailIsEarlier(s: Ideal, id: string, h: seq<(string, TrackPoint)>)
    requires Numbered(s, h)
    ensures forall i :: 0 <= i < |Trail(s, id)| ==> Trail(s, id)[i].posSeq <= s.heard
  {
  }

  /** The run up to and including the first n segments. */
  function Upto(ops: seq<Op>, segments: seq<seq<Op>>): seq<Op>
  {
    if segments == [] then ops else Upto(ops, segments[..|segments| - 1]) + segments[|segments| - 1]
  }

  /** The station as the store holds it. */
  ghost predicate Present(ops: seq<Op>, id: string, a: Station)
  {
    a.id == id && a in Run(ops).participants + Run(ops).others
  }

  ghost function TheStation(ops: seq<Op>, id: string): (a: Station)
    requires id in IdealRun(ops).tracks
    ensures Present(ops, id, a)
  {
    StationExists(ops, id);
    var a :| Present(ops, id, a);
    a
  }

  lemma StationExists(ops: seq<Op>, id: string)
    requires id in IdealRun(ops).tracks
    ensures exists a :: Present(ops, id, a)
  {
    hide Run, IdealRun, PoolHolds;
    StoreRefines(ops);
    var p := Run(ops);
    if id in Ids(p.participants) {
      var i :| 0 <= i < |p.participants| && Ids(p.participants)[i] == id;
      assert Present(ops, id, p.participants[i]);
    } else {
      var i :| 0 <= i < |p.others| && Ids(p.others)[i] == id;
      assert Present(ops, id, p.others[i]);
    }
  }

  /** The station did not leave during any segment once it was there, and sent at most 120 points in each. */
  ghost predicate Followed(ops: seq<Op>, segments: seq<seq<Op>>, id: string)
  {
    forall n :: 0 <= n < |segments| ==> RemainsWithin(Upto(ops, segments[..n]), segments[n], id)
  }

  ghost predicate RemainsWithin(ops: seq<Op>, more: seq<Op>, id: string)
  {
    Remains(ops, more, id) && |HeardOf(more, id, Run(ops).seqNo)| <= TRAIL_MAX_POINTS
  }

  lemma FollowedInit(ops: seq<Op>, segments: seq<seq<Op>>, id: string)
    requires Followed(ops, segments, id) && segments != []
    ensures Followed(ops, segments[..|segments| - 1], id)
    ensures RemainsWithin(Upto(ops, segments[..|segments| - 1]), segments[|segments| - 1], id)
  {
    hide RemainsWithin;
    var init := segments[..|segments| - 1];
    assert forall n :: 0 <= n <= |init| ==> init[..n] == segments[..n];
    assert forall n :: 0 <= n < |init| ==> init[n] == segments[n];
  }

  /** What a poll with the cursor gives of the station; nothing while it is not there. */
  ghost function Polled(ops: seq<Op>, id: string, since: nat): seq<TrackPoint>
  {
    if id in IdealRun(ops).tracks then Shown(TheStation(ops, id), since).points else []
  }

  /** The points a client has after polling at the end of every segment with the last cursor. */
  ghost function Collected(ops: seq<Op>, segments: seq<seq<Op>>, id: string): seq<TrackPoint>
    decreases |segments|
  {
    if segments == [] then []
    else
      var init := segments[..|segments| - 1];
      Collected(ops, init, id) + Polled(Upto(ops, segments), id, Run(Upto(ops, init)).seqNo)
  }

  lemma PollAddsTrail(before: seq<Op>, last: seq<Op>, id: string)
    requires RemainsWithin(before, last, id)
    ensures Trail(IdealRun(before + last), id)
         == Trail(IdealRun(before), id) + Polled(before + last, id, Run(before).seqNo)
  {
    hide Run, IdealRun, HeardOf, Remains, Shown;
    TrailExtends(before, last, id);
    StoreHeard(before);
    if id in IdealRun(before + last).tracks {
      PollIsCompleteExactly(before, last, TheStation(before + last, id));
    }
  }

  /** A client that polls with its last cursor gets of every station that does not leave, whenever it
      appears, and that sends at most 120 points between polls, every point heard from it since polling
      began; polling from the start of the store, the whole of what was ever heard. */
  lemma {:induction false} ChainedPollsLoseNothing(ops: seq<Op>, segments: seq<seq<Op>>, id: string)
    requires Followed(ops, segments, id)
    ensures Trail(IdealRun(Upto(ops, segments)), id) == Trail(IdealRun(ops), id) + Collected(ops, segments, id)
    ensures ops == [] ==> Collected(ops, segments, id) == Trail(IdealRun(Upto(ops, segments)), id)
    decreases |segments|
  {
    hide Run, Shown, Followed, RemainsWithin, Polled;
    if segments != [] {
      var init, last := segments[..|segments| - 1], segments[|segments| - 1];
      FollowedInit(ops, segments, id);
      ChainedPollsLoseNothing(ops, init, id);
      PollAddsTrail(Upto(ops, init), last, id);
    }
  }

  lemma StoreHeard(ops: seq<Op>)
    ensures Run(ops).seqNo == IdealRun(ops).heard
  {
    StoreRefines(ops);
  }
}
