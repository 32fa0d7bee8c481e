/** The bounded store against an unbounded one that never forgets a point of a station it still has. */
module AprsStoreLaws {
  import opened PyText
  import opened AprsStore

  datatype Op = Add(report: Report) | DropOthers

  function Step(p: Pools, op: Op): Pools
  {
    match op
    case Add(r) => Added(p, r)
    case DropOthers => Dropped(p)
  }

  /** The store after a run that started empty. */
  function Run(ops: seq<Op>): Pools
  {
    if ops == [] then Pools([], [], 0) else Step(Run(ops[..|ops| - 1]), ops[|ops| - 1])
  }

  /** What is known of a present station when nothing is thrown away. */
  datatype Track = Track(
    participant: bool, callsign: Option<string>, symbol: Option<string>, comment: Option<string>,
    lastHeard: int, trail: seq<TrackPoint>)

  /** Every present station by id, and the ids of the other stations from least to most recently heard. */
  datatype Ideal = Ideal(tracks: map<string, Track>, order: seq<string>, heard: nat)

  function Drop(order: seq<string>, id: string): (r: seq<string>)
    ensures id !in r && forall x :: x in r <==> x in order && x != id
  {
    if order == [] then []
    else if order[0] == id then Drop(order[1..], id)
    else [order[0]] + Drop(order[1..], id)
  }

  function Latest<T>(given: Option<T>, known: Option<T>): Option<T> { if given.Some? then given else known }

  function IdealAdd(s: Ideal, r: Report): Ideal
  {
    var known := r.id in s.tracks;
    var wasParticipant := known && s.tracks[r.id].participant;
    var participant := wasParticipant || r.kind.Participant?;
    var callsign := if !known || (participant && !wasParticipant) then r.callsign else s.tracks[r.id].callsign;
    var track := Track(
      participant, callsign,
      if known then Latest(r.symbol, s.tracks[r.id].symbol) else r.symbol,
      if known then Latest(r.comment, s.tracks[r.id].comment) else r.comment,
      r.ts,
      (if known then s.tracks[r.id].trail else []) + [TrackPoint(r.lat, r.lon, r.ts, s.heard + 1)]);
    var order := Drop(s.order, r.id) + if participant then [] else [r.id];
    var evicted := if |order| > OTHER_STATIONS_CAP then {order[0]} else {};
    Ideal(s.tracks[r.id := track] - evicted, if |order| > OTHER_STATIONS_CAP then order[1..] else order, s.heard + 1)
  }

  function IdealStep(s: Ideal, op: Op): Ideal
  {
    match op
    case Add(r) => IdealAdd(s, r)
    case DropOthers => Ideal(map id | id in s.tracks && s.tracks[id].participant :: s.tracks[id], [], s.heard)
  }

  function IdealRun(ops: seq<Op>): Ideal
  {
    if ops == [] then Ideal(map[], [], 0) else IdealStep(IdealRun(ops[..|ops| - 1]), ops[|ops| - 1])
  }

  // ---------------------------------------------------------------------------
  // The refinement

  /** The station holds the track's facts and the last 120 points of its trail. */
  predicate Holds(s: Station, t: Track)
  {
    && s.kind == (if t.participant then Participant else Other)
    && s.callsign == t.callsign && s.symbol == t.symbol && s.comment == t.comment && s.lastHeard == t.lastHeard
    && s.points == LastN(t.trail, TRAIL_MAX_POINTS)
  }

  predicate PoolHolds(pool: seq<Station>, tracks: map<string, Track>, participant: bool)
  {
    && UniqueIds(pool)
    && forall i :: 0 <= i < |pool| ==>
      pool[i].id in tracks && Holds(pool[i], tracks[pool[i].id]) && tracks[pool[i].id].participant == participant
  }

  function Ids(pool: seq<Station>): (r: seq<string>)
    ensures |r| == |pool| && forall i :: 0 <= i < |pool| ==> r[i] == pool[i].id
  {
    seq(|pool|, i requires 0 <= i < |pool| => pool[i].id)
  }

  /** Which pool holds which id. */
  ghost predicate Placed(p: Pools, tracks: map<string, Track>)
  {
    forall id :: id in tracks ==> if tracks[id].participant then id in Ids(p.participants) else id in Ids(p.others)
  }

  ghost predicate Refines(p: Pools, s: Ideal)
  {
    && p.seqNo == s.heard
    && PoolHolds(p.participants, s.tracks, true) && PoolHolds(p.others, s.tracks, false)
    && Ids(p.others) == s.order && |p.others| <= OTHER_STATIONS_CAP
    && Placed(p, s.tracks)
  }

  lemma LastNSnoc<T>(s: seq<T>, n: nat, x: T)
    requires n > 0
    ensures LastN(LastN(s, n) + [x], n) == LastN(s + [x], n)
  {
  }

  lemma HasIds(pool: seq<Station>, id: string)
    ensures Has(pool, id) <==> id in Ids(pool)
  {
    var i := Position(pool, id);
    if i < |pool| {
      assert Ids(pool)[i] == id;
    }
  }

  lemma PositionCons(pool: seq<Station>, id: string)
    requires pool != [] && pool[0].id != id
    ensures Position(pool, id) == 1 + Position(pool[1..], id)
  {
  }

  lemma {:induction false} DropIsWithout(pool: seq<Station>, id: string)
    requires UniqueIds(pool)
    ensures Drop(Ids(pool), id) == if Has(pool, id) then Ids(Without(pool, Position(pool, id))) else Ids(pool)
    decreases |pool|
  {
    hide UniqueIds, Position, Without, Drop, Ids;
    if pool == [] {
      DropNothing(id);
    } else {
      var rest := pool[1..];
      TailUnique(pool);
      IdsCons(pool);
      DropCons(pool[0].id, Ids(rest), id);
      DropIsWithout(rest, id);
      if pool[0].id == id {
        WithoutFirst(pool);
        HeadNotInTail(pool);
        FoundFirst(pool);
      } else {
        PositionCons(pool, id);
        if Has(rest, id) {
          WithoutCons(pool, Position(rest, id));
        }
      }
    }
  }

  lemma DropNothing(id: string)
    ensures Drop([], id) == [] && Ids([]) == [] && !Has([], id)
  {
  }

  lemma {:induction false} DropCons(first: string, order: seq<string>, id: string)
    ensures Drop([first] + order, id) == if first == id then Drop(order, id) else [first] + Drop(order, id)
  {
    assert ([first] + order)[1..] == order;
  }

  lemma IdsCons(pool: seq<Station>)
    requires pool != []
    ensures Ids(pool) == [pool[0].id] + Ids(pool[1..])
  {
  }

  lemma FoundFirst(pool: seq<Station>)
    requires pool != []
    ensures Position(pool, pool[0].id) == 0
  {
  }

  lemma WithoutFirst(pool: seq<Station>)
    requires pool != []
    ensures Without(pool, 0) == pool[1..]
  {
  }

  lemma TailUnique(pool: seq<Station>)
    requires pool != [] && UniqueIds(pool)
    ensures UniqueIds(pool[1..])
  {
    var rest := pool[1..];
    assert forall i :: 0 <= i < |rest| ==> rest[i] == pool[i + 1];
  }

  lemma HeadNotInTail(pool: seq<Station>)
    requires pool != [] && UniqueIds(pool)
    ensures !Has(pool[1..], pool[0].id)
  {
    var rest := pool[1..];
    assert forall i :: 0 <= i < |rest| ==> rest[i] == pool[i + 1];
  }

  lemma WithoutCons(pool: seq<Station>, k: nat)
    requires k + 1 < |pool|
    ensures Ids(Without(pool, k + 1)) == [pool[0].id] + Ids(Without(pool[1..], k))
  {
    assert Without(pool, k + 1) == [pool[0]] + Without(pool[1..], k);
  }

  /** The track after a report. */
  function NewTrack(s: Ideal, r: Report): Track { IdealAdd(s.(order := []), r).tracks[r.id] }

  lemma UpdatedHolds(s: Ideal, pool: seq<Station>, r: Report, kind: Kind, participant: bool)
    requires PoolHolds(pool, s.tracks, participant) && kind == (if participant then Participant else Other)
    requires r.id in s.tracks ==> Has(pool, r.id)
    requires participant ==> r.id in s.tracks || r.kind.Participant?
    requires !participant ==> !r.kind.Participant?
    ensures Updated(pool, r, kind, s.heard + 1).id == r.id
    ensures Holds(Updated(pool, r, kind, s.heard + 1), NewTrack(s, r))
    ensures NewTrack(s, r).participant == participant
  {
    var i := Position(pool, r.id);
    if i < |pool| {
      LastNSnoc(s.tracks[r.id].trail, TRAIL_MAX_POINTS, TrackPoint(r.lat, r.lon, r.ts, s.heard + 1));
    } else {
      assert [] + [TrackPoint(r.lat, r.lon, r.ts, s.heard + 1)] == [TrackPoint(r.lat, r.lon, r.ts, s.heard + 1)];
    }
  }

  lemma PutHolds(pool: seq<Station>, tracks: map<string, Track>, u: Station, t: Track, participant: bool)
    requires PoolHolds(pool, tracks, participant) && Holds(u, t) && t.participant == participant
    ensures PoolHolds(Put(pool, u), tracks[u.id := t], participant)
    ensures forall id :: id in Ids(Put(pool, u)) <==> id == u.id || id in Ids(pool)
  {
    hide Holds;
    var i := Position(pool, u.id);
    var q := Put(pool, u);
    assert forall j :: 0 <= j < |pool| && j != i ==> q[j] == pool[j] && pool[j].id != u.id;
    if i == |pool| {
      assert q[i] == u;
      assert Ids(q) == Ids(pool) + [u.id];
    } else {
      assert Ids(q) == Ids(pool);
      assert Ids(pool)[i] == u.id;
    }
  }

  lemma OthersUntouched(pool: seq<Station>, tracks: map<string, Track>, id: string, t: Track, participant: bool)
    requires PoolHolds(pool, tracks, participant) && id !in Ids(pool)
    ensures PoolHolds(pool, tracks[id := t], participant)
  {
    hide Holds;
    forall i | 0 <= i < |pool|
      ensures pool[i].id != id
    {
      assert Ids(pool)[i] == pool[i].id;
    }
  }

  lemma SeqWithout<T>(ids: seq<T>, i: nat)
    requires i < |ids| && forall j, k :: 0 <= j < k < |ids| ==> ids[j] != ids[k]
    ensures forall x :: x in ids[..i] + ids[i + 1..] <==> x in ids && x != ids[i]
  {
    var w := ids[..i] + ids[i + 1..];
    assert forall j :: 0 <= j < |w| ==> w[j] == if j < i then ids[j] else ids[j + 1];
    forall x | x in ids && x != ids[i]
      ensures x in w
    {
      var j :| 0 <= j < |ids| && ids[j] == x;
      assert w[if j < i then j else j - 1] == x;
    }
  }

  lemma WithoutHolds(pool: seq<Station>, tracks: map<string, Track>, i: nat, participant: bool)
    requires PoolHolds(pool, tracks, participant) && i < |pool|
    ensures PoolHolds(Without(pool, i), tracks, participant)
    ensures forall id :: id in Ids(Without(pool, i)) <==> id in Ids(pool) && id != pool[i].id
  {
    hide Holds;
    var w := Without(pool, i);
    assert forall j :: 0 <= j < |w| ==> w[j] == if j < i then pool[j] else pool[j + 1];
    assert Ids(w) == Ids(pool)[..i] + Ids(pool)[i + 1..];
    SeqWithout(Ids(pool), i);
  }

  lemma TailHolds(pool: seq<Station>, tracks: map<string, Track>, participant: bool)
    requires PoolHolds(pool, tracks, participant) && pool != []
    ensures PoolHolds(pool[1..], tracks - {pool[0].id}, participant)
    ensures Ids(pool[1..]) == Ids(pool)[1..]
    ensures forall id :: id in Ids(pool[1..]) <==> id in Ids(pool) && id != pool[0].id
  {
    hide Holds, PoolHolds;
    WithoutHolds(pool, tracks, 0, participant);
    WithoutFirst(pool);
    WithoutUntouched(pool[1..], tracks, pool[0].id, participant);
  }

  lemma PoolIds(pool: seq<Station>, tracks: map<string, Track>, participant: bool, id: string)
    requires PoolHolds(pool, tracks, participant) && id in Ids(pool)
    ensures id in tracks && tracks[id].participant == participant
  {
    var i :| 0 <= i < |pool| && Ids(pool)[i] == id;
  }

  /** The ideal step in terms of the new track. */
  lemma IdealAddIs(s: Ideal, r: Report)
    ensures r.id in s.tracks[r.id := NewTrack(s, r)]
    ensures var order := Drop(s.order, r.id) + if NewTrack(s, r).participant then [] else [r.id];
      var tracks := s.tracks[r.id := NewTrack(s, r)];
      IdealAdd(s, r) == if |order| > OTHER_STATIONS_CAP
        then Ideal(tracks - {order[0]}, order[1..], s.heard + 1)
        else Ideal(tracks, order, s.heard + 1)
  {
    var order := Drop(s.order, r.id) + if NewTrack(s, r).participant then [] else [r.id];
    var tracks := s.tracks[r.id := NewTrack(s, r)];
    assert tracks - {} == tracks;
  }

  lemma {:induction false} DropShrinks(order: seq<string>, id: string)
    ensures |Drop(order, id)| <= |order|
    ensures id !in order ==> Drop(order, id) == order
  {
    if order != [] {
      DropShrinks(order[1..], id);
    }
  }

  /** Putting the updated station among the participants refines the ideal step. */
  lemma ParticipantPut(p: Pools, s: Ideal, r: Report, u: Station, others: seq<Station>)
    requires Refines(p, s) && u.id == r.id && Holds(u, NewTrack(s, r)) && NewTrack(s, r).participant
    requires PoolHolds(others, s.tracks, false) && Ids(others) == Drop(s.order, r.id)
    ensures Refines(Pools(Put(p.participants, u), others, p.seqNo + 1), IdealAdd(s, r))
  {
    hide Holds, PoolHolds, Put, NewTrack, IdealAdd, Drop;
    var t := NewTrack(s, r);
    IdealAddIs(s, r);
    DropShrinks(s.order, r.id);
    assert Drop(s.order, r.id) + [] == Drop(s.order, r.id);
    PutHolds(p.participants, s.tracks, u, t, true);
    OthersUntouched(others, s.tracks, r.id, t, false);
  }

  lemma NotAmongOthers(p: Pools, s: Ideal, id: string)
    requires Refines(p, s) && Has(p.participants, id)
    ensures id !in Ids(p.others) && !Has(p.others, id)
    ensures id in s.tracks && s.tracks[id].participant
  {
    hide Holds, PoolHolds;
    HasIds(p.participants, id);
    HasIds(p.others, id);
    PoolIds(p.participants, s.tracks, true, id);
    if id in Ids(p.others) {
      PoolIds(p.others, s.tracks, false, id);
    }
  }

  lemma KnownHas(p: Pools, s: Ideal, id: string)
    requires Refines(p, s) && id in s.tracks
    ensures if s.tracks[id].participant then Has(p.participants, id) else Has(p.others, id)
  {
    HasIds(p.participants, id);
    HasIds(p.others, id);
  }

  lemma KnownParticipantRefines(p: Pools, s: Ideal, r: Report)
    requires Refines(p, s) && Has(p.participants, r.id)
    ensures Refines(Added(p, r), IdealAdd(s, r))
  {
    hide Holds, PoolHolds, Put, NewTrack, IdealAdd, Drop, Position, Updated;
    NotAmongOthers(p, s, r.id);
    UpdatedHolds(s, p.participants, r, Participant, true);
    DropShrinks(s.order, r.id);
    ParticipantPut(p, s, r, Updated(p.participants, r, Participant, p.seqNo + 1), p.others);
  }

  lemma NewParticipantRefines(p: Pools, s: Ideal, r: Report)
    requires Refines(p, s) && r.kind.Participant? && !Has(p.participants, r.id) && !Has(p.others, r.id)
    ensures Refines(Added(p, r), IdealAdd(s, r))
  {
    hide Holds, PoolHolds, Put, NewTrack, IdealAdd, Drop, Position, Updated;
    if r.id in s.tracks {
      KnownHas(p, s, r.id);
    }
    HasIds(p.others, r.id);
    UpdatedHolds(s, p.participants, r, Participant, true);
    DropShrinks(s.order, r.id);
    ParticipantPut(p, s, r, Updated(p.participants, r, Participant, p.seqNo + 1), p.others);
  }

  lemma PutAgain(pool: seq<Station>, s: Station, u: Station)
    requires !Has(pool, s.id) && u.id == s.id
    ensures Has(pool + [s], s.id) && (pool + [s])[Position(pool + [s], s.id)] == s
    ensures Put(pool + [s], u) == Put(pool, u)
  {
    PositionAtEnd(pool, s);
    PositionAtEnd(pool, u);
    assert (pool + [s])[|pool| := u] == pool + [u];
  }

  lemma PromotedTrack(s: Ideal, o: Station, r: Report)
    requires r.kind.Participant? && o.id == r.id && r.id in s.tracks && Holds(o, s.tracks[r.id])
    requires !s.tracks[r.id].participant
    ensures var u := Heard(o.(kind := Participant, callsign := r.callsign), r, s.heard + 1);
      u.id == r.id && Holds(u, NewTrack(s, r)) && NewTrack(s, r).participant
  {
    LastNSnoc(s.tracks[r.id].trail, TRAIL_MAX_POINTS, TrackPoint(r.lat, r.lon, r.ts, s.heard + 1));
  }

  lemma PromotedHolds(p: Pools, s: Ideal, r: Report)
    requires Refines(p, s) && r.kind.Participant? && !Has(p.participants, r.id) && Has(p.others, r.id)
    ensures var q := Promoted(p, r); var u := Updated(q.participants, r, Participant, p.seqNo + 1);
      && u.id == r.id && Holds(u, NewTrack(s, r)) && NewTrack(s, r).participant
      && Put(q.participants, u) == Put(p.participants, u)
  {
    hide Holds, Put, NewTrack, Heard, Position;
    var o := p.others[Position(p.others, r.id)];
    PromotedTrack(s, o, r);
    var promoted := o.(kind := Participant, callsign := r.callsign);
    PutAgain(p.participants, promoted, Heard(promoted, r, p.seqNo + 1));
  }

  lemma PromotionRefines(p: Pools, s: Ideal, r: Report)
    requires Refines(p, s) && r.kind.Participant? && !Has(p.participants, r.id) && Has(p.others, r.id)
    ensures Refines(Added(p, r), IdealAdd(s, r))
  {
    hide Holds, PoolHolds, Put, NewTrack, IdealAdd, Drop, Updated, Position;
    PromotedHolds(p, s, r);
    var j := Position(p.others, r.id);
    WithoutHolds(p.others, s.tracks, j, false);
    assert UniqueIds(p.others) by { PoolUnique(p.others, s.tracks, false); }
    DropIsWithout(p.others, r.id);
    var q := Promoted(p, r);
    ParticipantPut(p, s, r, Updated(q.participants, r, Participant, p.seqNo + 1), Without(p.others, j));
  }

  lemma PoolUnique(pool: seq<Station>, tracks: map<string, Track>, participant: bool)
    requires PoolHolds(pool, tracks, participant)
    ensures UniqueIds(pool)
  {
  }

  /** The other stations with the report's station last, before the cap is applied. */
  lemma OthersHold(p: Pools, s: Ideal, r: Report, u: Station) returns (rest: seq<Station>)
    requires Refines(p, s) && u.id == r.id && Holds(u, NewTrack(s, r)) && !NewTrack(s, r).participant
    ensures rest == if Has(p.others, r.id) then Without(p.others, Position(p.others, r.id)) else p.others
    ensures PoolHolds(rest + [u], s.tracks[r.id := NewTrack(s, r)], false)
    ensures Ids(rest + [u]) == Drop(s.order, r.id) + [r.id]
    ensures forall id :: id in Ids(rest + [u]) <==> id == r.id || id in Ids(p.others)
    ensures |rest| <= OTHER_STATIONS_CAP
  {
    hide Holds, PoolHolds, NewTrack, Drop;
    rest := p.others;
    PoolUnique(p.others, s.tracks, false);
    DropIsWithout(p.others, r.id);
    HasIds(p.others, r.id);
    if Has(p.others, r.id) {
      var j := Position(p.others, r.id);
      WithoutHolds(p.others, s.tracks, j, false);
      rest := Without(p.others, j);
    }
    HasIds(rest, r.id);
    PutHolds(rest, s.tracks, u, NewTrack(s, r), false);
    PositionAtEnd(rest, u);
    assert Ids(rest + [u]) == Ids(rest) + [r.id];
  }

  lemma AddOtherRefines(p: Pools, s: Ideal, r: Report)
    requires Refines(p, s) && r.kind.Other? && !Has(p.participants, r.id)
    ensures Refines(Added(p, r), IdealAdd(s, r))
  {
    hide Holds, PoolHolds, NewTrack, IdealAdd, Drop, Updated, Position;
    if r.id in s.tracks {
      KnownHas(p, s, r.id);
    }
    UpdatedHolds(s, p.others, r, Other, false);
    var u := Updated(p.others, r, Other, p.seqNo + 1);
    var rest := OthersHold(p, s, r, u);
    var tracks := s.tracks[r.id := NewTrack(s, r)];
    IdealAddIs(s, r);
    HasIds(p.participants, r.id);
    OthersUntouched(p.participants, s.tracks, r.id, NewTrack(s, r), true);
    if |rest + [u]| > OTHER_STATIONS_CAP {
      TailHolds(rest + [u], tracks, false);
      var gone := (rest + [u])[0].id;
      assert Ids(rest + [u])[0] == gone;
      if gone in Ids(p.participants) {
        PoolIds(p.participants, tracks, true, gone);
        PoolIds(rest + [u], tracks, false, gone);
      }
      WithoutUntouched(p.participants, tracks, gone, true);
    }
  }

  lemma WithoutUntouched(pool: seq<Station>, tracks: map<string, Track>, id: string, participant: bool)
    requires PoolHolds(pool, tracks, participant) && id !in Ids(pool)
    ensures PoolHolds(pool, tracks - {id}, participant)
  {
    hide Holds;
    forall i | 0 <= i < |pool|
      ensures pool[i].id != id
    {
      assert Ids(pool)[i] == pool[i].id;
    }
  }

  lemma DropOthersRefines(p: Pools, s: Ideal)
    requires Refines(p, s)
    ensures Refines(Dropped(p), IdealStep(s, DropOthers))
  {
    hide Holds;
  }

  /** After every run the bounded store is the unbounded one with each trail cut to its last 120
      points: the same stations, in the same order, with the same facts. */
  lemma {:induction false} StoreRefines(ops: seq<Op>)
    ensures Refines(Run(ops), IdealRun(ops))
    decreases |ops|
  {
    hide Refines, Added, IdealAdd, Has;
    if ops == [] {
      EmptyRefines();
    } else {
      var init := ops[..|ops| - 1];
      var p, s := Run(init), IdealRun(init);
      StoreRefines(init);
      match ops[|ops| - 1] {
        case DropOthers => DropOthersRefines(p, s);
        case Add(r) => AddRefines(p, s, r);
      }
    }
  }

  /** In every reachable state each id names one station in one of the two pools, there are at most 200
      other stations and no trail is longer than 120 points. */
  lemma RunConsistent(ops: seq<Op>)
    ensures Consistent(Run(ops))
    ensures forall a :: a in Run(ops).participants + Run(ops).others ==> |a.points| <= TRAIL_MAX_POINTS
  {
    hide Run, IdealRun, UniqueIds, Placed;
    StoreRefines(ops);
    var p, s := Run(ops), IdealRun(ops);
    forall i, j | 0 <= i < |p.participants| && 0 <= j < |p.others|
      ensures p.participants[i].id != p.others[j].id
    {
      assert s.tracks[p.participants[i].id].participant != s.tracks[p.others[j].id].participant;
    }
  }

  lemma EmptyRefines()
    ensures Refines(Pools([], [], 0), Ideal(map[], [], 0))
  {
  }

  lemma AddRefines(p: Pools, s: Ideal, r: Report)
    requires Refines(p, s)
    ensures Refines(Added(p, r), IdealAdd(s, r))
  {
    hide Refines, Added, IdealAdd, Has;
    if Has(p.participants, r.id) {
      KnownParticipantRefines(p, s, r);
    } else if r.kind.Other? {
      AddOtherRefines(p, s, r);
    } else if Has(p.others, r.id) {
      PromotionRefines(p, s, r);
    } else {
      NewParticipantRefines(p, s, r);
    }
  }
}
